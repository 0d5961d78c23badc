/** Enumerating windows (`getActiveWindowProcessIds`): the lister program
    writes lines `processId;title`, its output arrives as text chunks, each
    chunk is parsed on its own and the records are appended, in arrival
    order, to one accumulated list, which is the result once the output
    closes. Spawning the lister and the stream events are not modelled: the
    chunks the output delivers are a parameter. */
module WindowList {
  import opened Text

  /** A visible window and the process that owns it. */
  datatype Window = Window(processId: string, title: string)

  /** `undefined` or a value, as the per-line `map` produces it. */
  datatype Option<T> = None | Some(value: T)

  /** What every record the parser produces satisfies. */
  predicate WellFormed(w: Window)
  {
    && w.processId != "" && w.title != ""
    && ';' !in w.processId && ';' !in w.title
    && '\n' !in w.processId && '\n' !in w.title
  }

  /** One line: drop the first '\r', split on EVERY ';', destructure the
      first two fields, keep the line only when both are non-empty strings.
      A third field and beyond are dropped, so a title never contains ';'. */
  function ParseLine(line: string): (w: Option<Window>)
    ensures w.Some? ==> w.value.processId != "" && w.value.title != ""
    ensures w.Some? ==> ';' !in w.value.processId && ';' !in w.value.title
  {
    var fields := Split(ReplaceFirst(line, '\r'), ';');
    // `const [processId, title] = fields`: title is undefined without a second field
    if |fields| >= 2 && fields[0] != "" && fields[1] != "" then
      Some(Window(fields[0], fields[1]))
    else
      None
  }

  /** The lines that yield a record, in their order (the `map` and `filter`). */
  function ParseLines(lines: seq<string>): (ws: seq<Window>)
    ensures |ws| <= |lines|
    ensures forall k | 0 <= k < |ws| :: ws[k].processId != "" && ws[k].title != ""
    ensures forall k | 0 <= k < |ws| :: ';' !in ws[k].processId && ';' !in ws[k].title
  {
    if |lines| == 0 then []
    else
      var head := ParseLine(lines[0]);
      (if head.Some? then [head.value] else []) + ParseLines(lines[1..])
  }

  /** The records of one data chunk: its "\n"-separated lines, parsed. */
  function ParseChunk(chunk: string): seq<Window>
  {
    ParseLines(Split(chunk, '\n'))
  }

  /** The accumulated list after the given chunks, in arrival order. */
  function ParseAll(chunks: seq<string>): seq<Window>
  {
    if |chunks| == 0 then []
    else ParseAll(chunks[..|chunks| - 1]) + ParseChunk(chunks[|chunks| - 1])
  }

  /** The promise's value: the records of every chunk of the lister's output,
      pushed in arrival order onto `processes`, which is returned when the
      output closes. */
  method GetActiveWindowProcessIds(output: seq<string>) returns (processes: seq<Window>)
    ensures processes == ParseAll(output)
    ensures forall k | 0 <= k < |processes| :: WellFormed(processes[k])
  {
    processes := [];
    var i := 0;
    while i < |output|
      invariant 0 <= i <= |output|
      invariant processes == ParseAll(output[..i])
    {
      // one "data" event
      processes := processes + ParseChunk(output[i]);
      assert output[..i + 1][..i] == output[..i];
      i := i + 1;
    }
    assert output[..|output|] == output;
    ParseAllWellFormed(output);
  }

  // ---------------------------------------------------------------------
  // The line decision, stated by positions instead of by split.

  /** The record a line yields, found by positions in the line with its first
      '\r' removed: the id runs up to the first ';', the title from there up
      to the next ';' or the end; both must be non-empty. */
  function ParseLineByPosition(line: string): Option<Window>
  {
    var c := ReplaceFirst(line, '\r');
    var i := IndexOf(c, ';');
    if i == |c| then None
    else
      var rest := c[i + 1..];
      var j := IndexOf(rest, ';');
      if i > 0 && j > 0 then Some(Window(c[..i], rest[..j])) else None
  }

  /** ParseLine agrees with the positional description on every line. */
  lemma ParseLineByPositionAgrees(line: string)
    ensures ParseLine(line) == ParseLineByPosition(line)
  {
    FieldsByPosition(ReplaceFirst(line, '\r'));
  }

  /** The first two fields of `split(";")`, by positions. */
  lemma FieldsByPosition(c: string)
    ensures var fields, i := Split(c, ';'), IndexOf(c, ';');
            && (i == |c| ==> |fields| == 1)
            && (i < |c| ==> |fields| >= 2 && fields[0] == c[..i]
                            && fields[1] == c[i + 1..][..IndexOf(c[i + 1..], ';')])
  {
    var i := IndexOf(c, ';');
    SplitAtFirst(c, ';');
    if i < |c| {
      var rest := c[i + 1..];
      var j := IndexOf(rest, ';');
      SplitAtFirst(rest, ';');
      assert j == |rest| ==> rest[..j] == rest;
      assert Split(rest, ';')[0] == rest[..j];
    }
  }

  /** A record contains no character its line lacks; in particular a line
      taken from a chunk has no '\n' and neither has its record. */
  lemma ParseLineKeepsOut(line: string, x: char)
    requires ParseLine(line).Some?
    requires x !in line
    ensures x !in ParseLine(line).value.processId && x !in ParseLine(line).value.title
  {
    ReplaceFirstKeepsOut(line, '\r', x);
    SplitKeepsOut(ReplaceFirst(line, '\r'), ';', x);
  }

  // ---------------------------------------------------------------------
  // Order and composition.

  /** The lines of two line lists yield their records side by side: records
      keep the order of their source lines. */
  lemma {:induction false} ParseLinesAppend(a: seq<string>, b: seq<string>)
    ensures ParseLines(a + b) == ParseLines(a) + ParseLines(b)
  {
    if |a| > 0 {
      assert (a + b)[1..] == a[1..] + b;
      ParseLinesAppend(a[1..], b);
    } else {
      assert a + b == b;
    }
  }

  /** Two texts joined by a newline parse to the records of each, in order. */
  lemma ParseChunkAppend(a: string, b: string)
    ensures ParseChunk(a + "\n" + b) == ParseChunk(a) + ParseChunk(b)
  {
    SplitAppend(a, b, '\n');
    ParseLinesAppend(Split(a, '\n'), Split(b, '\n'));
  }

  /** A text without newline is one line, and yields that line's record or nothing. */
  lemma ParseChunkOneLine(line: string)
    requires '\n' !in line
    ensures ParseChunk(line) == if ParseLine(line).Some? then [ParseLine(line).value] else []
  {
    SplitNoSeparator(line, '\n');
  }

  /** A chunk yields at most one record per "\n"-separated piece. */
  lemma ParseChunkBound(chunk: string)
    ensures |ParseChunk(chunk)| <= Count(chunk, '\n') + 1
  {
    SplitCount(chunk, '\n');
  }

  /** Every record of a chunk is well formed. */
  lemma ParseChunkWellFormed(chunk: string)
    ensures forall k | 0 <= k < |ParseChunk(chunk)| :: WellFormed(ParseChunk(chunk)[k])
  {
    ParseLinesKeepsOut(Split(chunk, '\n'), '\n');
  }

  lemma {:induction false} ParseLinesKeepsOut(lines: seq<string>, x: char)
    requires forall k | 0 <= k < |lines| :: x !in lines[k]
    ensures forall k | 0 <= k < |ParseLines(lines)| ::
              x !in ParseLines(lines)[k].processId && x !in ParseLines(lines)[k].title
  {
    if |lines| > 0 {
      ParseLinesKeepsOut(lines[1..], x);
      if ParseLine(lines[0]).Some? {
        ParseLineKeepsOut(lines[0], x);
      }
    }
  }

  /** The accumulated list of a run of chunks is the accumulated list of its
      first part followed by that of the rest. */
  lemma {:induction false} ParseAllAppend(a: seq<string>, b: seq<string>)
    ensures ParseAll(a + b) == ParseAll(a) + ParseAll(b)
  {
    if |b| > 0 {
      var ab := a + b;
      assert ab[..|ab| - 1] == a + b[..|b| - 1];
      assert ab[|ab| - 1] == b[|b| - 1];
      ParseAllAppend(a, b[..|b| - 1]);
    } else {
      assert a + b == a;
    }
  }

  /** Every accumulated record is well formed. */
  lemma {:induction false} ParseAllWellFormed(chunks: seq<string>)
    ensures forall k | 0 <= k < |ParseAll(chunks)| :: WellFormed(ParseAll(chunks)[k])
  {
    if |chunks| > 0 {
      ParseAllWellFormed(chunks[..|chunks| - 1]);
      ParseChunkWellFormed(chunks[|chunks| - 1]);
    }
  }

  // ---------------------------------------------------------------------
  // The lister's output format, and how the parser reads it back.

  /** The lister's output for a list of windows: `processId;title` and "\n"
      per window. */
  function Render(ws: seq<Window>): string
  {
    if |ws| == 0 then "" else ws[0].processId + ";" + ws[0].title + "\n" + Render(ws[1..])
  }

  /** A window the lister can print so that it reads back unchanged. */
  predicate Printable(w: Window)
  {
    WellFormed(w) && '\r' !in w.processId && '\r' !in w.title
  }

  /** A printed line, with or without a trailing '\r', parses to its window. */
  lemma ParseLinePrinted(w: Window, ending: string)
    requires Printable(w)
    requires ending == "" || ending == "\r"
    ensures ParseLine(w.processId + ";" + w.title + ending) == Some(w)
  {
    var body := w.processId + ";" + w.title;
    assert '\r' !in body;
    ReplaceFirstPrefix(body, ending, '\r');
    assert ReplaceFirst(ending, '\r') == "";
    assert body + "" == body;
    SplitPrefix(w.processId, w.title, ';');
    SplitNoSeparator(w.title, ';');
  }

  /** Round trip: the parser reads the lister's output back as the windows
      it printed. */
  lemma {:induction false} RenderParse(ws: seq<Window>)
    requires forall k | 0 <= k < |ws| :: Printable(ws[k])
    ensures ParseChunk(Render(ws)) == ws
  {
    if |ws| == 0 {
      assert ParseLine("") == None;
    } else {
      var line := ws[0].processId + ";" + ws[0].title;
      var rest := Render(ws[1..]);
      assert Render(ws) == line + "\n" + rest;
      ParseChunkAppend(line, rest);
      ParseLinePrinted(ws[0], "");
      assert line + "" == line;
      ParseChunkOneLine(line);
      RenderParse(ws[1..]);
      assert ParseChunk(Render(ws)) == [ws[0]] + ws[1..];
    }
  }

  /** The same output as it reaches the host on Windows, where the
      text-mode stream turns every "\n" into "\r\n". */
  function RenderCrlf(ws: seq<Window>): string
  {
    if |ws| == 0 then "" else ws[0].processId + ";" + ws[0].title + "\r\n" + RenderCrlf(ws[1..])
  }

  /** Round trip for "\r\n" line endings: the '\r' each line carries is the
      one `replace` removes, and the windows come back in order. */
  lemma {:induction false} RenderCrlfParse(ws: seq<Window>)
    requires forall k | 0 <= k < |ws| :: Printable(ws[k])
    ensures ParseChunk(RenderCrlf(ws)) == ws
  {
    if |ws| == 0 {
      assert ParseLine("") == None;
    } else {
      var line := ws[0].processId + ";" + ws[0].title + "\r";
      var rest := RenderCrlf(ws[1..]);
      assert RenderCrlf(ws) == line + "\n" + rest;
      ParseChunkAppend(line, rest);
      ParseLinePrinted(ws[0], "\r");
      ParseChunkOneLine(line);
      RenderCrlfParse(ws[1..]);
      assert ParseChunk(RenderCrlf(ws)) == [ws[0]] + ws[1..];
    }
  }

  // ---------------------------------------------------------------------
  // Behaviour of the code as written, on concrete lines.

  /** A ';' inside the title truncates it: "1;Window;Extra" gives title "Window". */
  lemma TitleTruncatedAtSecondSemicolon(id: string, title: string, extra: string)
    requires id != "" && title != ""
    requires ';' !in id && ';' !in title && '\r' !in id && '\r' !in title
    ensures ParseLine(id + ";" + title + ";" + extra) == Some(Window(id, title))
  {
    var head := id + ";" + title + ";";
    assert '\r' !in head;
    ReplaceFirstPrefix(head, extra, '\r');
    assert head + ReplaceFirst(extra, '\r') == id + [';'] + (title + [';'] + ReplaceFirst(extra, '\r'));
    SplitPrefix(id, title + [';'] + ReplaceFirst(extra, '\r'), ';');
    SplitPrefix(title, ReplaceFirst(extra, '\r'), ';');
  }

  /** Only the first '\r' of a line goes: a second one stays in the title. */
  lemma SecondCarriageReturnKept(w: Window)
    requires Printable(w)
    ensures ParseLine(w.processId + ";" + w.title + "\r\r") == Some(Window(w.processId, w.title + "\r"))
  {
    var body := w.processId + ";" + w.title;
    assert '\r' !in body;
    ReplaceFirstPrefix(body, "\r\r", '\r');
    assert body + "\r" == w.processId + [';'] + (w.title + "\r");
    SplitPrefix(w.processId, w.title + "\r", ';');
    SplitNoSeparator(w.title + "\r", ';');
  }

  /** Two printed lines, the second ending in "\r\n", then a blank line:
      the blank line is dropped and the '\r' does not reach the title. */
  lemma TwoLinesAndBlank(a: Window, b: Window)
    requires Printable(a) && Printable(b)
    ensures ParseChunk(a.processId + ";" + a.title + "\n" + b.processId + ";" + b.title + "\r\n\n")
            == [a, b]
  {
    var first := a.processId + ";" + a.title;
    var tail := b.processId + ";" + b.title + "\r\n\n";
    assert first + "\n" + tail
        == a.processId + ";" + a.title + "\n" + b.processId + ";" + b.title + "\r\n\n";
    ParseChunkAppend(first, tail);
    ParseLinePrinted(a, "");
    assert first + "" == first;
    ParseChunkOneLine(first);
    CrlfLineThenBlank(b, tail);
  }

  lemma CrlfLineThenBlank(b: Window, tail: string)
    requires Printable(b)
    requires tail == b.processId + ";" + b.title + "\r\n\n"
    ensures ParseChunk(tail) == [b]
  {
    var second := b.processId + ";" + b.title + "\r";
    var blank := "" + "\n" + "";
    assert tail == second + "\n" + blank;
    ParseChunkAppend(second, blank);
    ParseChunkAppend("", "");
    assert ParseChunk("") == [];
    ParseLinePrinted(b, "\r");
    ParseChunkOneLine(second);
  }

  /** "1;Window;Extra" yields the title "Window". */
  lemma TruncationExample(line: string)
    requires line == "1;Window;Extra"
    ensures ParseLine(line) == Some(Window("1", "Window"))
  {
    TitleTruncatedAtSecondSemicolon("1", "Window", "Extra");
    assert line == "1" + ";" + "Window" + ";" + "Extra";
  }

  /** Chunks are parsed separately: when the lister's line for `w` is cut
      inside its process id, the first fragment yields nothing and the second
      yields a record with only the tail of the id, where the uncut line
      yields `w`. */
  lemma LineAcrossChunksNotReassembled(w: Window, cut: nat)
    requires Printable(w)
    requires 0 < cut < |w.processId|
    ensures var head, tail := w.processId[..cut], w.processId[cut..] + ";" + w.title + "\n";
            && ParseAll([head, tail]) == [Window(w.processId[cut..], w.title)]
            && ParseChunk(head + tail) == [w]
  {
    var head, tail := w.processId[..cut], w.processId[cut..] + ";" + w.title + "\n";
    assert ';' !in w.processId[cut..] && '\n' !in w.processId[cut..] && '\r' !in w.processId[cut..];
    PrintedLineChunk(Window(w.processId[cut..], w.title), tail);
    assert head + tail == w.processId + ";" + w.title + "\n";
    PrintedLineChunk(w, head + tail);
    FragmentWithoutSemicolon(head);
    ParseAllTwo(head, tail);
  }

  /** A piece of text with no ';' and no newline yields nothing. */
  lemma FragmentWithoutSemicolon(fragment: string)
    requires ';' !in fragment && '\n' !in fragment
    ensures ParseChunk(fragment) == []
  {
    ParseChunkOneLine(fragment);
    ReplaceFirstKeepsOut(fragment, '\r', ';');
    SplitNoSeparator(ReplaceFirst(fragment, '\r'), ';');
  }

  /** Two chunks accumulate to the records of the first, then of the second. */
  lemma ParseAllTwo(x: string, y: string)
    ensures ParseAll([x, y]) == ParseChunk(x) + ParseChunk(y)
  {
    assert [x, y][..1] == [x];
    assert [x][..0] == [];
    assert ParseAll([x]) == ParseAll([]) + ParseChunk(x);
    assert ParseAll([x, y]) == ParseAll([x]) + ParseChunk(y);
  }

  lemma PrintedLineChunk(w: Window, chunk: string)
    requires Printable(w)
    requires chunk == w.processId + ";" + w.title + "\n"
    ensures ParseChunk(chunk) == [w]
  {
    RenderParse([w]);
    assert [w][1..] == [];
    assert Render([w]) == w.processId + ";" + w.title + "\n" + Render([]);
    assert Render([]) == "";
    assert Render([w]) == chunk;
  }
}
