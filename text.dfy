/** The two JavaScript string operations the window-list parser relies on,
    specialised to the one-character patterns it uses:
    `s.split(c)` (Split) and `s.replace(c, "")` (ReplaceFirst). */
module Text {

  /** Number of occurrences of `c` in `s`. */
  function Count(s: string, c: char): nat
  {
    if |s| == 0 then 0 else (if s[0] == c then 1 else 0) + Count(s[1..], c)
  }

  /** Position of the first `c` in `s`, or `|s|` when `s` has none: the
      first-occurrence search that `replace` and `split` perform. */
  function IndexOf(s: string, c: char): (i: nat)
    ensures i <= |s|
    ensures i < |s| ==> s[i] == c
    ensures forall j | 0 <= j < i :: s[j] != c
  {
    if |s| == 0 then 0 else if s[0] == c then 0 else 1 + IndexOf(s[1..], c)
  }

  /** `s.replace(c, "")` for a one-character string pattern: only the FIRST
      occurrence of `c` is removed, wherever it stands. */
  function ReplaceFirst(s: string, c: char): (r: string)
  {
    if |s| == 0 then s
    else if s[0] == c then s[1..]
    else [s[0]] + ReplaceFirst(s[1..], c)
  }

  /** `s.split(sep)` for a one-character separator: the pieces between
      separators, in order; the empty string gives `[""]`, and a trailing
      separator gives a trailing empty piece. */
  function Split(s: string, sep: char): (pieces: seq<string>)
    ensures |pieces| >= 1
    ensures forall k | 0 <= k < |pieces| :: sep !in pieces[k]
  {
    if |s| == 0 then [""]
    else
      var rest := Split(s[1..], sep);
      if s[0] == sep then [""] + rest
      else [[s[0]] + rest[0]] + rest[1..]
  }

  /** `pieces.join(sep)`: the inverse of Split. */
  function Join(pieces: seq<string>, sep: char): string
  {
    if |pieces| == 0 then ""
    else if |pieces| == 1 then pieces[0]
    else pieces[0] + [sep] + Join(pieces[1..], sep)
  }

  /** Removing the first `c` deletes exactly the character at IndexOf(s, c),
      and leaves a string without `c` unchanged. */
  lemma {:induction false} ReplaceFirstRemovesFirst(s: string, c: char)
    ensures var i := IndexOf(s, c);
            ReplaceFirst(s, c) == if i < |s| then s[..i] + s[i + 1..] else s
  {
    if |s| > 0 && s[0] != c {
      ReplaceFirstRemovesFirst(s[1..], c);
      var i := IndexOf(s[1..], c);
      if i < |s| - 1 {
        assert s[1..][..i] == s[1..i + 1];
        assert s[1..][i + 1..] == s[i + 2..];
        assert [s[0]] + s[1..i + 1] == s[..i + 1];
      } else {
        assert [s[0]] + s[1..] == s;
      }
    }
  }

  /** Before its first `c` a string is left as it is. */
  lemma {:induction false} ReplaceFirstPrefix(a: string, b: string, c: char)
    requires c !in a
    ensures ReplaceFirst(a + b, c) == a + ReplaceFirst(b, c)
  {
    if |a| > 0 {
      assert (a + b)[1..] == a[1..] + b;
      assert c !in a[1..];
      ReplaceFirstPrefix(a[1..], b, c);
      assert [a[0]] + (a[1..] + ReplaceFirst(b, c)) == a + ReplaceFirst(b, c);
    } else {
      assert a + b == b;
    }
  }

  /** ReplaceFirst introduces no character that `s` lacks. */
  lemma {:induction false} ReplaceFirstKeepsOut(s: string, c: char, x: char)
    requires x !in s
    ensures x !in ReplaceFirst(s, c)
  {
    if |s| > 0 && s[0] != c {
      assert x !in s[1..];
      ReplaceFirstKeepsOut(s[1..], c, x);
    }
  }

  /** Split and Join are inverse: joining the pieces gives back the input. */
  lemma {:induction false} SplitJoin(s: string, sep: char)
    ensures Join(Split(s, sep), sep) == s
  {
    if |s| > 0 {
      var rest := Split(s[1..], sep);
      SplitJoin(s[1..], sep);
      if s[0] == sep {
        assert Join(Split(s, sep), sep) == "" + [sep] + Join(rest, sep);
        assert [sep] + s[1..] == s;
      } else if |rest| == 1 {
        assert [s[0]] + s[1..] == s;
      } else {
        var pieces := Split(s, sep);
        assert pieces[1..] == rest[1..];
        assert Join(pieces, sep) == [s[0]] + rest[0] + [sep] + Join(rest[1..], sep);
        assert Join(rest, sep) == rest[0] + [sep] + Join(rest[1..], sep);
        assert [s[0]] + s[1..] == s;
      }
    }
  }

  /** A string without the separator is a single piece. */
  lemma {:induction false} SplitNoSeparator(s: string, sep: char)
    requires sep !in s
    ensures Split(s, sep) == [s]
  {
    if |s| > 0 {
      assert sep !in s[1..];
      SplitNoSeparator(s[1..], sep);
      assert [s[0]] + s[1..] == s;
    }
  }

  /** A separator-free prefix followed by the separator is the first piece. */
  lemma {:induction false} SplitPrefix(p: string, s: string, sep: char)
    requires sep !in p
    ensures Split(p + [sep] + s, sep) == [p] + Split(s, sep)
  {
    if |p| == 0 {
      assert p + [sep] + s == [sep] + s;
      assert ([sep] + s)[1..] == s;
    } else {
      var whole := p + [sep] + s;
      assert whole[1..] == p[1..] + [sep] + s;
      assert sep !in p[1..];
      SplitPrefix(p[1..], s, sep);
      assert [p[0]] + p[1..] == p;
    }
  }

  /** The first piece runs up to the first separator, and the rest is the
      split of what follows it. */
  lemma SplitAtFirst(s: string, sep: char)
    ensures var i := IndexOf(s, sep);
            Split(s, sep) == if i < |s| then [s[..i]] + Split(s[i + 1..], sep) else [s]
  {
    var i := IndexOf(s, sep);
    if i < |s| {
      assert s == s[..i] + [sep] + s[i + 1..];
      SplitPrefix(s[..i], s[i + 1..], sep);
    } else {
      SplitNoSeparator(s, sep);
    }
  }

  /** Joining separator-free pieces and splitting again gives the pieces back. */
  lemma {:induction false} JoinSplit(pieces: seq<string>, sep: char)
    requires |pieces| >= 1
    requires forall k | 0 <= k < |pieces| :: sep !in pieces[k]
    ensures Split(Join(pieces, sep), sep) == pieces
  {
    if |pieces| == 1 {
      SplitNoSeparator(pieces[0], sep);
    } else {
      JoinSplit(pieces[1..], sep);
      SplitPrefix(pieces[0], Join(pieces[1..], sep), sep);
      assert [pieces[0]] + pieces[1..] == pieces;
    }
  }

  /** Join distributes over concatenation of non-empty piece lists. */
  lemma {:induction false} JoinAppend(xs: seq<string>, ys: seq<string>, sep: char)
    requires |xs| >= 1 && |ys| >= 1
    ensures Join(xs + ys, sep) == Join(xs, sep) + [sep] + Join(ys, sep)
  {
    if |xs| > 1 {
      assert (xs + ys)[1..] == xs[1..] + ys;
      JoinAppend(xs[1..], ys, sep);
    } else {
      assert (xs + ys)[1..] == ys;
    }
  }

  /** Splitting at a known separator splits the two sides independently. */
  lemma SplitAppend(a: string, b: string, sep: char)
    ensures Split(a + [sep] + b, sep) == Split(a, sep) + Split(b, sep)
  {
    var pieces := Split(a, sep) + Split(b, sep);
    JoinAppend(Split(a, sep), Split(b, sep), sep);
    SplitJoin(a, sep);
    SplitJoin(b, sep);
    JoinSplit(pieces, sep);
  }

  /** There is one more piece than there are separators. */
  lemma {:induction false} SplitCount(s: string, sep: char)
    ensures |Split(s, sep)| == Count(s, sep) + 1
  {
    if |s| > 0 {
      SplitCount(s[1..], sep);
    }
  }

  /** The pieces contain no character that `s` lacks. */
  lemma {:induction false} SplitKeepsOut(s: string, sep: char, x: char)
    requires x !in s
    ensures forall k | 0 <= k < |Split(s, sep)| :: x !in Split(s, sep)[k]
  {
    if |s| > 0 {
      assert x !in s[1..];
      SplitKeepsOut(s[1..], sep, x);
    }
  }
}
