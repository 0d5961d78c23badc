# application-loopback: window listing and capture registry

A Dafny model of the host-side core of application-loopback, a Node package
that lists the visible windows of Windows applications and captures the audio
of one process. The core lives in `src/index.ts`. It has two parts.

- **Window list parsing** (`getActiveWindowProcessIds`). The ProcessList helper
  prints one `processId;title` line per window. Its output reaches the host as
  text chunks. The module `WindowList` models how each chunk is parsed and how
  the records of all chunks are accumulated until the output closes. It relies
  on `Text`, a model of the two JavaScript string operations involved:
  `split` on one character, and `replace` of a one-character pattern, which
  removes only the first occurrence.
- **Capture registry** (`startAudioCapture` / `stopAudioCapture`). This is a
  module-level map from process id to the spawned ApplicationLoopback child
  process. The module `AudioCapture` models it as the class `CaptureRegistry`
  and its two methods. The pure functions `StartStep` / `StopStep` state the
  same steps on map values, and the lemmas are proved about them. Over a
  sequence of calls, the per-id state machine (UNREGISTERED / ACTIVE) is
  proved to agree with the map (`RunMatchesSlots`).

The model follows the code as written, including where it departs from
what the output format might suggest:

- the line is split on every `;` and only the first two fields are kept, so
  `"1;Window;Extra"` gives the title `"Window"`, not `"Window;Extra"` as a split on
  the first `;` would give;
- `replace("\r", "")` removes the first `\r` wherever it stands, not only a
  trailing one;
- every chunk is parsed on its own, so a line cut across two chunks is read as
  two fragments;
- `stopAudioCapture` only kills and unregisters. Nothing stops chunks that
  arrive after it from reaching `onData`, and no exit listener frees a slot
  when the capture process dies on its own. The model claims neither.

## Model

| member | source | states |
|---|---|---|
| `Text.IndexOf` | src/index.ts:35 | the result is the position of the first occurrence, or the length when there is none |
| `Text.Split` | src/index.ts:34-35 | `split` on one character gives at least one piece, and no piece contains the separator |
| `Text.SplitJoin` | src/index.ts:34-35 | joining the pieces of a split with the separator gives back the original text |
| `Text.JoinSplit` | src/index.ts:34-35 | splitting a join of separator-free pieces gives back exactly those pieces, so the pieces of a split are unique |
| `Text.SplitAppend` | src/index.ts:34 | splitting `a + sep + b` gives the pieces of `a` followed by the pieces of `b` |
| `Text.SplitAtFirst` | src/index.ts:35 | the first piece runs up to the first separator, and the remaining pieces are the split of what follows it |
| `Text.SplitCount` | src/index.ts:34 | a split has one piece more than the text has separators |
| `Text.SplitKeepsOut` | src/index.ts:34-35 | a character absent from the text is absent from every piece |
| `Text.ReplaceFirstRemovesFirst` | src/index.ts:35 | `replace("\r", "")` deletes exactly the character at the first `\r`, and leaves a text without `\r` unchanged |
| `Text.ReplaceFirstPrefix` | src/index.ts:35 | text before the first `\r` is kept as it is |
| `Text.ReplaceFirstKeepsOut` | src/index.ts:35 | the replacement introduces no character the line lacks |
| `WindowList.ParseLine` | src/index.ts:35-40 | a line yields a record only when both fields are non-empty, and the record's fields contain no `;` |
| `WindowList.ParseLineByPositionAgrees` | src/index.ts:35-38 | a line yields `{processId, title}` exactly when, after removing its first `\r`, the id is the non-empty text before the first `;` and the title is the non-empty text between it and the next `;` or the end; otherwise it yields nothing |
| `WindowList.ParseLineKeepsOut` | src/index.ts:35-38 | a record has no character that its line lacks |
| `WindowList.ParseLines` | src/index.ts:34-41 | there are at most as many records as lines, and every record has non-empty fields without `;` |
| `WindowList.ParseLinesAppend` | src/index.ts:34-41 | records keep the order of their lines: the records of `a + b` are those of `a` followed by those of `b` |
| `WindowList.ParseChunkAppend` | src/index.ts:34-41 | a chunk `a + "\n" + b` yields the records of `a` followed by those of `b` |
| `WindowList.ParseChunkOneLine` | src/index.ts:34-41 | a text without newline yields that line's record, or nothing |
| `WindowList.ParseChunkBound` | src/index.ts:34 | a chunk yields at most one record per `"\n"`-separated piece |
| `WindowList.ParseChunkWellFormed` | src/index.ts:34-41 | every record of a chunk has non-empty fields containing neither `;` nor `"\n"` |
| `WindowList.FragmentWithoutSemicolon` | src/index.ts:35-38 | a line with no `;` yields no record |
| `WindowList.ParseAllTwo` | src/index.ts:33-42 | two chunks accumulate to the records of the first followed by those of the second |
| `WindowList.ParseAllAppend` | src/index.ts:31-33 | the accumulated list for a run of chunks is the list for its first part followed by the list for the rest |
| `WindowList.ParseAllWellFormed` | src/index.ts:31-42 | every accumulated record has non-empty fields containing neither `;` nor `"\n"` |
| `WindowList.GetActiveWindowProcessIds` | src/index.ts:30-46 | the list returned at close is the records of every chunk in arrival order, each record well formed |
| `WindowList.ParseLinePrinted` | src/index.ts:35-38 | a line in the lister's format, with or without a trailing `\r`, parses back to its window |
| `WindowList.RenderParse` | src-cpp/ProcessList/ProcessList.cpp:89-93 | round trip for the `"\n"`-terminated rendering of line 91: parsing it gives back the windows printed, in order, when ids and titles contain no `;`, `\n` or `\r` |
| `WindowList.RenderCrlfParse` | src/index.ts:34-41 | round trip for the same listing with `"\r\n"` line endings, as a text-mode stream on Windows delivers it: parsing gives back every printed window, in order, for listings of any length |
| `WindowList.TitleTruncatedAtSecondSemicolon` | src/index.ts:35 | `id;title;extra` yields title `title`: a second `;` truncates the title |
| `WindowList.TruncationExample` | src/index.ts:35-38 | `"1;Window;Extra"` yields `{processId: "1", title: "Window"}` |
| `WindowList.SecondCarriageReturnKept` | src/index.ts:35 | only the first `\r` goes: `id;title\r\r` yields title `title\r` |
| `WindowList.TwoLinesAndBlank` | src/index.ts:34-41 | two lines, the second ending in `\r\n`, then a blank line, give exactly the two records in order |
| `WindowList.LineAcrossChunksNotReassembled` | src/index.ts:33-42 | a line cut inside its id across two chunks gives a record with only the tail of the id, while the uncut line gives the right record |
| `AudioCapture.StartStep` | src/index.ts:61-75 | a start on a registered id fails with `AlreadyStarted` and leaves the registry unchanged; otherwise it returns the same id, adds exactly that key with the new handle, and keeps every other entry |
| `AudioCapture.StopStep` | src/index.ts:83-93 | a stop returns true exactly when the id was registered; afterwards the id is absent and every other entry is unchanged |
| `AudioCapture.StopIdempotent` | src/index.ts:84-92 | a second stop returns false and changes nothing |
| `AudioCapture.StartThenStopRestores` | src/index.ts:61-93 | starting a free id and stopping it returns true and gives the registry back |
| `AudioCapture.StopThenStartSucceeds` | src/index.ts:62-74 | after a stop the id can be started again |
| `AudioCapture.DifferentIdsIndependent` | src/index.ts:62-88 | a start on one id does not change what a stop on another id returns, and the reverse |
| `AudioCapture.RunMatchesSlots` | src/index.ts:50-93 | after any sequence of calls from the empty registry, an id is registered exactly when the last start or stop call on it was a start (its slot is ACTIVE) |
| `AudioCapture.StartFailsIffActive` | src/index.ts:62-64 | after any sequence of calls, a start fails and a stop returns true exactly when the id's slot is ACTIVE |
| `AudioCapture.ChildProcess.Spawn` | src/index.ts:66 | the capture process is spawned with the process id as its one argument, not yet killed |
| `AudioCapture.ChildProcess.Kill` | src/index.ts:87 | after `kill()` the handle is marked killed |
| `AudioCapture.CaptureRegistry.DistinctHandles` | src/index.ts:66-68 | no capture process is registered under two ids |
| `AudioCapture.CaptureRegistry.constructor` | src/index.ts:50 | the registry starts empty, with nothing killed |
| `AudioCapture.CaptureRegistry.StartAudioCapture` | src/index.ts:61-75 | the new registry and result are `StartStep` of the old registry; on success the entry is a fresh process spawned with the id as argument; nothing is killed |
| `AudioCapture.CaptureRegistry.StopAudioCapture` | src/index.ts:83-93 | the new registry and result are `StopStep` of the old registry; exactly the removed process is killed and logged, and no other object changes |
| `AudioCapture.StartStopTwice` | src/index.ts:61-93 | from an empty registry: start returns the id, a second start fails with `AlreadyStarted`, and two stops return true then false |

## Left out

- The platform and architecture check at module load (src/index.ts:5-7) and the paths of the helper binaries (src/index.ts:9-10) depend on the environment; they are not modelled.
- Spawning the helpers, `setEncoding`, the stream `data` and `close` events, and the promise (src/index.ts:27-30, 44-46) are child-process I/O. `GetActiveWindowProcessIds` takes the sequence of decoded chunks the output delivers, in arrival order, and returns the list that the promise resolves to.
- Forwarding capture output to `onData` (src/index.ts:70-72) is asynchronous event delivery. The `options` argument is therefore not a parameter of `StartAudioCapture`, and no claim is made about chunks delivered after a stop.
- `AudioCapture.ChildProcess.Kill`: the signal itself and the process's exit are not modelled; `kill()` only marks the handle.
- A capture process that exits on its own keeps its registry entry in the source (there is no exit listener). The model has no such event either.
- The text of the thrown error (src/index.ts:63) is reduced to `AlreadyStarted(processId)`.
- A missing or unstartable binary does not make `spawn` throw: Node reports it later as an `error` event, and since no listener is attached the host process crashes then. Before that, `startAudioCapture` has already registered the id and returned it (src/index.ts:66-74), as the model does; the later crash is not modelled.
- AudioCapture.CaptureRegistry.StartAudioCapture: does not model `spawn` throwing synchronously on an invalid argument (for instance a process id containing U+0000). There the source throws before `set` and the registry stays unchanged, while the model returns `Success` and registers the id.
- The Win32 window and process enumeration in src-cpp/ProcessList/ProcessList.cpp is not part of this model. Only its output line format (line 91) is used, by `Render` and `RenderParse`.
- The WASAPI capture program src-cpp/ApplicationLoopback/ApplicationLoopback.cpp and the example consumer src/test.ts (floating-point level metering, console rendering, timers) are not part of this model.
