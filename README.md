# Typing-session recorder and replay, modelled in Dafny

This project models the sequential core of a VS Code typing-session
recorder and of its offline replay tool:

- **The replay viewer** (`timeline_viewer.py`). It decodes a `"start-end"`
  offset pair with Python's `int()`. It applies INSERTION, DELETION and
  OVERWRITE events to a flat string with Python slice semantics. It folds a
  log into one snapshot per event, after an empty baseline.
- **The structured edit recorder** (`DetailedChangeTracker.ts`). It keeps one
  log buffer per document key, in JavaScript `Map` insertion order. It starts
  each buffer with an INITIAL snapshot, then appends one event per content
  change, per de-duplicated selection change, and per undo, redo or cut
  command. It picks the next `Recording<N>` folder and caches each document's
  report path. Its periodic flush appends every non-empty buffer to its
  report file and empties the buffer.
- **The session change logger** (`ChangeTracker.ts`). It counts editing
  sessions: an edit after more than 30 s of quiet, with nothing unsaved,
  starts a new one. An ordered rule chain classifies each change as a "Large
  Paste", a labelled individual change, or nothing. The save step stores the
  collected changes under the current session number, never overwriting a
  stored session, and then clears them.
- **A cross-file module** (`replay_compat.dfy`). It proves what the viewer
  makes of the recorder's output. The recorder writes ranges as
  `line:character-line:character`, which the viewer's `int()` rejects. So
  every recorded range decodes to `(0, 0)`, and each recorded edit replays at
  the start of the text.

Each tracker is a Dafny `class` holding the fields of the source class that
its modelled operations read and write:

- Maps stay `map`s. Pushed-to arrays become `seq` fields that the methods
  reassign.
- The recorder adds three fields. `bufferOrder` lists the buffer keys in
  `Map` insertion order. `selectionLog` is a ghost record of the selections
  logged so far. `recordingNumber` is the ghost `N` of `Recording<N>`.
- Fields that only serve left-out plumbing are not modelled: `disposables`,
  `interval`, `lastClipboardContent` and `lastTypedWord`.
- The clock, the directory listing, the active editor and the report files
  are method parameters.
- The report files' contents come in as a map from path to `logs`, and go
  out the same way.

`build_states`, the `forEach` in `getRecordingFolder`, the `forEach` over
content changes and the flush `for` loop are `for` loops with invariants.
Each is proved against a specification function:

- `ReplayFrom` for `build_states`
- `ChangeEvents` for the recorder's `forEach` over content changes
- `IndividualLog` and `GitLog` for the logger's `forEach` over content changes
- `FlushFiles` and `FlushedBuffers` for the flush loop

The properties the source promises are then lemmas about those functions.

The replay in `timeline_viewer.py` works on one flat string with character
offsets. It ignores INITIAL events, so the baseline is always `""`. A range
it cannot decode falls back to `(0, 0)`, and the edit still runs at offset 0.

## Model

| member | source | states |
|---|---|---|
| TimelineViewer.PyIntOfNatToString | timeline_viewer.py:26 | `int()` reads the decimal spelling of every natural number back as that number |
| TimelineViewer.IsPySpace | timeline_viewer.py:26 | the characters `int()` skips around a field: tab, line feed, vertical tab, form feed, carriage return and space among ASCII, and Python's white space above 127. AsciiPySpaces states its ASCII part |
| TimelineViewer.AsciiPySpaces | timeline_viewer.py:26 | below 128, `int()` skips exactly tab, line feed, vertical tab, form feed, carriage return and space, so the separators U+001C to U+001F are not skipped |
| TimelineViewer.PyStrip | timeline_viewer.py:26 | the field without the white space `int()` skips. StripKeeps and StripDrops give its properties: it keeps every other character and adds none |
| TimelineViewer.StripKeeps | timeline_viewer.py:26 | a character that is not white space survives the stripping `int()` does |
| TimelineViewer.StripDrops | timeline_viewer.py:26 | whatever stripping leaves was already in the field |
| TimelineViewer.PyUnsigned | timeline_viewer.py:26 | the unsigned part of `int()`: digits with single `_` between digits, read in decimal. PyIntOfNatToString states its property |
| TimelineViewer.PyInt | timeline_viewer.py:26 | `int()` on a field: optional surrounding white space (as IsPySpace gives it) and sign, then ASCII digits with single `_` between digits; `None` where Python raises. PyIntOfNatToString, PyIntRejects, PyIntWithoutMinus and ParseRangeRejectsSeparatorPadding state its properties |
| TimelineViewer.PyIntRejects | timeline_viewer.py:26-29 | a field holding a character that is not white space, a digit, a sign or `_` makes `int()` fail |
| TimelineViewer.PyIntWithoutMinus | timeline_viewer.py:25-26 | a field without `-` never decodes to a negative number |
| TimelineViewer.ParseRange | timeline_viewer.py:19-29 | `parse_range` never returns a negative component, because `split("-")` consumes every minus sign |
| TimelineViewer.ParseRangeRoundTrip | timeline_viewer.py:24-26 | `"a-b"` in decimal decodes to `(a, b)` for all naturals `a`, `b` |
| TimelineViewer.ParseRangeWrongFieldCount | timeline_viewer.py:25-29 | a string with zero or several `-` does not unpack into two fields and decodes to `(0, 0)` |
| TimelineViewer.ParseRangeRejectsColon | timeline_viewer.py:25-29 | any string containing `:`, such as the recorder's `"L:C-L:C"`, decodes to `(0, 0)` |
| TimelineViewer.ParseRangeRejectsForeign | timeline_viewer.py:24-29 | a string holding any character that is not white space, a digit, a sign or `_` decodes to `(0, 0)` |
| TimelineViewer.ParseRangeRejectsSeparatorPadding | timeline_viewer.py:24-29 | `parse_range` of `"\x1c5-7"` falls back to `(0, 0)`, because `int()` does not skip U+001C |
| TimelineViewer.Positions | timeline_viewer.py:38-41 | an event acts at non-negative positions, and at `(0, 0)` when it has no `range` |
| TimelineViewer.ApplyEvent | timeline_viewer.py:31-58 | `apply_event` with slices clamped to the state. InsertionSplices, DeletionRemovesSpan, DeletionBackwardsRepeats, OverwriteIsDeleteThenInsert and NonEditKeepsState state its properties |
| TimelineViewer.InsertionSplices | timeline_viewer.py:43-46 | INSERTION keeps the text before and after the clamped start and puts the inserted text between them, so the length grows by its length; a start past the end appends; a missing `inserted` changes nothing |
| TimelineViewer.DeletionRemovesSpan | timeline_viewer.py:47-50 | DELETION of an in-bounds `[start, end)` keeps `[0, start)` and `[end, len)` and shortens by `end - start` |
| TimelineViewer.DeletionBackwardsRepeats | timeline_viewer.py:47-50 | DELETION with `end < start` lengthens the state by `start - end`, since slicing repeats the characters in between |
| TimelineViewer.OverwriteIsDeleteThenInsert | timeline_viewer.py:43-54 | with `start` inside the state, OVERWRITE equals DELETION of the range followed by INSERTION of the same text |
| TimelineViewer.NonEditKeepsState | timeline_viewer.py:55-58 | every kind other than the three edits leaves the state unchanged |
| TimelineViewer.Step | timeline_viewer.py:69-71 | one step of the `build_states` loop: `apply_event` for the three edit kinds, the state unchanged otherwise. StepIsApplyEvent shows the filter changes nothing |
| TimelineViewer.ReplayFrom | timeline_viewer.py:66-73 | the state after folding `Step` over a log. ReplayFromSnoc and ReplayFromAppend state how it composes, and BuildStates is proved against it |
| TimelineViewer.StepIsApplyEvent | timeline_viewer.py:69-71 | the edit-kind filter in `build_states` agrees with applying every event |
| TimelineViewer.ReplayFromSnoc | timeline_viewer.py:66-73 | replaying one more event is one more fold step |
| TimelineViewer.ReplayFromAppend | timeline_viewer.py:66-73 | replaying a concatenated log replays the first part, then the second from where the first ended |
| TimelineViewer.ExtendReplayedPrefixes | timeline_viewer.py:71-73 | appending the next fold step to the snapshots of the first `k` prefixes gives the snapshots of the first `k + 1` |
| TimelineViewer.ReplayedPrefixesStep | timeline_viewer.py:68-73 | when every snapshot is the replay of its prefix, each is the previous one with the event applied for edit kinds and unchanged otherwise |
| TimelineViewer.BuildStates | timeline_viewer.py:60-74 | one more snapshot than there are events; the first is `""`; each next one is the previous with the event applied for edit kinds and unchanged otherwise (INITIAL included); snapshot `i` is the replay of the first `i` events |
| Strings.Split | timeline_viewer.py:25 | `split` on one character yields one more piece than there are separators, and no piece contains the separator |
| Strings.JoinSplit | timeline_viewer.py:25 | joining the pieces of a split with the separator gives the string back |
| Strings.SplitAtFirstSeparator | timeline_viewer.py:25 | splitting `a sep b`, where `a` has no separator, gives `a` followed by the pieces of `b` |
| Strings.SplitKeepsCharacter | timeline_viewer.py:25 | every non-separator character of the string lands in some piece |
| Strings.SplitJoinWith | pogc_extension_minimal/src/tracking/DetailedChangeTracker.ts:168-170 | splitting a `join(",")` of comma-free pieces gives back the pieces |
| Decimal.NatToString | pogc_extension_minimal/src/tracking/DetailedChangeTracker.ts:110 | `${n}` is a non-empty digit string without a leading zero |
| Decimal.DigitsValueOfNatToString | pogc_extension_minimal/src/tracking/DetailedChangeTracker.ts:110 | reading the decimal spelling back gives the number |
| Decimal.NatToStringInjective | pogc_extension_minimal/src/tracking/DetailedChangeTracker.ts:53-54 | distinct numbers have distinct spellings, which RecordingFoldersDistinct uses |
| NodePath.LastIndex | pogc_extension_minimal/src/tracking/DetailedChangeTracker.ts:76 | the index found holds the character and no later index does; `None` when the character is absent |
| NodePath.LastIndexAfter | pogc_extension_minimal/src/tracking/ChangeTracker.ts:27-29 | in `a c b` with no `c` in `b`, the last `c` is the one after `a` |
| NodePath.Join | pogc_extension_minimal/src/tracking/DetailedChangeTracker.ts:78 | `path.join` of a directory and a plain entry name: the two joined by `/`. BasenameOfJoin states its property |
| NodePath.Basename | pogc_extension_minimal/src/tracking/DetailedChangeTracker.ts:76 | `path.basename`: what follows the last `/`. BasenameOfJoin, ReportPathFileName and ReportPathOfFile state its properties |
| NodePath.Dirname | pogc_extension_minimal/src/tracking/ChangeTracker.ts:29 | `path.dirname` (POSIX): trailing `/` skipped, then what precedes the last `/` after the first character; `/` or `.` without one, `//` for a `//` root. DirnameIgnoresTrailingSlash, DirnameExamples and DirnameOfJoin state its properties |
| NodePath.TrimTrailingSlashes | pogc_extension_minimal/src/tracking/ChangeTracker.ts:29 | the longest prefix not ending in `/`; everything it drops is `/` |
| NodePath.DirnameIgnoresTrailingSlash | pogc_extension_minimal/src/tracking/ChangeTracker.ts:29 | for a non-empty path, one more trailing `/` does not change `path.dirname` |
| NodePath.DirnameExamples | pogc_extension_minimal/src/tracking/ChangeTracker.ts:29 | `dirname("a/b/")` is `"a"`, `dirname("/a/")` is `"/"`, `dirname("//a")` is `"//"`, and `"/"`, `""` and `"a"` give `"/"`, `"."` and `"."` |
| NodePath.DirnameOfJoin | pogc_extension_minimal/src/tracking/ChangeTracker.ts:29-30 | the directory name of `dir/name` is `dir` for a non-empty `dir` not ending in `/` and a non-empty slash-free `name` |
| NodePath.Extname | pogc_extension_minimal/src/tracking/ChangeTracker.ts:27 | `path.extname`: the base name from its last `.`, or `""` without one or with only a leading one. ReportPathOfFile states its property |
| NodePath.BasenameWithoutExt | pogc_extension_minimal/src/tracking/ChangeTracker.ts:27 | `path.basename(p, path.extname(p))`. ReportPathOfFile states its property |
| NodePath.BasenameOfJoin | pogc_extension_minimal/src/tracking/DetailedChangeTracker.ts:76-78 | the base name of `join(dir, name)` is `name` when `name` has no `/` |
| DetailedChangeTracking.FormatPositionRoundTrip | pogc_extension_minimal/src/tracking/DetailedChangeTracker.ts:110 | `line:character` decodes back to the position and contains neither `-` nor `,` |
| DetailedChangeTracking.KindName | pogc_extension_minimal/src/tracking/DetailedChangeTracker.ts:9 | the `event` string of each kind. KindNameInjective states its property |
| DetailedChangeTracking.KindNameInjective | pogc_extension_minimal/src/tracking/DetailedChangeTracker.ts:9 | no two kinds share an `event` string |
| DetailedChangeTracking.FormatPosition | pogc_extension_minimal/src/tracking/DetailedChangeTracker.ts:110 | one `line:character` half of a range in decimal. FormatPositionRoundTrip states its properties |
| DetailedChangeTracking.FormatRange | pogc_extension_minimal/src/tracking/DetailedChangeTracker.ts:109-111 | `formatRange`: `sl:sc-el:ec` in decimal. FormatRangeRoundTrip and FormatRangeHasColon state its properties |
| DetailedChangeTracking.FormatRangeRoundTrip | pogc_extension_minimal/src/tracking/DetailedChangeTracker.ts:109-111 | the four numbers decode back from `formatRange`'s output |
| DetailedChangeTracking.DecodePosition | pogc_extension_minimal/src/tracking/DetailedChangeTracker.ts:109-111 | the inverse of `line:character`. FormatPositionRoundTrip states the round trip |
| DetailedChangeTracking.DecodeRange | pogc_extension_minimal/src/tracking/DetailedChangeTracker.ts:109-111 | the inverse of `formatRange`. FormatRangeRoundTrip states the round trip |
| DetailedChangeTracking.FormatRangeHasColon | pogc_extension_minimal/src/tracking/DetailedChangeTracker.ts:109-111 | every formatted range contains `:` and no `,` |
| DetailedChangeTracking.DecodeNatToString | pogc_extension_minimal/src/tracking/DetailedChangeTracker.ts:110 | a decimal field decodes to the number it spells |
| DetailedChangeTracking.SplitLines | pogc_extension_minimal/src/tracking/DetailedChangeTracker.ts:93 | `split(/\r?\n/)` yields at least one line |
| DetailedChangeTracking.SplitLinesCount | pogc_extension_minimal/src/tracking/DetailedChangeTracker.ts:93 | there is one line per `\n`, plus one |
| DetailedChangeTracking.SplitLinesNoNewline | pogc_extension_minimal/src/tracking/DetailedChangeTracker.ts:93 | no line contains `\n` |
| DetailedChangeTracking.SplitLinesJoinCrLf | pogc_extension_minimal/src/tracking/DetailedChangeTracker.ts:93 | the lines joined with `\n` are the text with every CRLF turned into LF |
| DetailedChangeTracking.SplitLinesJoin | pogc_extension_minimal/src/tracking/DetailedChangeTracker.ts:93 | without carriage returns, the lines join back to the text |
| DetailedChangeTracking.CrLfIdentity | pogc_extension_minimal/src/tracking/DetailedChangeTracker.ts:93 | a text without carriage returns has no CRLF to replace |
| DetailedChangeTracking.InitialContent | pogc_extension_minimal/src/tracking/DetailedChangeTracker.ts:93-98 | one entry per line; entry `i` has `line == i`, the `i`-th line as `content`, and range `"i:0-i:<length>"` |
| DetailedChangeTracking.InitialContentRoundTrip | pogc_extension_minimal/src/tracking/DetailedChangeTracker.ts:93-103 | the INITIAL contents, joined with `\n`, give back a text without carriage returns |
| DetailedChangeTracking.Contents | pogc_extension_minimal/src/tracking/DetailedChangeTracker.ts:94-98 | the `content` fields of a snapshot, one per entry and in order |
| DetailedChangeTracking.InitialEvent | pogc_extension_minimal/src/tracking/DetailedChangeTracker.ts:92-103 | the INITIAL event: the time stamp and `InitialContent` of the text, no other field. InitialContent and InitialContentRoundTrip state its properties |
| DetailedChangeTracking.ChangeEvent | pogc_extension_minimal/src/tracking/DetailedChangeTracker.ts:124-152 | DELETION iff `rangeLength > 0` and the text is empty; OVERWRITE iff `rangeLength > 0` and the text is non-empty; INSERTION iff `rangeLength == 0`; the range is formatted; `inserted` and `deleted` are present exactly for the kinds that carry them |
| DetailedChangeTracking.ChangeEvents | pogc_extension_minimal/src/tracking/DetailedChangeTracker.ts:122-157 | exactly one event per content change, in change order |
| DetailedChangeTracking.ChangeEventsSnoc | pogc_extension_minimal/src/tracking/DetailedChangeTracker.ts:122-157 | the events of one more change are the previous events plus that change's event |
| DetailedChangeTracking.SelectionString | pogc_extension_minimal/src/tracking/DetailedChangeTracker.ts:168-170 | the selections as formatted ranges joined by `,`. SelectionStringRoundTrip states its property |
| DetailedChangeTracking.SelectionStringRoundTrip | pogc_extension_minimal/src/tracking/DetailedChangeTracker.ts:168-170 | the comma-joined selection string splits back into one decodable range per selection |
| DetailedChangeTracking.CommandKind | pogc_extension_minimal/src/tracking/DetailedChangeTracker.ts:196-203 | only UNDO, REDO or CUT is ever logged: UNDO exactly for `undo`, REDO exactly for `redo`, CUT exactly for `editor.action.clipboardCutAction` |
| DetailedChangeTracking.IsRecordingEntry | pogc_extension_minimal/src/tracking/DetailedChangeTracker.ts:45 | a directory named `Recording` followed by one or more digits, the entries NextRecordingNumber takes into account |
| DetailedChangeTracking.NextRecordingNumber | pogc_extension_minimal/src/tracking/DetailedChangeTracker.ts:41-55 | at least 1; greater than every existing `Recording<digits>` directory; either 1 or one more than an existing one |
| DetailedChangeTracking.RecordingFolder | pogc_extension_minimal/src/tracking/DetailedChangeTracker.ts:55-57 | `<base>/Recording<N>`, the folder the constructor selects |
| DetailedChangeTracking.RecordingFoldersDistinct | pogc_extension_minimal/src/tracking/DetailedChangeTracker.ts:53-55 | distinct recording numbers give distinct `Recording<N>` folders |
| DetailedChangeTracking.NewRecordingFolderIsFresh | pogc_extension_minimal/src/tracking/DetailedChangeTracker.ts:41-55 | a number above every listed recording number names none of the listed recording folders, so the constructor never reuses one |
| DetailedChangeTracking.ReportPathIn | pogc_extension_minimal/src/tracking/DetailedChangeTracker.ts:75-78 | `<folder>/<basename>.json`. ReportPathFileName states its properties |
| DetailedChangeTracking.ReportPathFileName | pogc_extension_minimal/src/tracking/DetailedChangeTracker.ts:75-78 | the report file's name is the document's base name plus `.json`, and the path is never empty |
| DetailedChangeTracking.FlushFiles | pogc_extension_minimal/src/tracking/DetailedChangeTracker.ts:216-242 | the report files after flushing the buffers of some keys in order. FlushFilesSnoc, FlushAppendsPending and FlushWithDistinctPaths state its properties, and Flush is proved against it |
| DetailedChangeTracking.FlushFilesSnoc | pogc_extension_minimal/src/tracking/DetailedChangeTracker.ts:216-234 | flushing one more key appends its buffer to its report file when it is flushable |
| DetailedChangeTracking.PendingFor | pogc_extension_minimal/src/tracking/DetailedChangeTracker.ts:216-234 | the flushable buffers bound for one report path, concatenated in key order. FlushAppendsPending and PendingIsOwnBuffer state its properties |
| DetailedChangeTracking.FlushAppendsPending | pogc_extension_minimal/src/tracking/DetailedChangeTracker.ts:216-234 | after a flush, each report file holds its old logs followed by every flushable buffer bound for it, in buffer order; a file appears exactly when it existed or got some buffer |
| DetailedChangeTracking.FlushWithDistinctPaths | pogc_extension_minimal/src/tracking/DetailedChangeTracker.ts:216-234 | when no other flushed document shares its report path, a document's report holds exactly its old logs plus its buffer |
| DetailedChangeTracking.PendingIsOwnBuffer | pogc_extension_minimal/src/tracking/DetailedChangeTracker.ts:216-234 | the buffers bound for a path that only one document uses are that document's buffer |
| DetailedChangeTracking.FlushedBuffers | pogc_extension_minimal/src/tracking/DetailedChangeTracker.ts:216-242 | flushing removes no buffer: the buffered documents stay the same |
| DetailedChangeTracking.FlushedNothing | pogc_extension_minimal/src/tracking/DetailedChangeTracker.ts:216 | flushing no keys leaves the buffers as they are |
| DetailedChangeTracking.FlushedBuffersSnoc | pogc_extension_minimal/src/tracking/DetailedChangeTracker.ts:217-242 | flushing one more key empties its buffer exactly when it is flushable |
| DetailedChangeTracking.FlushStep | pogc_extension_minimal/src/tracking/DetailedChangeTracker.ts:216-242 | in a flush over distinct keys, the next key's buffer is still untouched, and both the buffers and the files advance by that key's step |
| DetailedChangeTracking.FlushOfAllKeys | pogc_extension_minimal/src/tracking/DetailedChangeTracker.ts:216-242 | after a full flush, a buffer is empty iff it was flushable or already empty; empty buffers and buffers without a path are kept |
| DetailedChangeTracking.NoAdjacentRepeatsAt | pogc_extension_minimal/src/tracking/DetailedChangeTracker.ts:171-174 | in a de-duplicated selection log, any two neighbours differ |
| DetailedChangeTracking.AppendKeepsNoRepeats | pogc_extension_minimal/src/tracking/DetailedChangeTracker.ts:171-175 | appending a selection different from the last keeps neighbouring selections distinct |
| DetailedChangeTracking.AddBufferValid | pogc_extension_minimal/src/tracking/DetailedChangeTracker.ts:87-90 | registering a new document keeps one listing per buffered key and a path for exactly the buffered keys |
| DetailedChangeTracking.UpdateBufferValid | pogc_extension_minimal/src/tracking/DetailedChangeTracker.ts:155 | replacing an existing buffer's contents keeps the bookkeeping and the set of keys |
| DetailedChangeTracking.SameKeysBuffersValid | pogc_extension_minimal/src/tracking/DetailedChangeTracker.ts:242 | the bookkeeping depends only on which documents have buffers |
| DetailedChangeTracking.AddSelectionValid | pogc_extension_minimal/src/tracking/DetailedChangeTracker.ts:172-175 | storing a selection that differs from the last keeps every selection log ending in the stored selection and free of back-to-back repeats |
| DetailedChangeTracking.DetailedChangeTracker.constructor | pogc_extension_minimal/src/tracking/DetailedChangeTracker.ts:33-66 | empty maps; the recording folder is `<base>/Recording<N>`, where `N` is greater than every existing recording number and is either 1 or one more than an existing one |
| DetailedChangeTracking.DetailedChangeTracker.GetReportFilePath | pogc_extension_minimal/src/tracking/DetailedChangeTracker.ts:69-81 | a cached key returns its path and changes nothing; otherwise the path is `<recording folder>/<basename>.json` and is cached |
| DetailedChangeTracking.DetailedChangeTracker.EnsureBuffer | pogc_extension_minimal/src/tracking/DetailedChangeTracker.ts:85-106 | a repeat call changes nothing; a first call adds a buffer holding exactly one INITIAL event of the text, lists the key last in `Map` order, and caches the report path |
| DetailedChangeTracking.DetailedChangeTracker.OnDidChangeTextDocument | pogc_extension_minimal/src/tracking/DetailedChangeTracker.ts:115-158 | the document's buffer becomes its ensured buffer followed by one event per content change, in order; no other buffer changes |
| DetailedChangeTracking.DetailedChangeTracker.OnDidChangeTextEditorSelection | pogc_extension_minimal/src/tracking/DetailedChangeTracker.ts:162-183 | a selection string equal to the stored one appends nothing; otherwise it is stored and appended as one SELECTION event; the logged selections never repeat back-to-back |
| DetailedChangeTracking.DetailedChangeTracker.OnDidExecuteCommand | pogc_extension_minimal/src/tracking/DetailedChangeTracker.ts:187-209 | nothing without an active editor; otherwise, after ensuring the buffer, one UNDO, REDO or CUT event for those commands and none for others |
| DetailedChangeTracking.DetailedChangeTracker.Flush | pogc_extension_minimal/src/tracking/DetailedChangeTracker.ts:215-244 | in `Map` order, each non-empty buffer with a non-empty path is appended to its report file's logs and emptied; every other buffer is kept |
| ChangeTracking.TrimStartEmpty | pogc_extension_minimal/src/tracking/ChangeTracker.ts:80 | trimming the front leaves nothing iff every character is white space, and otherwise leaves a non-space first character |
| ChangeTracking.TrimEndEmpty | pogc_extension_minimal/src/tracking/ChangeTracker.ts:80 | trimming the end leaves nothing iff every character is white space |
| ChangeTracking.JsTrim | pogc_extension_minimal/src/tracking/ChangeTracker.ts:80 | `trim()`: the string without leading and trailing ECMAScript white space; the classification chain also uses it for the comparison at line 88. TrimEmptyIff states its property |
| ChangeTracking.TrimEmptyIff | pogc_extension_minimal/src/tracking/ChangeTracker.ts:80 | `trim()` gives `""` exactly for strings made only of ECMAScript white space and line terminators |
| ChangeTracking.Lower | pogc_extension_minimal/src/tracking/ChangeTracker.ts:64 | lower-casing keeps the length |
| ChangeTracking.SameLowerIsCaseChange | pogc_extension_minimal/src/tracking/ChangeTracker.ts:64 | two different characters with equal lower case are one letter in upper and in lower case |
| ChangeTracking.IsCaseChange | pogc_extension_minimal/src/tracking/ChangeTracker.ts:64 | a one-character change that only differs in letter case. SameLowerIsCaseChange and ClassifyReplacement state its properties |
| ChangeTracking.Classify | pogc_extension_minimal/src/tracking/ChangeTracker.ts:59-90 | a git record iff the new text is longer than 20, and then it is a "Large Paste" of that text; an individual record keeps the change's time stamp and old text |
| ChangeTracking.ClassifyDeletion | pogc_extension_minimal/src/tracking/ChangeTracker.ts:67-86 | removing text: nothing when nothing was there; "(selected & deleted)" for a range longer than one; otherwise "(whitespace deleted)" or "(deleted)" by whether the text was all white space |
| ChangeTracking.ClassifyReplacement | pogc_extension_minimal/src/tracking/ChangeTracker.ts:63-78 | short replacements: a one-letter case switch first, then "(selected & replaced with ...)" for a range longer than one, then "(backspaced & replaced with ...)"; the same text over a short range leaves nothing |
| ChangeTracking.ClassifyInsertion | pogc_extension_minimal/src/tracking/ChangeTracker.ts:87-90 | a short pure insertion is recorded as typed unless it is all white space, in which case nothing is recorded |
| ChangeTracking.RecordedAsTypedIff | pogc_extension_minimal/src/tracking/ChangeTracker.ts:59-90 | a change is recorded word for word iff it is a pure insertion of at most 20 characters that is not all white space |
| ChangeTracking.NoRecordIff | pogc_extension_minimal/src/tracking/ChangeTracker.ts:59-90 | a change leaves no record iff it is at most 20 long and either inserts only white space into nothing or rewrites a range of at most one with the same text |
| ChangeTracking.DeletedLabelsNeedShortRange | pogc_extension_minimal/src/tracking/ChangeTracker.ts:67-86 | "(deleted)" and "(whitespace deleted)" come only from removals over a range of at most one |
| ChangeTracking.IndividualLog | pogc_extension_minimal/src/tracking/ChangeTracker.ts:54-91 | every recorded individual change has a non-empty old text or new text |
| ChangeTracking.GitLog | pogc_extension_minimal/src/tracking/ChangeTracker.ts:54-62 | every git-style change is a "Large Paste" longer than 20 characters |
| ChangeTracking.LogsPartitionChanges | pogc_extension_minimal/src/tracking/ChangeTracker.ts:54-91 | each change lands in exactly one of the two lists or is dropped |
| ChangeTracking.GitLogCountsLargeChanges | pogc_extension_minimal/src/tracking/ChangeTracker.ts:59-62 | the git list has one entry per change longer than 20 characters |
| ChangeTracking.LogsSnoc | pogc_extension_minimal/src/tracking/ChangeTracker.ts:54-91 | one more change extends each list by at most its own record |
| ChangeTracking.StoredCount | pogc_extension_minimal/src/tracking/ChangeTracker.ts:37-39 | a stored count is adopted exactly when it is present and truthy, that is non-zero, and then with its own value |
| ChangeTracking.SessionCountAfterEdit | pogc_extension_minimal/src/tracking/ChangeTracker.ts:32-52 | the counter after an edit: the stored count adopted when truthy, plus one for a new session. SessionCountStep and SecondEditUndoesNewSession state its properties |
| ChangeTracking.SessionCountStep | pogc_extension_minimal/src/tracking/ChangeTracker.ts:45-50 | the counter goes up by exactly one iff nothing is unsaved and more than 30000 ms have passed; otherwise it stays |
| ChangeTracking.SecondEditUndoesNewSession | pogc_extension_minimal/src/tracking/ChangeTracker.ts:32-52 | the first edit after a gap starts session `k + 1`, but the second edit re-reads the stored `k`; saving then keeps the stored sessions as they were |
| ChangeTracking.IntendedSessionCountAfterEdit | pogc_extension_minimal/src/tracking/ChangeTracker.ts:37-50 | the counter with the stored count adopted only by the edit that opens a run. IntendedSessionKeepsRun states its property |
| ChangeTracking.IntendedSessionKeepsRun | pogc_extension_minimal/src/tracking/ChangeTracker.ts:37-50 | with the intended counter, a run opened after a gap keeps session `k + 1` through its later edits, and saving stores its changes there |
| ChangeTracking.SavedReport | pogc_extension_minimal/src/tracking/ChangeTracker.ts:127-138 | the count becomes `n`; every stored session is kept unchanged; session `n` is added with the run's changes only when it was absent |
| ChangeTracking.SaveIsIdempotent | pogc_extension_minimal/src/tracking/ChangeTracker.ts:131-138 | saving again under the same session number changes nothing further |
| ChangeTracking.ReportPathFor | pogc_extension_minimal/src/tracking/ChangeTracker.ts:27-30 | `<dirname>/<basename without extension>_report.json`. ReportPathOfFile states its property |
| ChangeTracking.ReportPathOfFile | pogc_extension_minimal/src/tracking/ChangeTracker.ts:27-30 | for `<dir>/<name>.<ext>`, with `dir` not ending in `/`, the report path is `<dir>/<name>_report.json` |
| ChangeTracking.SplitAtLastSlash | pogc_extension_minimal/src/tracking/ChangeTracker.ts:27-29 | `dir/base` splits back into `dirname` `dir` and `basename` `base` |
| ChangeTracking.StripExtension | pogc_extension_minimal/src/tracking/ChangeTracker.ts:27 | for the base name `<name>.<ext>` with a non-empty `name` and a dot-free `ext`, `path.basename(p, path.extname(p))` is `name` |
| ChangeTracking.ChangeTracker.constructor | pogc_extension_minimal/src/tracking/ChangeTracker.ts:7-13 | empty lists, no file path, one session, last edit at 0, nothing unsaved |
| ChangeTracking.ChangeTracker.OnDidChangeTextDocument | pogc_extension_minimal/src/tracking/ChangeTracker.ts:22-53 | nothing without an active editor; otherwise the report path is set, the session counter takes its next value, the edit time is recorded, the run is marked unsaved and the changes are classified into the lists |
| ChangeTracking.ChangeTracker.RecordChanges | pogc_extension_minimal/src/tracking/ChangeTracker.ts:54-91 | the individual and git-style lists grow by exactly the records the chain assigns to the changes, in order |
| ChangeTracking.ChangeTracker.SaveToJson | pogc_extension_minimal/src/tracking/ChangeTracker.ts:113-145 | no file path: nothing is written and nothing changes; otherwise the saved report is written, both lists are emptied and the run is marked saved |
| RecorderReplay.ToViewerRecord | timeline_viewer.py:36-44 | the viewer reads the recorded event's kind name, range and inserted text |
| RecorderReplay.ToViewerRecords | timeline_viewer.py:60-68 | one viewer record per recorded event, in order |
| RecorderReplay.RecorderRangeNotDecoded | timeline_viewer.py:19-29 | every range the recorder formats decodes to `(0, 0)` in the viewer |
| RecorderReplay.RecordedChangeReplaysAtStart | timeline_viewer.py:31-54 | a recorded content change replays at offset 0: a deletion keeps the text, an insertion or overwrite puts its text in front |
| RecorderReplay.ReplayedPrefix | timeline_viewer.py:43-54 | the text a recorded change puts in front of the replayed state: nothing for a deletion, its text otherwise. RecordedChangeReplaysAtStart states its property |
| RecorderReplay.OtherEventsReplayAsNothing | timeline_viewer.py:55-58 | recorded INITIAL, SELECTION, UNDO, REDO and CUT events leave the replayed text unchanged, so the initial content is never shown |
| RecorderReplay.ReplayOfChangeEvents | timeline_viewer.py:60-74 | the viewer's replay of one handler call's events stacks each change's text in front of the previous text |
| RecorderReplay.ReplayedChanges | timeline_viewer.py:60-74 | the replayed text after a batch of recorded changes, each one's text in front of the previous. ReplayOfChangeEvents states its property |

## Findings

| source | as written | input that shows it | evidently intended | confidence | as-written member | corrected member |
|---|---|---|---|---|---|---|
| pogc_extension_minimal/src/tracking/ChangeTracker.ts:37-50 | every edit re-adopts the stored `numSessions`, so the second edit of a run undoes the `+ 1` of the first; `saveToJson` then finds session `k` stored (line 131) and drops the run's changes | a report with `numSessions` 3 and session 3 stored; a first edit more than 30 s after the last one, then a second edit; then the save | the stored count is adopted only by the edit that opens a run, which then keeps session 4 and saves its changes there | not executed; high | ChangeTracking.SecondEditUndoesNewSession | ChangeTracking.IntendedSessionKeepsRun |

`ChangeTracking.ChangeTracker` itself keeps the code as written, so that its
contracts describe what the extension does.

## Left out

- I/O and plumbing are left out: file reads and writes, `fs.existsSync` and `mkdirSync`, JSON parsing and printing, `console` output, event subscriptions, `Disposable`s, `setInterval` timers and the `typeof onDidExecuteCommand` probe. What they produce or consume (directory listings, report contents, the clock, the active editor) is a method parameter or result.
- The clipboard poller at `ChangeTracker.ts:96-110` is left out. It is asynchronous, timer-driven, and reads the system clipboard.
- `dispose` in both trackers is left out beyond `SaveToJson`, which `ChangeTracker.dispose` calls first. The rest only disposes subscriptions and clears timers.
- The viewer's `load_events`, its PyQt window and its command-line entry are left out. They are display and file I/O.
- The viewer's `print` of parse errors is left out. Only the `(0, 0)` fallback is modelled.
- Report files are modelled as a map from path to their `logs` list. A missing file, an unparsable one and a JSON object whose `logs` is not an array all start from an empty list, as the source's fallbacks make them. The other JSON fields of a report, and the JSON layout, are not modelled.
- Report files that hold valid JSON other than an object are left out. For `null`, a number or a string, `reportData.logs.push` throws out of the flush callback, so that buffer is not emptied and the later buffers are not flushed in that round. For a top-level array, the file is written back without the new events. In `ChangeTracker.saveToJson` (ChangeTracking.ChangeTracker.SaveToJson), a report that parses to `null` makes the `sessions` test at `ChangeTracker.ts:127` throw outside the `try`. So do a number or string report, and a truthy primitive `sessions`, whose property assignment at line 128 or 132 throws in the compiled strict-mode code. In all these cases nothing is written and the change lists, the unsaved flag and the file stay as they were, while the model always writes a report and clears the lists. A top-level array report is written back as the bare array, losing the stored and the new sessions.
- Failed writes are left out: a write error still empties the buffer in the source, which the model matches, but the lost file update is not represented.
- The flush's intermediate states between two buffers are left out; the model gives the state after the whole loop. Nothing else runs during the flush, because JavaScript is single-threaded.
- A failed `mkdirSync` of the recording folder is left out. The folder path is returned regardless, as in the model.
- Each handler takes one `now` in the model. The source reads the clock twice for a new document: once in `ensureBuffer`, once in the handler.
- `document.getText(range)` is not computed from a document. The text it returned when the handler ran is an input field (`textInRange`, `before`).
- String lengths are counted in characters, not in JavaScript's UTF-16 code units. They differ only outside the Basic Multilingual Plane.
- ChangeTracking.Lower: `toLowerCase` is modelled on ASCII letters only, so capitalization changes of other scripts are not recognised as such.
- TimelineViewer.PyInt: `int()` is modelled with ASCII decimal digits; the other Unicode decimal digits Python accepts are rejected by the model.
- TimelineViewer.PyInt: there is no digit-count limit. Python 3.11 and later refuse a field of more than 4300 digits, so `parse_range` returns `(0, 0)` there, while PyIntOfNatToString and ParseRangeRoundTrip hold for every natural.
- DetailedChangeTracking.FormatRange: template literals render numbers from 1e21 upward in exponent notation; the model renders every natural in plain decimal, so FormatRangeRoundTrip holds for all of them.
- A non-string `range` in the viewer falls back to `(0, 0)` in the source, because the failing `split` is inside the `try`; the model only takes string ranges (or none).
- A non-string or `null` `inserted` is left out. The source raises outside any `try` when it concatenates it.
- ChangeTracking.StoredCount: a stored `numSessions` that is not an integer (a string, a fraction, a boolean) is left out; the model takes it as an integer or absent.
- DetailedChangeTracking.NextRecordingNumber: `parseInt` beyond 2^53 loses precision in JavaScript; the model keeps the exact number.
- NodePath.Join: `path.join` is plain `dir + "/" + name` here. Normalisation (`..`, `.`, repeated or trailing slashes, an empty part) is left out.
- NodePath.Basename: only POSIX `/` separators are recognised; a Windows `\` path in `document.fileName` is not split.
- NodePath.Basename and NodePath.Extname: trailing slashes and names made only of dots (such as `..`) are not treated as Node treats them.
- `KeystrokeTracker`, `PasteDetector`, `AiChecker`, `CommentValidator`, `InsertComments`, `ReportGenerator`, the extension activation files, the compiled `out/` copies and the network code are not part of this model.
