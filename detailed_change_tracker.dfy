/** The editor-side structured edit recorder of
    `pogc_extension_minimal/src/tracking/DetailedChangeTracker.ts`: it keeps one
    log buffer per open document (keyed by the document URI), starts each
    buffer with an INITIAL snapshot of the document, appends one event per
    content change, selection change or undo/redo/cut command, and
    periodically appends every non-empty buffer to the document's report file
    in the current `Recording<N>` folder and empties it. */
module DetailedChangeTracking {
  import opened Wrappers
  import opened Decimal
  import opened Strings
  import NodePath

  // ---------------------------------------------------------------------------
  // Inputs from the editor, as plain records
  // ---------------------------------------------------------------------------

  /** A zero-based line/character position. */
  datatype Position = Position(line: nat, character: nat)

  datatype Range = Range(start: Position, end: Position)

  /** One entry of a document change event: the replaced range, its length,
      the new text, and what `document.getText(range)` returned when the
      handler ran. */
  datatype ContentChange = ContentChange(range: Range, rangeLength: nat, text: string, textInRange: string)

  /** An open document: its URI (the buffer key), its file name and its text. */
  datatype Document = Document(uri: string, fileName: string, text: string)

  /** One entry of the storage directory listing. */
  datatype DirEntry = DirEntry(name: string, isDirectory: bool)

  // ---------------------------------------------------------------------------
  // Log events
  // ---------------------------------------------------------------------------

  datatype EventKind = Initial | Insertion | Deletion | Overwrite | Selection | Undo | Redo | Cut

  /** The `event` string written to the report for each kind. */
  function KindName(k: EventKind): string {
    match k
    case Initial => "INITIAL"
    case Insertion => "INSERTION"
    case Deletion => "DELETION"
    case Overwrite => "OVERWRITE"
    case Selection => "SELECTION"
    case Undo => "UNDO"
    case Redo => "REDO"
    case Cut => "CUT"
  }

  /** Each kind is written under its own name, so a reader of the report can
      tell the kinds apart. */
  lemma KindNameInjective(a: EventKind, b: EventKind)
    requires KindName(a) == KindName(b)
    ensures a == b
  {
  }

  /** One line of an INITIAL snapshot. */
  datatype InitialLine = InitialLine(line: nat, range: string, content: string)

  /** A structured log event; a `None` field is one the event does not carry. */
  datatype LogEvent = LogEvent(
    timestamp: string,
    event: EventKind,
    range: Option<string>,
    inserted: Option<string>,
    deleted: Option<string>,
    selection: Option<string>,
    initialContent: Option<seq<InitialLine>>)

  // ---------------------------------------------------------------------------
  // formatRange and its decoder
  // ---------------------------------------------------------------------------

  function FormatPosition(p: Position): string {
    NatToString(p.line) + ":" + NatToString(p.character)
  }

  /** `formatRange`: `"startLine:startCol-endLine:endCol"` in decimal. */
  function FormatRange(r: Range): string {
    FormatPosition(r.start) + "-" + FormatPosition(r.end)
  }

  /** A field of one or more decimal digits. */
  function DecodeNat(s: string): Option<nat> {
    if |s| > 0 && AllDigits(s) then Some(DigitsValue(s)) else None
  }

  function DecodePosition(s: string): Option<Position> {
    var parts := Split(s, ':');
    if |parts| != 2 then None
    else
      match (DecodeNat(parts[0]), DecodeNat(parts[1]))
      case (Some(line), Some(character)) => Some(Position(line, character))
      case _ => None
  }

  /** The decoder of the `"L:C-L:C"` format: exactly two positions separated
      by `-`, each exactly two digit fields separated by `:`. */
  function DecodeRange(s: string): Option<Range> {
    var parts := Split(s, '-');
    if |parts| != 2 then None
    else
      match (DecodePosition(parts[0]), DecodePosition(parts[1]))
      case (Some(start), Some(end)) => Some(Range(start, end))
      case _ => None
  }

  lemma DecodeNatToString(n: nat)
    ensures DecodeNat(NatToString(n)) == Some(n)
  {
    DigitsValueOfNatToString(n);
  }

  lemma FormatPositionRoundTrip(p: Position)
    ensures DecodePosition(FormatPosition(p)) == Some(p)
    ensures '-' !in FormatPosition(p) && ',' !in FormatPosition(p)
  {
    var a, b := NatToString(p.line), NatToString(p.character);
    assert ':' !in a && ':' !in b;
    assert FormatPosition(p) == a + [':'] + b;
    SplitAtFirstSeparator(a, ':', b);
    SplitWithoutSeparator(b, ':');
    DecodeNatToString(p.line);
    DecodeNatToString(p.character);
    assert forall k :: 0 <= k < |FormatPosition(p)| ==> IsDigit(FormatPosition(p)[k]) || FormatPosition(p)[k] == ':';
  }

  /** The four numbers can be read back from `formatRange`'s output. */
  lemma FormatRangeRoundTrip(r: Range)
    ensures DecodeRange(FormatRange(r)) == Some(r)
  {
    var a, b := FormatPosition(r.start), FormatPosition(r.end);
    FormatPositionRoundTrip(r.start);
    FormatPositionRoundTrip(r.end);
    assert FormatRange(r) == a + ['-'] + b;
    SplitAtFirstSeparator(a, '-', b);
    SplitWithoutSeparator(b, '-');
  }

  /** Every formatted range contains a colon and no comma. */
  lemma FormatRangeHasColon(r: Range)
    ensures ':' in FormatRange(r)
    ensures ',' !in FormatRange(r)
  {
    FormatPositionRoundTrip(r.start);
    FormatPositionRoundTrip(r.end);
    assert FormatRange(r)[|NatToString(r.start.line)|] == ':';
  }

  // ---------------------------------------------------------------------------
  // The INITIAL snapshot
  // ---------------------------------------------------------------------------

  /** `text.split(/\r?\n/)`: the pieces between `"\n"` or `"\r\n"`
      separators; a lone `"\r"` is not a separator. */
  function SplitLines(s: string): (lines: seq<string>)
    ensures |lines| >= 1
    decreases |s|
  {
    if s == [] then [""]
    else if s[0] == '\n' then [""] + SplitLines(s[1..])
    else if |s| >= 2 && s[0] == '\r' && s[1] == '\n' then [""] + SplitLines(s[2..])
    else
      var rest := SplitLines(s[1..]);
      [[s[0]] + rest[0]] + rest[1..]
  }

  /** `s` with every `"\r\n"` turned into `"\n"`. */
  function CrLfToLf(s: string): string
    decreases |s|
  {
    if s == [] then []
    else if |s| >= 2 && s[0] == '\r' && s[1] == '\n' then "\n" + CrLfToLf(s[2..])
    else [s[0]] + CrLfToLf(s[1..])
  }

  /** There is one line per `"\n"`, plus one. */
  lemma {:induction false} SplitLinesCount(s: string)
    ensures |SplitLines(s)| == 1 + Count(s, '\n')
    decreases |s|
  {
    if s == [] {
    } else if s[0] == '\n' {
      SplitLinesCount(s[1..]);
    } else if |s| >= 2 && s[0] == '\r' && s[1] == '\n' {
      SplitLinesCount(s[2..]);
      assert s[1..][1..] == s[2..];
    } else {
      SplitLinesCount(s[1..]);
    }
  }

  /** No line contains `"\n"`. */
  lemma {:induction false} SplitLinesNoNewline(s: string)
    ensures forall i :: 0 <= i < |SplitLines(s)| ==> '\n' !in SplitLines(s)[i]
    decreases |s|
  {
    if s == [] {
    } else if s[0] == '\n' {
      SplitLinesNoNewline(s[1..]);
      assert SplitLines(s)[1..] == SplitLines(s[1..]);
    } else if |s| >= 2 && s[0] == '\r' && s[1] == '\n' {
      SplitLinesNoNewline(s[2..]);
      assert SplitLines(s)[1..] == SplitLines(s[2..]);
    } else {
      var rest := SplitLines(s[1..]);
      SplitLinesNoNewline(s[1..]);
      var lines := SplitLines(s);
      forall i | 0 <= i < |lines| ensures '\n' !in lines[i] {
        if i > 0 { assert lines[i] == rest[i]; }
      }
    }
  }

  /** Joining the lines with `"\n"` gives the text with CRLF turned into LF. */
  lemma {:induction false} SplitLinesJoinCrLf(s: string)
    ensures JoinWith(SplitLines(s), '\n') == CrLfToLf(s)
    decreases |s|
  {
    if s == [] {
    } else if s[0] == '\n' {
      SplitLinesJoinCrLf(s[1..]);
      assert SplitLines(s)[1..] == SplitLines(s[1..]);
    } else if |s| >= 2 && s[0] == '\r' && s[1] == '\n' {
      SplitLinesJoinCrLf(s[2..]);
      assert SplitLines(s)[1..] == SplitLines(s[2..]);
    } else {
      var rest := SplitLines(s[1..]);
      SplitLinesJoinCrLf(s[1..]);
      var lines := SplitLines(s);
      assert lines[1..] == rest[1..];
      if |rest| > 1 {
        assert JoinWith(rest, '\n') == rest[0] + ['\n'] + JoinWith(rest[1..], '\n');
      }
    }
  }

  /** Without carriage returns, the lines join back to the document text. */
  lemma {:induction false} SplitLinesJoin(s: string)
    requires '\r' !in s
    ensures JoinWith(SplitLines(s), '\n') == s
    decreases |s|
  {
    SplitLinesJoinCrLf(s);
    CrLfIdentity(s);
  }

  lemma {:induction false} CrLfIdentity(s: string)
    requires '\r' !in s
    ensures CrLfToLf(s) == s
    decreases |s|
  {
    if s != [] {
      assert '\r' !in s[1..];
      CrLfIdentity(s[1..]);
    }
  }

  /** The `initialContent` of the INITIAL event: one entry per line of the
      document text, numbered from 0, holding the line and the range that
      spans it. */
  function InitialContent(text: string): (content: seq<InitialLine>)
    ensures |content| == |SplitLines(text)|
    ensures forall i :: 0 <= i < |content| ==>
      && content[i].line == i
      && content[i].content == SplitLines(text)[i]
      && content[i].range == FormatRange(Range(Position(i, 0), Position(i, |content[i].content|)))
  {
    var lines := SplitLines(text);
    seq(|lines|, idx requires 0 <= idx < |lines| =>
      InitialLine(idx, NatToString(idx) + ":0-" + NatToString(idx) + ":" + NatToString(|lines[idx]|), lines[idx]))
  }

  /** The contents of the INITIAL entries, in order, are the lines of the
      text; joined with `"\n"` they give the text back when it has no
      carriage return. */
  lemma InitialContentRoundTrip(text: string)
    requires '\r' !in text
    ensures JoinWith(Contents(InitialContent(text)), '\n') == text
  {
    assert Contents(InitialContent(text)) == SplitLines(text);
    SplitLinesJoin(text);
  }

  /** The `content` fields of a snapshot, in order. */
  function Contents(entries: seq<InitialLine>): (lines: seq<string>)
    ensures |lines| == |entries|
    ensures forall i :: 0 <= i < |entries| ==> lines[i] == entries[i].content
  {
    seq(|entries|, i requires 0 <= i < |entries| => entries[i].content)
  }

  function InitialEvent(timestamp: string, text: string): LogEvent {
    LogEvent(timestamp, Initial, None, None, None, None, Some(InitialContent(text)))
  }

  // ---------------------------------------------------------------------------
  // Content changes, selections, commands
  // ---------------------------------------------------------------------------

  /** The event logged for one content change. */
  function ChangeEvent(change: ContentChange, timestamp: string): (e: LogEvent)
    ensures e.timestamp == timestamp && e.range == Some(FormatRange(change.range))
    ensures e.event == Deletion <==> change.rangeLength > 0 && change.text == ""
    ensures e.event == Overwrite <==> change.rangeLength > 0 && change.text != ""
    ensures e.event == Insertion <==> change.rangeLength == 0
    ensures e.inserted == (if e.event == Deletion then None else Some(change.text))
    ensures e.deleted == (if e.event == Insertion then None else Some(change.textInRange))
    ensures e.selection == None && e.initialContent == None
  {
    var rangeStr := FormatRange(change.range);
    if change.rangeLength > 0 && change.text == "" then
      LogEvent(timestamp, Deletion, Some(rangeStr), None, Some(change.textInRange), None, None)
    else if change.rangeLength > 0 && |change.text| > 0 then
      LogEvent(timestamp, Overwrite, Some(rangeStr), Some(change.text), Some(change.textInRange), None, None)
    else
      LogEvent(timestamp, Insertion, Some(rangeStr), Some(change.text), None, None, None)
  }

  /** The events logged for a batch of content changes, in change order. */
  function ChangeEvents(changes: seq<ContentChange>, timestamp: string): (events: seq<LogEvent>)
    ensures |events| == |changes|
    ensures forall i :: 0 <= i < |changes| ==> events[i] == ChangeEvent(changes[i], timestamp)
  {
    seq(|changes|, i requires 0 <= i < |changes| => ChangeEvent(changes[i], timestamp))
  }

  lemma ChangeEventsSnoc(changes: seq<ContentChange>, i: nat, timestamp: string)
    requires i < |changes|
    ensures ChangeEvents(changes[..i + 1], timestamp) == ChangeEvents(changes[..i], timestamp) + [ChangeEvent(changes[i], timestamp)]
  {
  }

  /** The selections of an editor as one comma-separated string of ranges. */
  function SelectionString(selections: seq<Range>): string {
    JoinWith(seq(|selections|, i requires 0 <= i < |selections| => FormatRange(selections[i])), ',')
  }

  /** The selections can be read back from their joined string. */
  lemma SelectionStringRoundTrip(selections: seq<Range>)
    requires |selections| >= 1
    ensures var parts := Split(SelectionString(selections), ',');
      |parts| == |selections| && forall i :: 0 <= i < |parts| ==> DecodeRange(parts[i]) == Some(selections[i])
  {
    var strs := seq(|selections|, i requires 0 <= i < |selections| => FormatRange(selections[i]));
    forall i | 0 <= i < |strs| ensures ',' !in strs[i] && DecodeRange(strs[i]) == Some(selections[i]) {
      FormatRangeHasColon(selections[i]);
      FormatRangeRoundTrip(selections[i]);
    }
    SplitJoinWith(strs, ',');
  }

  function SelectionEvent(timestamp: string, selection: string): LogEvent {
    LogEvent(timestamp, Selection, None, None, None, Some(selection), None)
  }

  /** The kind logged for an executed command, if it is one that is logged. */
  function CommandKind(command: string): (k: Option<EventKind>)
    ensures k.Some? ==> k.value in {Undo, Redo, Cut}
    ensures k == Some(Undo) <==> command == "undo"
    ensures k == Some(Redo) <==> command == "redo"
    ensures k == Some(Cut) <==> command == "editor.action.clipboardCutAction"
  {
    if command == "undo" then Some(Undo)
    else if command == "redo" then Some(Redo)
    else if command == "editor.action.clipboardCutAction" then Some(Cut)
    else None
  }

  // ---------------------------------------------------------------------------
  // Recording folders and report paths
  // ---------------------------------------------------------------------------

  /** A directory named `Recording` followed by one or more digits. */
  predicate IsRecordingEntry(e: DirEntry) {
    e.isDirectory && |e.name| > 9 && e.name[..9] == "Recording" && AllDigits(e.name[9..])
  }

  function RecordingNumber(e: DirEntry): nat
    requires IsRecordingEntry(e)
  {
    DigitsValue(e.name[9..])
  }

  /** The number of the next recording folder: one more than the largest
      existing `Recording<N>`, or 1 when there is none or the directory could
      not be listed (`None`). */
  method NextRecordingNumber(entries: Option<seq<DirEntry>>) returns (next: nat)
    ensures next >= 1
    ensures entries.Some? ==> forall e :: e in entries.value && IsRecordingEntry(e) ==> RecordingNumber(e) < next
    ensures next == 1 || (entries.Some? && exists e :: e in entries.value && IsRecordingEntry(e) && RecordingNumber(e) == next - 1)
  {
    var maxRecording: nat := 0;
    if entries.Some? {
      var list := entries.value;
      for i := 0 to |list|
        invariant forall j :: 0 <= j < i && IsRecordingEntry(list[j]) ==> RecordingNumber(list[j]) <= maxRecording
        invariant maxRecording == 0 || exists j :: 0 <= j < i && IsRecordingEntry(list[j]) && RecordingNumber(list[j]) == maxRecording
      {
        var entry := list[i];
        if entry.isDirectory && |entry.name| > 9 && entry.name[..9] == "Recording" && AllDigits(entry.name[9..]) {
          var num := DigitsValue(entry.name[9..]);
          if num > maxRecording {
            maxRecording := num;
          }
        }
      }
    }
    next := maxRecording + 1;
  }

  function RecordingFolder(basePath: string, n: nat): string {
    NodePath.Join(basePath, "Recording" + NatToString(n))
  }

  /** Distinct recording numbers name distinct folders. */
  lemma RecordingFoldersDistinct(basePath: string, a: nat, b: nat)
    requires a != b
    ensures RecordingFolder(basePath, a) != RecordingFolder(basePath, b)
  {
    if RecordingFolder(basePath, a) == RecordingFolder(basePath, b) {
      var fa, fb := RecordingFolder(basePath, a), RecordingFolder(basePath, b);
      var k := |basePath| + 1 + 9;
      assert fa[k..] == NatToString(a);
      assert fb[k..] == NatToString(b);
      NatToStringInjective(a, b);
    }
  }

  /** A number above every listed `Recording<N>` names a folder that is none
      of the listed recording folders. */
  lemma NewRecordingFolderIsFresh(basePath: string, entries: seq<DirEntry>, n: nat)
    requires forall e :: e in entries && IsRecordingEntry(e) ==> RecordingNumber(e) < n
    ensures forall e :: e in entries && IsRecordingEntry(e) ==>
      RecordingFolder(basePath, n) != NodePath.Join(basePath, e.name)
  {
    forall e | e in entries && IsRecordingEntry(e)
      ensures RecordingFolder(basePath, n) != NodePath.Join(basePath, e.name)
    {
      if RecordingFolder(basePath, n) == NodePath.Join(basePath, e.name) {
        var f := RecordingFolder(basePath, n);
        assert f[|basePath| + 1..] == e.name;
        assert f[|basePath| + 1..] == "Recording" + NatToString(n);
        assert e.name[9..] == NatToString(n);
        DigitsValueOfNatToString(n);
        assert false;
      }
    }
  }

  /** The report file of a document inside a recording folder:
      `<folder>/<basename of the document>.json`. */
  function ReportPathIn(folder: string, fileName: string): string {
    NodePath.Join(folder, NodePath.Basename(fileName) + ".json")
  }

  /** The report's file name is the document's base name plus `.json`. */
  lemma ReportPathFileName(folder: string, fileName: string)
    ensures NodePath.Basename(ReportPathIn(folder, fileName)) == NodePath.Basename(fileName) + ".json"
    ensures ReportPathIn(folder, fileName) != ""
  {
    var b := NodePath.Basename(fileName);
    assert '/' !in b by {
      match NodePath.LastIndex(fileName, '/')
      case None =>
      case Some(i) =>
        assert forall k :: 0 <= k < |b| ==> b[k] == fileName[i + 1 + k];
    }
    assert '/' !in ".json";
    NodePath.BasenameOfJoin(folder, b + ".json");
  }

  // ---------------------------------------------------------------------------
  // Flushing buffers to report files
  // ---------------------------------------------------------------------------

  predicate Distinct(keys: seq<string>) {
    forall i, j :: 0 <= i < j < |keys| ==> keys[i] != keys[j]
  }

  /** A buffer the flush writes out: non-empty and with a known report path
      (an empty path counts as unknown, as the source tests it for falsity). */
  predicate Flushable(key: string, buffers: map<string, seq<LogEvent>>, paths: map<string, string>) {
    key in buffers && |buffers[key]| > 0 && key in paths && paths[key] != ""
  }

  /** The `logs` of a report file; a missing or unreadable file has none. */
  function LogsAt(files: map<string, seq<LogEvent>>, path: string): seq<LogEvent> {
    if path in files then files[path] else []
  }

  /** The report files after flushing the buffers of `keys`, in that order:
      each flushable buffer is appended to the logs of its report file. */
  function FlushFiles(keys: seq<string>, buffers: map<string, seq<LogEvent>>, paths: map<string, string>,
                      files: map<string, seq<LogEvent>>): map<string, seq<LogEvent>>
    decreases |keys|
  {
    if keys == [] then files
    else
      var before := FlushFiles(keys[..|keys| - 1], buffers, paths, files);
      var key := keys[|keys| - 1];
      if Flushable(key, buffers, paths) then before[paths[key] := LogsAt(before, paths[key]) + buffers[key]]
      else before
  }

  lemma FlushFilesSnoc(keys: seq<string>, buffers: map<string, seq<LogEvent>>, paths: map<string, string>,
                       files: map<string, seq<LogEvent>>)
    requires keys != []
    ensures var before, key := FlushFiles(keys[..|keys| - 1], buffers, paths, files), keys[|keys| - 1];
      FlushFiles(keys, buffers, paths, files)
        == if Flushable(key, buffers, paths) then before[paths[key] := LogsAt(before, paths[key]) + buffers[key]] else before
  {
  }

  /** The buffers of `keys` bound for `path`, concatenated in key order. */
  function PendingFor(keys: seq<string>, buffers: map<string, seq<LogEvent>>, paths: map<string, string>,
                      path: string): seq<LogEvent>
    decreases |keys|
  {
    if keys == [] then []
    else
      var key := keys[|keys| - 1];
      PendingFor(keys[..|keys| - 1], buffers, paths, path)
        + (if Flushable(key, buffers, paths) && paths[key] == path then buffers[key] else [])
  }

  /** After a flush, every report file holds its old logs followed by the
      buffers bound for it, in buffer order; a file is written exactly when
      some buffer was bound for it, and the others are left as they were. */
  lemma {:induction false} FlushAppendsPending(keys: seq<string>, buffers: map<string, seq<LogEvent>>,
                                               paths: map<string, string>, files: map<string, seq<LogEvent>>, path: string)
    ensures LogsAt(FlushFiles(keys, buffers, paths, files), path) == LogsAt(files, path) + PendingFor(keys, buffers, paths, path)
    ensures path in FlushFiles(keys, buffers, paths, files) <==> path in files || |PendingFor(keys, buffers, paths, path)| > 0
    decreases |keys|
  {
    if keys != [] {
      var init, key := keys[..|keys| - 1], keys[|keys| - 1];
      FlushAppendsPending(init, buffers, paths, files, path);
      var before := FlushFiles(init, buffers, paths, files);
      var pending := PendingFor(init, buffers, paths, path);
      if Flushable(key, buffers, paths) {
        var after := before[paths[key] := LogsAt(before, paths[key]) + buffers[key]];
        assert FlushFiles(keys, buffers, paths, files) == after;
        if paths[key] == path {
          assert PendingFor(keys, buffers, paths, path) == pending + buffers[key];
          assert LogsAt(after, path) == LogsAt(files, path) + pending + buffers[key];
        } else {
          assert PendingFor(keys, buffers, paths, path) == pending + [];
          assert LogsAt(after, path) == LogsAt(before, path);
        }
      } else {
        assert FlushFiles(keys, buffers, paths, files) == before;
        assert PendingFor(keys, buffers, paths, path) == pending + [];
      }
    }
  }

  /** When the flushed documents have distinct report paths, each report file
      holds exactly its old logs followed by its document's buffer. */
  lemma {:induction false} FlushWithDistinctPaths(keys: seq<string>, buffers: map<string, seq<LogEvent>>,
                                                  paths: map<string, string>, files: map<string, seq<LogEvent>>, key: string)
    requires Distinct(keys) && key in keys && Flushable(key, buffers, paths)
    requires forall k :: k in keys && k != key && Flushable(k, buffers, paths) ==> paths[k] != paths[key]
    ensures LogsAt(FlushFiles(keys, buffers, paths, files), paths[key]) == LogsAt(files, paths[key]) + buffers[key]
  {
    FlushAppendsPending(keys, buffers, paths, files, paths[key]);
    PendingIsOwnBuffer(keys, buffers, paths, key);
  }

  lemma {:induction false} PendingIsOwnBuffer(keys: seq<string>, buffers: map<string, seq<LogEvent>>,
                                              paths: map<string, string>, key: string)
    requires Distinct(keys) && Flushable(key, buffers, paths)
    requires forall k :: k in keys && k != key && Flushable(k, buffers, paths) ==> paths[k] != paths[key]
    ensures PendingFor(keys, buffers, paths, paths[key]) == (if key in keys then buffers[key] else [])
    decreases |keys|
  {
    if keys != [] {
      var init := keys[..|keys| - 1];
      var last := keys[|keys| - 1];
      assert forall k :: k in init ==> k in keys;
      assert Distinct(init);
      PendingIsOwnBuffer(init, buffers, paths, key);
      var before := PendingFor(init, buffers, paths, paths[key]);
      if last == key {
        assert key !in init by {
          forall j | 0 <= j < |init| ensures init[j] != key {
            assert init[j] == keys[j];
          }
        }
        assert PendingFor(keys, buffers, paths, paths[key]) == before + buffers[key];
      } else {
        assert key in keys <==> key in init;
        assert !(Flushable(last, buffers, paths) && paths[last] == paths[key]);
        assert PendingFor(keys, buffers, paths, paths[key]) == before + [];
      }
    }
  }

  /** The buffers once those of `keys` have been flushed: each flushable
      one of them emptied, every other buffer kept. */
  function FlushedBuffers(keys: seq<string>, buffers: map<string, seq<LogEvent>>, paths: map<string, string>)
    : (r: map<string, seq<LogEvent>>)
    ensures r.Keys == buffers.Keys
  {
    map k | k in buffers :: if k in keys && Flushable(k, buffers, paths) then [] else buffers[k]
  }

  lemma FlushedNothing(buffers: map<string, seq<LogEvent>>, paths: map<string, string>)
    ensures FlushedBuffers([], buffers, paths) == buffers
  {
  }

  /** Flushing one more key empties its buffer when it is flushable. */
  lemma FlushedBuffersSnoc(done: seq<string>, key: string, buffers: map<string, seq<LogEvent>>, paths: map<string, string>)
    requires key in buffers
    ensures var soFar := FlushedBuffers(done, buffers, paths);
      FlushedBuffers(done + [key], buffers, paths) == if Flushable(key, buffers, paths) then soFar[key := []] else soFar
  {
    var soFar := FlushedBuffers(done, buffers, paths);
    var after := FlushedBuffers(done + [key], buffers, paths);
    var expected := if Flushable(key, buffers, paths) then soFar[key := []] else soFar;
    forall k | k in buffers ensures after[k] == expected[k] {
      assert k in done + [key] <==> k in done || k == key;
    }
    assert after.Keys == expected.Keys;
  }

  /** One step of the flush loop over `order`: flushing `order[i]` after the
      keys before it. */
  lemma FlushStep(order: seq<string>, i: nat, buffers: map<string, seq<LogEvent>>, paths: map<string, string>,
                  files: map<string, seq<LogEvent>>)
    requires i < |order| && Distinct(order) && order[i] in buffers
    ensures FlushedBuffers(order[..i], buffers, paths)[order[i]] == buffers[order[i]]
    ensures var key, soFar := order[i], FlushedBuffers(order[..i], buffers, paths);
      FlushedBuffers(order[..i + 1], buffers, paths) == if Flushable(key, buffers, paths) then soFar[key := []] else soFar
    ensures var key, before := order[i], FlushFiles(order[..i], buffers, paths, files);
      FlushFiles(order[..i + 1], buffers, paths, files)
        == if Flushable(key, buffers, paths) then before[paths[key] := LogsAt(before, paths[key]) + buffers[key]] else before
  {
    var done, next, key := order[..i], order[..i + 1], order[i];
    assert key !in done;
    assert next == done + [key] && next[..i] == done;
    FlushedBuffersSnoc(done, key, buffers, paths);
    FlushFilesSnoc(next, buffers, paths, files);
  }

  /** A flush over every buffered key empties exactly the flushable buffers:
      the empty ones and those without a report path are kept. */
  lemma FlushOfAllKeys(order: seq<string>, buffers: map<string, seq<LogEvent>>, paths: map<string, string>, key: string)
    requires forall k :: k in buffers ==> k in order
    requires key in buffers
    ensures FlushedBuffers(order, buffers, paths)[key] == [] <==> Flushable(key, buffers, paths) || buffers[key] == []
    ensures !Flushable(key, buffers, paths) ==> FlushedBuffers(order, buffers, paths)[key] == buffers[key]
  {
  }

  // ---------------------------------------------------------------------------
  // Selection de-duplication
  // ---------------------------------------------------------------------------

  /** No two neighbouring entries are equal (stated from the end, the way
      the log grows). */
  predicate NoAdjacentRepeats(s: seq<string>)
    decreases |s|
  {
    |s| <= 1 || (s[|s| - 2] != s[|s| - 1] && NoAdjacentRepeats(s[..|s| - 1]))
  }

  /** The recursive definition says what it should: any two neighbours differ. */
  lemma {:induction false} NoAdjacentRepeatsAt(s: seq<string>, i: nat)
    requires NoAdjacentRepeats(s) && 0 < i < |s|
    ensures s[i - 1] != s[i]
    decreases |s|
  {
    if i < |s| - 1 {
      NoAdjacentRepeatsAt(s[..|s| - 1], i);
    }
  }

  /** Appending an entry that differs from the current last one keeps
      neighbours distinct. */
  lemma AppendKeepsNoRepeats(s: seq<string>, x: string)
    requires NoAdjacentRepeats(s)
    requires |s| > 0 ==> s[|s| - 1] != x
    ensures NoAdjacentRepeats(s + [x])
  {
    assert (s + [x])[..|s|] == s;
  }

  /** The buffer keys are listed once each in insertion order, and exactly
      the buffered documents have a cached report path. */
  ghost predicate BuffersValid(buffers: map<string, seq<LogEvent>>, order: seq<string>, paths: map<string, string>) {
    && (forall k :: k in buffers <==> k in order)
    && Distinct(order)
    && paths.Keys == buffers.Keys
  }

  /** For every document with a stored selection, the logged selection strings
      end with it and never repeat back-to-back. */
  ghost predicate SelectionsValid(last: map<string, string>, log: map<string, seq<string>>) {
    && log.Keys == last.Keys
    && forall k :: k in log ==>
         && |log[k]| > 0
         && log[k][|log[k]| - 1] == last[k]
         && NoAdjacentRepeats(log[k])
  }

  /** Registering a new document keeps the buffer bookkeeping consistent. */
  lemma AddBufferValid(buffers: map<string, seq<LogEvent>>, order: seq<string>, paths: map<string, string>,
                       key: string, buffer: seq<LogEvent>, path: string)
    requires BuffersValid(buffers, order, paths) && key !in buffers
    ensures BuffersValid(buffers[key := buffer], order + [key], paths[key := path])
  {
    assert key !in order;
  }

  /** Replacing the contents of an existing buffer keeps the buffer
      bookkeeping consistent. */
  lemma UpdateBufferValid(buffers: map<string, seq<LogEvent>>, order: seq<string>, paths: map<string, string>,
                          key: string, buffer: seq<LogEvent>)
    requires BuffersValid(buffers, order, paths) && key in buffers
    ensures BuffersValid(buffers[key := buffer], order, paths)
    ensures buffers[key := buffer].Keys == buffers.Keys
  {
  }

  /** The bookkeeping depends only on which documents have buffers. */
  lemma SameKeysBuffersValid(buffers: map<string, seq<LogEvent>>, buffers': map<string, seq<LogEvent>>,
                             order: seq<string>, paths: map<string, string>)
    requires BuffersValid(buffers, order, paths) && buffers'.Keys == buffers.Keys
    ensures BuffersValid(buffers', order, paths)
  {
  }

  lemma UpdateTwice<V>(m: map<string, V>, key: string, first: V, second: V)
    ensures m[key := first][key := second] == m[key := second]
  {
  }

  /** Storing a new selection string that differs from the last one keeps
      the selection bookkeeping consistent. */
  lemma AddSelectionValid(last: map<string, string>, log: map<string, seq<string>>, key: string, s: string)
    requires SelectionsValid(last, log)
    requires key in last ==> last[key] != s
    ensures SelectionsValid(last[key := s], log[key := (if key in log then log[key] else []) + [s]])
  {
    var logged := if key in log then log[key] else [];
    AppendKeepsNoRepeats(logged, s);
  }

  // ---------------------------------------------------------------------------
  // The tracker
  // ---------------------------------------------------------------------------

  class DetailedChangeTracker {
    const storageBasePath: string
    /** The number N of this session's `Recording<N>` folder. */
    ghost const recordingNumber: nat
    const recordingFolderPath: string
    /** One log buffer per document key. */
    var logBuffers: map<string, seq<LogEvent>>
    /** The keys of `logBuffers` in insertion order, the order a JavaScript
        `Map` iterates in. */
    var bufferOrder: seq<string>
    var reportFilePaths: map<string, string>
    var lastSelections: map<string, string>
    /** Every selection string logged so far, per document. */
    ghost var selectionLog: map<string, seq<string>>

    ghost predicate Valid()
      reads this
    {
      && BuffersValid(logBuffers, bufferOrder, reportFilePaths)
      && lastSelections.Keys <= logBuffers.Keys
      && SelectionsValid(lastSelections, selectionLog)
    }

    /** The tracker for one editor session: it takes the next free
        `Recording<N>` folder under `storageBasePath` (`entries` is that
        directory's listing, `None` when it cannot be read). */
    constructor (storageBasePath: string, entries: Option<seq<DirEntry>>)
      ensures Valid()
      ensures this.storageBasePath == storageBasePath
      ensures recordingFolderPath == RecordingFolder(storageBasePath, recordingNumber)
      ensures recordingNumber >= 1
      ensures entries.Some? ==> forall e :: e in entries.value && IsRecordingEntry(e) ==> RecordingNumber(e) < recordingNumber
      ensures recordingNumber == 1
           || (entries.Some? && exists e :: e in entries.value && IsRecordingEntry(e) && RecordingNumber(e) == recordingNumber - 1)
      ensures logBuffers == map[] && bufferOrder == [] && reportFilePaths == map[] && lastSelections == map[]
    {
      var n := NextRecordingNumber(entries);
      this.storageBasePath := storageBasePath;
      recordingNumber := n;
      recordingFolderPath := RecordingFolder(storageBasePath, n);
      logBuffers, bufferOrder, reportFilePaths, lastSelections := map[], [], map[], map[];
      selectionLog := map[];
    }

    /** `getReportFilePath`: the cached path of the document, or, on first
        use, `<recording folder>/<basename>.json`, which is then cached. */
    method GetReportFilePath(doc: Document) returns (path: string)
      modifies this`reportFilePaths
      ensures doc.uri in old(reportFilePaths) ==> path == old(reportFilePaths)[doc.uri] && reportFilePaths == old(reportFilePaths)
      ensures doc.uri !in old(reportFilePaths) ==>
        path == ReportPathIn(recordingFolderPath, doc.fileName) && reportFilePaths == old(reportFilePaths)[doc.uri := path]
    {
      var docKey := doc.uri;
      if docKey in reportFilePaths {
        return reportFilePaths[docKey];
      }
      var fileName := NodePath.Basename(doc.fileName);
      path := NodePath.Join(recordingFolderPath, fileName + ".json");
      reportFilePaths := reportFilePaths[docKey := path];
    }

    /** The buffer of `doc` once `EnsureBuffer` has run. */
    ghost function BufferAfterEnsure(doc: Document, now: string): seq<LogEvent>
      reads this
    {
      if doc.uri in logBuffers then logBuffers[doc.uri] else [InitialEvent(now, doc.text)]
    }

    ghost function OrderAfterEnsure(doc: Document): seq<string>
      reads this
    {
      if doc.uri in logBuffers then bufferOrder else bufferOrder + [doc.uri]
    }

    ghost function PathsAfterEnsure(doc: Document): map<string, string>
      reads this
    {
      if doc.uri in reportFilePaths then reportFilePaths
      else reportFilePaths[doc.uri := ReportPathIn(recordingFolderPath, doc.fileName)]
    }

    /** `ensureBuffer`: on the first call for a document, create its buffer
        holding just the INITIAL snapshot of its text and cache its report
        path; on later calls, change nothing. */
    method EnsureBuffer(doc: Document, now: string)
      requires Valid()
      modifies this
      ensures Valid()
      ensures doc.uri in logBuffers
      ensures old(doc.uri in logBuffers) ==>
        logBuffers == old(logBuffers) && bufferOrder == old(bufferOrder) && reportFilePaths == old(reportFilePaths)
      ensures old(doc.uri !in logBuffers) ==>
        && logBuffers == old(logBuffers)[doc.uri := [InitialEvent(now, doc.text)]]
        && bufferOrder == old(bufferOrder) + [doc.uri]
        && reportFilePaths == old(reportFilePaths)[doc.uri := ReportPathIn(recordingFolderPath, doc.fileName)]
      ensures logBuffers == old(logBuffers)[doc.uri := old(BufferAfterEnsure(doc, now))]
      ensures bufferOrder == old(OrderAfterEnsure(doc)) && reportFilePaths == old(PathsAfterEnsure(doc))
      ensures lastSelections == old(lastSelections) && selectionLog == old(selectionLog)
    {
      var docKey := doc.uri;
      if docKey !in logBuffers {
        ghost var buffers, order, paths := logBuffers, bufferOrder, reportFilePaths;
        logBuffers := logBuffers[docKey := []];
        bufferOrder := bufferOrder + [docKey];
        var _ := GetReportFilePath(doc);
        var initialEvent := InitialEvent(now, doc.text);
        assert logBuffers[docKey] + [initialEvent] == [initialEvent];
        UpdateTwice(buffers, docKey, [], [initialEvent]);
        logBuffers := logBuffers[docKey := logBuffers[docKey] + [initialEvent]];
        AddBufferValid(buffers, order, paths, docKey, [initialEvent], ReportPathIn(recordingFolderPath, doc.fileName));
        assert logBuffers == buffers[docKey := [initialEvent]];
        assert reportFilePaths == paths[docKey := ReportPathIn(recordingFolderPath, doc.fileName)];
        assert BuffersValid(logBuffers, bufferOrder, reportFilePaths);
        assert lastSelections.Keys <= logBuffers.Keys;
      }
    }

    /** The text-document change handler: after `EnsureBuffer`, one event per
        content change is appended to the document's buffer, in change order. */
    method OnDidChangeTextDocument(doc: Document, now: string, changes: seq<ContentChange>)
      requires Valid()
      modifies this
      ensures Valid()
      ensures logBuffers == old(logBuffers)[doc.uri := old(BufferAfterEnsure(doc, now)) + ChangeEvents(changes, now)]
      ensures bufferOrder == old(OrderAfterEnsure(doc)) && reportFilePaths == old(PathsAfterEnsure(doc))
      ensures lastSelections == old(lastSelections) && selectionLog == old(selectionLog)
    {
      EnsureBuffer(doc, now);
      var docKey := doc.uri;
      // `buffer` is the document's log array, which the source appends to in place.
      var buffer := logBuffers[docKey];
      ghost var start := buffer;
      assert ChangeEvents(changes[..0], now) == [];
      for i := 0 to |changes|
        modifies {}
        invariant buffer == start + ChangeEvents(changes[..i], now)
      {
        var logEvent := ChangeEvent(changes[i], now);
        ChangeEventsSnoc(changes, i, now);
        buffer := buffer + [logEvent];
      }
      assert changes[..|changes|] == changes;
      UpdateBufferValid(logBuffers, bufferOrder, reportFilePaths, docKey, buffer);
      UpdateTwice(old(logBuffers), docKey, start, buffer);
      logBuffers := logBuffers[docKey := buffer];
    }

    /** The selection change handler: after `EnsureBuffer`, a SELECTION event
        is appended unless its string equals the last one stored for the
        document, and that stored string is updated. */
    method OnDidChangeTextEditorSelection(doc: Document, now: string, selections: seq<Range>)
      requires Valid()
      modifies this
      ensures Valid()
      ensures bufferOrder == old(OrderAfterEnsure(doc)) && reportFilePaths == old(PathsAfterEnsure(doc))
      ensures var s := SelectionString(selections);
        if doc.uri in old(lastSelections) && old(lastSelections)[doc.uri] == s then
          && logBuffers == old(logBuffers)[doc.uri := old(BufferAfterEnsure(doc, now))]
          && lastSelections == old(lastSelections)
          && selectionLog == old(selectionLog)
        else
          && logBuffers == old(logBuffers)[doc.uri := old(BufferAfterEnsure(doc, now)) + [SelectionEvent(now, s)]]
          && lastSelections == old(lastSelections)[doc.uri := s]
          && selectionLog == old(selectionLog)[doc.uri := (if doc.uri in old(selectionLog) then old(selectionLog)[doc.uri] else []) + [s]]
    {
      EnsureBuffer(doc, now);
      var docKey := doc.uri;
      var joined := SelectionString(selections);
      if docKey in lastSelections && lastSelections[docKey] == joined {
        return;
      }
      ghost var logged := if docKey in selectionLog then selectionLog[docKey] else [];
      ghost var ensured := logBuffers[docKey];
      AddSelectionValid(lastSelections, selectionLog, docKey, joined);
      UpdateBufferValid(logBuffers, bufferOrder, reportFilePaths, docKey, ensured + [SelectionEvent(now, joined)]);
      UpdateTwice(old(logBuffers), docKey, ensured, ensured + [SelectionEvent(now, joined)]);
      lastSelections := lastSelections[docKey := joined];
      selectionLog := selectionLog[docKey := logged + [joined]];
      logBuffers := logBuffers[docKey := logBuffers[docKey] + [SelectionEvent(now, joined)]];
      assert BuffersValid(logBuffers, bufferOrder, reportFilePaths);
      assert lastSelections.Keys <= logBuffers.Keys;
    }

    /** The command handler: with an active editor, after `EnsureBuffer`, an
        UNDO, REDO or CUT event is appended for the matching command; without
        one, nothing happens. */
    method OnDidExecuteCommand(activeDoc: Option<Document>, now: string, command: string)
      requires Valid()
      modifies this
      ensures Valid()
      ensures activeDoc.None? ==>
        logBuffers == old(logBuffers) && bufferOrder == old(bufferOrder) && reportFilePaths == old(reportFilePaths)
      ensures activeDoc.Some? ==>
        && logBuffers == old(logBuffers)[activeDoc.value.uri := old(BufferAfterEnsure(activeDoc.value, now))
             + (match CommandKind(command) case Some(k) => [LogEvent(now, k, None, None, None, None, None)] case None => [])]
        && bufferOrder == old(OrderAfterEnsure(activeDoc.value))
        && reportFilePaths == old(PathsAfterEnsure(activeDoc.value))
      ensures lastSelections == old(lastSelections) && selectionLog == old(selectionLog)
    {
      if activeDoc.None? {
        return;
      }
      var doc := activeDoc.value;
      EnsureBuffer(doc, now);
      var docKey := doc.uri;
      var kind := CommandKind(command);
      ghost var before := logBuffers[docKey];
      assert before + [] == before;
      if kind.Some? {
        UpdateBufferValid(logBuffers, bufferOrder, reportFilePaths, docKey,
                          logBuffers[docKey] + [LogEvent(now, kind.value, None, None, None, None, None)]);
        UpdateTwice(old(logBuffers), docKey, before, before + [LogEvent(now, kind.value, None, None, None, None, None)]);
        logBuffers := logBuffers[docKey := logBuffers[docKey] + [LogEvent(now, kind.value, None, None, None, None, None)]];
      }
    }

    /** The periodic flush: for each buffer in insertion order, a non-empty
        buffer with a known report path is appended to that report file's logs
        and then emptied. `files` holds the logs of the report files before the
        flush; `written` holds them after it. */
    method Flush(files: map<string, seq<LogEvent>>) returns (written: map<string, seq<LogEvent>>)
      requires Valid()
      modifies this`logBuffers
      ensures Valid()
      ensures written == FlushFiles(bufferOrder, old(logBuffers), reportFilePaths, files)
      ensures logBuffers == FlushedBuffers(bufferOrder, old(logBuffers), reportFilePaths)
    {
      var buffers, order, paths := logBuffers, bufferOrder, reportFilePaths;
      var flushed := buffers;
      written := files;
      FlushedNothing(buffers, paths);
      for i := 0 to |order|
        modifies {}
        invariant flushed == FlushedBuffers(order[..i], buffers, paths)
        invariant written == FlushFiles(order[..i], buffers, paths, files)
      {
        var docKey := order[i];
        FlushStep(order, i, buffers, paths, files);
        var buffer := flushed[docKey];
        if |buffer| > 0 {
          if docKey in paths && paths[docKey] != "" {
            var reportFilePath := paths[docKey];
            written := written[reportFilePath := LogsAt(written, reportFilePath) + buffer];
            flushed := flushed[docKey := []];
          }
        }
      }
      assert order[..|order|] == order;
      assert flushed.Keys == buffers.Keys;
      SameKeysBuffersValid(buffers, flushed, order, paths);
      logBuffers := flushed;
      assert BuffersValid(logBuffers, bufferOrder, reportFilePaths);
      assert lastSelections.Keys <= logBuffers.Keys;
      assert SelectionsValid(lastSelections, selectionLog);
    }
  }
}
