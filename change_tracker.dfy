/** The session change logger of
    `pogc_extension_minimal/src/tracking/ChangeTracker.ts`: on every edit of
    the active document it works out the report file next to the document,
    updates the session counter (adopting the count stored in that file and
    starting a new session after a quiet gap of more than 30 seconds), and
    classifies each content change into an individual change, a "Large Paste"
    git-style change or nothing; on disposal it stores the collected changes
    under the current session number of the report file, unless that session
    is already there. */
module ChangeTracking {
  import opened Wrappers
  import NodePath

  // ---------------------------------------------------------------------------
  // JavaScript string helpers
  // ---------------------------------------------------------------------------

  /** The characters `String.prototype.trim` removes: the ECMAScript white
      space and line terminator code points. */
  predicate IsJsSpace(c: char) {
    var n := c as int;
    (9 <= n <= 13) || n == 32 || n == 0xA0 || n == 0x1680
    || (0x2000 <= n <= 0x200A) || n == 0x2028 || n == 0x2029 || n == 0x202F
    || n == 0x205F || n == 0x3000 || n == 0xFEFF
  }

  function TrimStart(s: string): string {
    if |s| > 0 && IsJsSpace(s[0]) then TrimStart(s[1..]) else s
  }

  function TrimEnd(s: string): string {
    if |s| > 0 && IsJsSpace(s[|s| - 1]) then TrimEnd(s[..|s| - 1]) else s
  }

  /** `s.trim()`. */
  function JsTrim(s: string): string {
    TrimEnd(TrimStart(s))
  }

  lemma {:induction false} TrimStartEmpty(s: string)
    ensures TrimStart(s) == "" <==> forall k :: 0 <= k < |s| ==> IsJsSpace(s[k])
    ensures TrimStart(s) != "" ==> !IsJsSpace(TrimStart(s)[0])
    decreases |s|
  {
    if |s| > 0 && IsJsSpace(s[0]) {
      TrimStartEmpty(s[1..]);
      assert forall k :: 0 < k < |s| ==> s[k] == s[1..][k - 1];
    }
  }

  lemma {:induction false} TrimEndEmpty(s: string)
    ensures TrimEnd(s) == "" <==> forall k :: 0 <= k < |s| ==> IsJsSpace(s[k])
    decreases |s|
  {
    if |s| > 0 && IsJsSpace(s[|s| - 1]) {
      TrimEndEmpty(s[..|s| - 1]);
      assert forall k :: 0 <= k < |s| - 1 ==> s[k] == s[..|s| - 1][k];
    }
  }

  /** A string trims to the empty string exactly when it is all white space. */
  lemma TrimEmptyIff(s: string)
    ensures JsTrim(s) == "" <==> forall k :: 0 <= k < |s| ==> IsJsSpace(s[k])
  {
    TrimStartEmpty(s);
    TrimEndEmpty(TrimStart(s));
  }

  /** `toLowerCase` on ASCII letters; every other character is kept. */
  function LowerChar(c: char): char {
    if 'A' <= c <= 'Z' then (c as int + 32) as char else c
  }

  function Lower(s: string): (r: string)
    ensures |r| == |s|
  {
    seq(|s|, k requires 0 <= k < |s| => LowerChar(s[k]))
  }

  /** Two different characters with the same lower case form are one letter
      in upper and in lower case. */
  lemma SameLowerIsCaseChange(a: char, b: char)
    requires a != b && LowerChar(a) == LowerChar(b)
    ensures ('A' <= a <= 'Z' && b == LowerChar(a)) || ('A' <= b <= 'Z' && a == LowerChar(b))
  {
  }

  // ---------------------------------------------------------------------------
  // Change records and the report file
  // ---------------------------------------------------------------------------

  datatype IndividualChange = IndividualChange(timestamp: string, before: string, after: string)

  datatype GitChange = GitChange(timestamp: string, changeType: string, content: string)

  /** One stored session of the report file. */
  datatype Session = Session(individualChanges: seq<IndividualChange>, gitChanges: seq<GitChange>)

  /** The parsed report file: its `numSessions` (absent when missing) and its
      `sessions` object, keyed by session number (absent when missing). */
  datatype ReportFile = ReportFile(numSessions: Option<int>, sessions: Option<map<int, Session>>)

  /** One content change as the handler sees it: the time stamp taken for it,
      the text the active document held in the changed range, the new text
      and the length of the replaced range. */
  datatype ObservedChange = ObservedChange(timestamp: string, before: string, after: string, rangeLength: nat)

  /** What the classification chain does with one change. */
  datatype Record = GitRecord(git: GitChange) | IndividualRecord(individual: IndividualChange) | NoRecord

  // ---------------------------------------------------------------------------
  // The classification chain
  // ---------------------------------------------------------------------------

  function CapitalizationLabel(after: string): string {
    "(capitalization changed to '" + after + "')"
  }

  function SelectedReplacedLabel(after: string): string {
    "(selected & replaced with '" + after + "')"
  }

  function BackspacedReplacedLabel(after: string): string {
    "(backspaced & replaced with '" + after + "')"
  }

  /** A one-character change that only switches the case of a letter. */
  predicate IsCaseChange(before: string, after: string) {
    |before| == 1 && |after| == 1 && Lower(before) == Lower(after) && before != after
  }

  /** The individual change recorded for `c` with `after` as its text. */
  function Entry(c: ObservedChange, after: string): Record {
    IndividualRecord(IndividualChange(c.timestamp, c.before, after))
  }

  /** The first matching rule of the chain decides the record. */
  function Classify(c: ObservedChange): (r: Record)
    ensures r.GitRecord? <==> |c.after| > 20
    ensures r.GitRecord? ==> r.git == GitChange(c.timestamp, "Large Paste", c.after)
    ensures r.IndividualRecord? ==> r.individual.timestamp == c.timestamp && r.individual.before == c.before
  {
    var before, after := c.before, c.after;
    if |after| > 20 then GitRecord(GitChange(c.timestamp, "Large Paste", after))
    else if IsCaseChange(before, after) then Entry(c, CapitalizationLabel(after))
    else if |before| > 0 && |after| == 0 && c.rangeLength > 1 then Entry(c, "(selected & deleted)")
    else if |before| > 0 && |after| > 0 && c.rangeLength > 1 then Entry(c, SelectedReplacedLabel(after))
    else if |before| > 0 && |after| > 0 && before != after then Entry(c, BackspacedReplacedLabel(after))
    else if |before| > 0 && |after| == 0 && JsTrim(before) == "" then Entry(c, "(whitespace deleted)")
    else if |before| > 0 && |after| == 0 then Entry(c, "(deleted)")
    else if JsTrim(before) != JsTrim(after) then Entry(c, after)
    else NoRecord
  }

  /** Deletions: nothing when nothing was there, "(selected & deleted)" for a
      range longer than one, otherwise "(whitespace deleted)" or "(deleted)"
      by whether the removed text was all white space. */
  lemma ClassifyDeletion(c: ObservedChange)
    requires c.after == ""
    ensures
      && (c.before == "" ==> Classify(c) == NoRecord)
      && (c.before != "" && c.rangeLength > 1 ==> Classify(c) == Entry(c, "(selected & deleted)"))
      && (c.before != "" && c.rangeLength <= 1 ==>
            Classify(c) == Entry(c, if forall k :: 0 <= k < |c.before| ==> IsJsSpace(c.before[k])
                             then "(whitespace deleted)" else "(deleted)"))
  {
    TrimEmptyIff(c.before);
  }

  /** Replacements of existing text by at most twenty characters: a case
      switch of one letter first, then a range longer than one, then any other
      different text; the same text again leaves no record. */
  lemma ClassifyReplacement(c: ObservedChange)
    requires c.before != "" && c.after != "" && |c.after| <= 20
    ensures
      && (IsCaseChange(c.before, c.after) ==> Classify(c) == Entry(c, CapitalizationLabel(c.after)))
      && (!IsCaseChange(c.before, c.after) && c.rangeLength > 1 ==> Classify(c) == Entry(c, SelectedReplacedLabel(c.after)))
      && (c.rangeLength <= 1 && c.before != c.after && !IsCaseChange(c.before, c.after) ==>
            Classify(c) == Entry(c, BackspacedReplacedLabel(c.after)))
      && (c.rangeLength <= 1 && c.before == c.after ==> Classify(c) == NoRecord)
  {
  }

  /** Pure insertions of at most twenty characters are kept as typed, unless
      they are only white space. */
  lemma ClassifyInsertion(c: ObservedChange)
    requires c.before == "" && c.after != "" && |c.after| <= 20
    ensures (exists k :: 0 <= k < |c.after| && !IsJsSpace(c.after[k])) ==>
      Classify(c) == IndividualRecord(IndividualChange(c.timestamp, "", c.after))
    ensures (forall k :: 0 <= k < |c.after| ==> IsJsSpace(c.after[k])) ==> Classify(c) == NoRecord
  {
    TrimEmptyIff(c.after);
    TrimEmptyIff("");
  }

  /** A change is recorded word for word exactly when it is a pure insertion
      of at most twenty characters that is not only white space; every label
      differs from the typed text. */
  lemma RecordedAsTypedIff(c: ObservedChange)
    ensures Classify(c) == IndividualRecord(IndividualChange(c.timestamp, c.before, c.after))
        <==> c.before == "" && |c.after| <= 20 && JsTrim(c.after) != ""
  {
    TrimEmptyIff("");
    assert JsTrim("") == "";
    assert |CapitalizationLabel(c.after)| > |c.after|;
    assert |SelectedReplacedLabel(c.after)| > |c.after|;
    assert |BackspacedReplacedLabel(c.after)| > |c.after|;
  }

  /** A change leaves no record exactly when it is short and either inserts
      only white space into nothing or rewrites a range of at most one with
      the same text. */
  lemma NoRecordIff(c: ObservedChange)
    ensures Classify(c) == NoRecord
        <==> |c.after| <= 20
             && ((c.before == "" && JsTrim(c.after) == "")
                 || (c.before != "" && c.before == c.after && c.rangeLength <= 1))
  {
    TrimEmptyIff("");
    assert JsTrim("") == "";
  }

  /** "(deleted)" and "(whitespace deleted)" are only written for removing
      text from a range of at most one character. */
  lemma DeletedLabelsNeedShortRange(c: ObservedChange)
    requires c.before != ""
    requires Classify(c).IndividualRecord?
    requires Classify(c).individual.after in {"(deleted)", "(whitespace deleted)"}
    ensures c.after == "" && c.rangeLength <= 1
  {
  }

  // ---------------------------------------------------------------------------
  // The logs built from a run of changes
  // ---------------------------------------------------------------------------

  /** The individual changes recorded for `changes`, in order. */
  function IndividualLog(changes: seq<ObservedChange>): (log: seq<IndividualChange>)
    ensures forall e :: e in log ==> e.before != "" || e.after != ""
    decreases |changes|
  {
    if changes == [] then []
    else
      var last := changes[|changes| - 1];
      IndividualLog(changes[..|changes| - 1]) + (match Classify(last) case IndividualRecord(e) => [e] case _ => [])
  }

  /** The git-style changes recorded for `changes`, in order: the large pastes. */
  function GitLog(changes: seq<ObservedChange>): (log: seq<GitChange>)
    ensures forall g :: g in log ==> g.changeType == "Large Paste" && |g.content| > 20
    decreases |changes|
  {
    if changes == [] then []
    else
      var last := changes[|changes| - 1];
      GitLog(changes[..|changes| - 1]) + (match Classify(last) case GitRecord(g) => [g] case _ => [])
  }

  /** The changes that leave no record. */
  function Dropped(changes: seq<ObservedChange>): nat
    decreases |changes|
  {
    if changes == [] then 0
    else Dropped(changes[..|changes| - 1]) + (if Classify(changes[|changes| - 1]).NoRecord? then 1 else 0)
  }

  /** Every change lands in exactly one of the two logs or is dropped. */
  lemma {:induction false} LogsPartitionChanges(changes: seq<ObservedChange>)
    ensures |IndividualLog(changes)| + |GitLog(changes)| + Dropped(changes) == |changes|
    decreases |changes|
  {
    if changes != [] {
      LogsPartitionChanges(changes[..|changes| - 1]);
    }
  }

  /** The number of changes longer than twenty characters. */
  function LargeChanges(changes: seq<ObservedChange>): nat
    decreases |changes|
  {
    if changes == [] then 0
    else LargeChanges(changes[..|changes| - 1]) + (if |changes[|changes| - 1].after| > 20 then 1 else 0)
  }

  /** The git log holds one "Large Paste" per change longer than twenty characters. */
  lemma {:induction false} GitLogCountsLargeChanges(changes: seq<ObservedChange>)
    ensures |GitLog(changes)| == LargeChanges(changes)
    decreases |changes|
  {
    if changes != [] {
      GitLogCountsLargeChanges(changes[..|changes| - 1]);
    }
  }

  lemma LogsSnoc(changes: seq<ObservedChange>, i: nat)
    requires i < |changes|
    ensures IndividualLog(changes[..i + 1])
         == IndividualLog(changes[..i]) + (match Classify(changes[i]) case IndividualRecord(e) => [e] case _ => [])
    ensures GitLog(changes[..i + 1]) == GitLog(changes[..i]) + (match Classify(changes[i]) case GitRecord(g) => [g] case _ => [])
  {
    assert changes[..i + 1][..i] == changes[..i];
  }

  // ---------------------------------------------------------------------------
  // Sessions
  // ---------------------------------------------------------------------------

  /** Quiet time, in milliseconds, after which an edit starts a new session. */
  const SessionGap := 30000

  /** `existingData.numSessions` when the stored report has a truthy one. */
  function StoredCount(stored: Option<ReportFile>): (r: Option<int>)
    ensures r.Some? <==> stored.Some? && stored.value.numSessions.Some? && stored.value.numSessions.value != 0
    ensures r.Some? ==> r == stored.value.numSessions && r.value != 0
  {
    if stored.Some? && stored.value.numSessions.Some? && stored.value.numSessions.value != 0
    then stored.value.numSessions else None
  }

  /** The session counter after an edit at time `now`: the stored count is
      adopted when there is one, and then a new session starts unless the run
      has unsaved changes or the last edit was at most 30 seconds ago. */
  function SessionCountAfterEdit(count: int, lastEditTime: int, unsaved: bool, stored: Option<ReportFile>, now: int): int {
    var current := StoredCount(stored).GetOr(count);
    if !unsaved && now - lastEditTime > SessionGap then current + 1 else current
  }

  /** The counter moves by at most one from the count it starts from. */
  lemma SessionCountStep(count: int, lastEditTime: int, unsaved: bool, stored: Option<ReportFile>, now: int)
    ensures var current := StoredCount(stored).GetOr(count);
      var r := SessionCountAfterEdit(count, lastEditTime, unsaved, stored, now);
      && (r == current + 1 <==> !unsaved && now - lastEditTime > SessionGap)
      && (r != current + 1 ==> r == current)
  {
  }

  /** As written, the second edit of a run re-reads the stored count and so
      undoes the new session the first edit started; when the stored report
      already holds that count's session, saving keeps it and drops the run's
      changes. */
  lemma SecondEditUndoesNewSession(count: int, lastEditTime: int, stored: ReportFile, t1: int, t2: int,
                                   ind: seq<IndividualChange>, git: seq<GitChange>)
    requires stored.numSessions.Some? && stored.numSessions.value != 0
    requires stored.sessions.Some? && stored.numSessions.value in stored.sessions.value
    requires t1 - lastEditTime > SessionGap
    ensures var k := stored.numSessions.value;
      && SessionCountAfterEdit(count, lastEditTime, false, Some(stored), t1) == k + 1
      && SessionCountAfterEdit(k + 1, t1, true, Some(stored), t2) == k
      && SavedReport(stored, k, ind, git).sessions == stored.sessions
  {
  }

  /** The counter the session rule evidently intends: the stored count is
      adopted only by the edit that opens a run (nothing unsaved yet), so the
      later edits of the run keep the session it opened. */
  function IntendedSessionCountAfterEdit(count: int, lastEditTime: int, unsaved: bool, stored: Option<ReportFile>,
                                         now: int): int {
    if unsaved then count
    else
      var current := StoredCount(stored).GetOr(count);
      if now - lastEditTime > SessionGap then current + 1 else current
  }

  /** With the intended counter, a run opened after a gap over a report whose
      sessions go up to its stored count `k` keeps session `k + 1` through its
      later edits, and saving stores the run's changes there. */
  lemma IntendedSessionKeepsRun(count: int, lastEditTime: int, stored: ReportFile, t1: int, t2: int,
                                ind: seq<IndividualChange>, git: seq<GitChange>)
    requires stored.numSessions.Some? && stored.numSessions.value != 0
    requires stored.sessions.Some? && forall j :: j in stored.sessions.value ==> j <= stored.numSessions.value
    requires t1 - lastEditTime > SessionGap
    ensures var k := stored.numSessions.value;
      var n := IntendedSessionCountAfterEdit(count, lastEditTime, false, Some(stored), t1);
      && n == k + 1
      && IntendedSessionCountAfterEdit(n, t1, true, Some(stored), t2) == n
      && SavedReport(stored, n, ind, git).sessions.value[n] == Session(ind, git)
  {
    var k := stored.numSessions.value;
    assert k + 1 !in Sessions(stored);
  }

  /** The stored sessions, none when the report has no `sessions` object. */
  function Sessions(report: ReportFile): map<int, Session> {
    report.sessions.GetOr(map[])
  }

  /** The report `saveToJson` writes over `existing` for session `n`: the
      count becomes `n`, every stored session is kept as it was, and session
      `n` holds the run's changes only when it was not stored yet. */
  function SavedReport(existing: ReportFile, n: int, ind: seq<IndividualChange>, git: seq<GitChange>): (r: ReportFile)
    ensures r.numSessions == Some(n) && r.sessions.Some?
    ensures r.sessions.value.Keys == Sessions(existing).Keys + {n}
    ensures forall k :: k in Sessions(existing) ==> r.sessions.value[k] == Sessions(existing)[k]
    ensures n !in Sessions(existing) ==> r.sessions.value[n] == Session(ind, git)
  {
    var sessions := Sessions(existing);
    var sessions' := if n in sessions then sessions else sessions[n := Session(ind, git)];
    ReportFile(Some(n), Some(sessions'))
  }

  /** Saving again with the same session number changes nothing further. */
  lemma SaveIsIdempotent(existing: ReportFile, n: int, ind: seq<IndividualChange>, git: seq<GitChange>,
                         ind': seq<IndividualChange>, git': seq<GitChange>)
    ensures var once := SavedReport(existing, n, ind, git); SavedReport(once, n, ind', git') == once
  {
    var once := SavedReport(existing, n, ind, git);
    var twice := SavedReport(once, n, ind', git');
    assert Sessions(twice) == Sessions(once);
  }

  /** The report path for a document: `<dir>/<name>_report.json` for
      `<dir>/<name>.<ext>`. */
  function ReportPathFor(fileName: string): string {
    NodePath.Join(NodePath.Dirname(fileName), NodePath.BasenameWithoutExt(fileName) + "_report.json")
  }

  /** For `<dir>/<name>.<ext>` the report is `<dir>/<name>_report.json`. */
  lemma ReportPathOfFile(dir: string, name: string, ext: string)
    requires dir != "" && dir[|dir| - 1] != '/' && name != ""
    requires '/' !in name && '/' !in ext && '.' !in ext
    ensures ReportPathFor(dir + "/" + name + "." + ext) == dir + "/" + name + "_report.json"
  {
    var b := name + "." + ext;
    NoSlashInBase(name, ext);
    SplitAtLastSlash(dir, b);
    assert dir + "/" + name + "." + ext == dir + "/" + b;
    StripExtension(dir + "/" + b, name, ext);
    ReportPathFromParts(dir + "/" + b, dir, name);
  }

  lemma NoSlashInBase(name: string, ext: string)
    requires '/' !in name && '/' !in ext
    ensures '/' !in name + "." + ext
  {
    assert forall x :: x in name + "." + ext ==> x in name || x == '.' || x in ext;
  }

  lemma ReportPathFromParts(f: string, dir: string, name: string)
    requires NodePath.Dirname(f) == dir && NodePath.BasenameWithoutExt(f) == name
    ensures ReportPathFor(f) == dir + "/" + name + "_report.json"
  {
  }

  lemma SplitAtLastSlash(dir: string, base: string)
    requires dir != "" && dir[|dir| - 1] != '/' && base != "" && '/' !in base
    ensures NodePath.Dirname(dir + "/" + base) == dir && NodePath.Basename(dir + "/" + base) == base
  {
    NodePath.DirnameOfJoin(dir, base);
    NodePath.BasenameOfJoin(dir, base);
  }

  lemma StripExtension(f: string, name: string, ext: string)
    requires NodePath.Basename(f) == name + "." + ext
    requires name != "" && '.' !in ext
    ensures NodePath.BasenameWithoutExt(f) == name
  {
    var b := name + "." + ext;
    assert b == name + ['.'] + ext;
    NodePath.LastIndexAfter(name, '.', ext);
    assert NodePath.Extname(f) == b[|name|..];
    assert b[..|b| - |b[|name|..]|] == name;
  }

  // ---------------------------------------------------------------------------
  // The tracker
  // ---------------------------------------------------------------------------

  class ChangeTracker {
    var individualChanges: seq<IndividualChange>
    var gitChanges: seq<GitChange>
    /** The report file of the last edited document, `None` before any edit. */
    var filePath: Option<string>
    var numSessions: int
    /** Time of the last edit, in milliseconds. */
    var lastEditTime: int
    var unsavedChanges: bool

    constructor ()
      ensures individualChanges == [] && gitChanges == [] && filePath == None
      ensures numSessions == 1 && lastEditTime == 0 && !unsavedChanges
    {
      individualChanges, gitChanges, filePath := [], [], None;
      numSessions, lastEditTime, unsavedChanges := 1, 0, false;
    }

    /** The document change handler. `activeFile` is the file name of the
        active editor's document (`None` without one), `stored` the report
        found at its report path (`None` when absent or unreadable), `now` the
        clock in milliseconds. */
    method OnDidChangeTextDocument(activeFile: Option<string>, stored: Option<ReportFile>, now: int,
                                   changes: seq<ObservedChange>)
      modifies this
      ensures activeFile.None? ==>
        && individualChanges == old(individualChanges) && gitChanges == old(gitChanges)
        && filePath == old(filePath) && numSessions == old(numSessions)
        && lastEditTime == old(lastEditTime) && unsavedChanges == old(unsavedChanges)
      ensures activeFile.Some? ==>
        && filePath == Some(ReportPathFor(activeFile.value))
        && numSessions == SessionCountAfterEdit(old(numSessions), old(lastEditTime), old(unsavedChanges), stored, now)
        && lastEditTime == now && unsavedChanges
        && individualChanges == old(individualChanges) + IndividualLog(changes)
        && gitChanges == old(gitChanges) + GitLog(changes)
    {
      if activeFile.None? {
        return;
      }
      filePath := Some(ReportPathFor(activeFile.value));
      var count := StoredCount(stored);
      if count.Some? {
        numSessions := count.value;
      }
      var timeSinceLastEdit := now - lastEditTime;
      if !unsavedChanges && timeSinceLastEdit > SessionGap {
        numSessions := numSessions + 1;
      }
      lastEditTime := now;
      unsavedChanges := true;

      RecordChanges(changes);
    }

    /** The `forEach` over the content changes: each change's record, if any,
        is appended to its list. */
    method RecordChanges(changes: seq<ObservedChange>)
      modifies this`individualChanges, this`gitChanges
      ensures individualChanges == old(individualChanges) + IndividualLog(changes)
      ensures gitChanges == old(gitChanges) + GitLog(changes)
    {
      assert changes[..0] == [];
      for i := 0 to |changes|
        invariant individualChanges == old(individualChanges) + IndividualLog(changes[..i])
        invariant gitChanges == old(gitChanges) + GitLog(changes[..i])
      {
        LogsSnoc(changes, i);
        match Classify(changes[i])
        case GitRecord(g) =>
          gitChanges := gitChanges + [g];
        case IndividualRecord(e) =>
          individualChanges := individualChanges + [e];
        case NoRecord =>
      }
      assert changes[..|changes|] == changes;
    }

    /** `saveToJson`: `stored` is the report at `filePath` (`None` when absent
        or unreadable); `written` is the report written back, `None` when no
        document was edited yet. The run's changes are cleared afterwards. */
    method SaveToJson(stored: Option<ReportFile>) returns (written: Option<ReportFile>)
      modifies this
      ensures old(filePath).None? || old(filePath).value == "" ==>
        && written == None
        && individualChanges == old(individualChanges) && gitChanges == old(gitChanges)
        && unsavedChanges == old(unsavedChanges)
      ensures old(filePath).Some? && old(filePath).value != "" ==>
        && written == Some(SavedReport(stored.GetOr(ReportFile(Some(old(numSessions)), Some(map[]))),
                                       old(numSessions), old(individualChanges), old(gitChanges)))
        && individualChanges == [] && gitChanges == [] && !unsavedChanges
      ensures filePath == old(filePath) && numSessions == old(numSessions) && lastEditTime == old(lastEditTime)
    {
      if filePath.None? || filePath.value == "" {
        return None;
      }
      var existingData := stored.GetOr(ReportFile(Some(numSessions), Some(map[])));
      written := Some(SavedReport(existingData, numSessions, individualChanges, gitChanges));
      individualChanges := [];
      gitChanges := [];
      unsavedChanges := false;
    }
  }
}
