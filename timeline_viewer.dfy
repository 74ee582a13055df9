/** The typing-session replay of `timeline_viewer.py`: decoding a
    `"start-end"` offset pair, applying one logged edit to a flat string with
    Python slice semantics, and folding the log into one snapshot per event. */
module TimelineViewer {
  import opened Wrappers
  import opened Decimal
  import opened Strings

  // ---------------------------------------------------------------------------
  // Python's int() on a str (decimal base)
  // ---------------------------------------------------------------------------

  /** The characters `int()` skips before and after its digits. Below 128
      these are only tab, line feed, vertical tab, form feed, carriage return
      and space: `int()` passes the other ASCII characters through unchanged,
      so the information separators U+001C to U+001F, which `str.strip()`
      would remove, make it fail. Above 127 they are the characters Python
      counts as white space, which `int()` first turns into spaces. */
  predicate IsPySpace(c: char) {
    var n := c as int;
    (9 <= n <= 13) || n == 32 || n == 0x85 || n == 0xA0 || n == 0x1680
    || (0x2000 <= n <= 0x200A) || n == 0x2028 || n == 0x2029 || n == 0x202F
    || n == 0x205F || n == 0x3000
  }

  /** `s` without its leading white space. */
  function StripLeading(s: string): string {
    if |s| > 0 && IsPySpace(s[0]) then StripLeading(s[1..]) else s
  }

  /** `s` without its trailing white space. */
  function StripTrailing(s: string): string {
    if |s| > 0 && IsPySpace(s[|s| - 1]) then StripTrailing(s[..|s| - 1]) else s
  }

  /** Stripping the front leaves a suffix of `s` that does not start with
      white space, and everything it dropped was white space. */
  lemma {:induction false} StripLeadingIsSuffix(s: string)
    ensures var r := StripLeading(s);
      && |r| <= |s| && r == s[|s| - |r|..]
      && (forall k :: 0 <= k < |s| - |r| ==> IsPySpace(s[k]))
      && (|r| > 0 ==> !IsPySpace(r[0]))
  {
    if |s| > 0 && IsPySpace(s[0]) {
      StripLeadingIsSuffix(s[1..]);
    }
  }

  /** Stripping the back leaves a prefix of `s` that does not end with white
      space, and everything it dropped was white space. */
  lemma {:induction false} StripTrailingIsPrefix(s: string)
    ensures var r := StripTrailing(s);
      && |r| <= |s| && r == s[..|r|]
      && (forall k :: |r| <= k < |s| ==> IsPySpace(s[k]))
      && (|r| > 0 ==> !IsPySpace(r[|r| - 1]))
  {
    if |s| > 0 && IsPySpace(s[|s| - 1]) {
      StripTrailingIsPrefix(s[..|s| - 1]);
      assert s[..|s| - 1][..|StripTrailing(s)|] == s[..|StripTrailing(s)|];
    }
  }

  /** `s` without the white space `int()` skips around it. */
  function PyStrip(s: string): string {
    StripTrailing(StripLeading(s))
  }

  /** A digit string as `int()` accepts it: digits, with single underscores
      allowed between two digits. */
  predicate IsPyDigitGroup(t: string) {
    && |t| > 0
    && IsDigit(t[0])
    && IsDigit(t[|t| - 1])
    && (forall i :: 0 <= i < |t| ==> IsDigit(t[i]) || t[i] == '_')
    && NoDoubleUnderscore(t)
  }

  predicate NoDoubleUnderscore(t: string) {
    |t| < 2 || (!(t[0] == '_' && t[1] == '_') && NoDoubleUnderscore(t[1..]))
  }

  function RemoveUnderscores(t: string): (r: string)
    requires forall i :: 0 <= i < |t| ==> IsDigit(t[i]) || t[i] == '_'
    ensures AllDigits(r)
  {
    if t == [] then []
    else if t[0] == '_' then RemoveUnderscores(t[1..])
    else [t[0]] + RemoveUnderscores(t[1..])
  }

  function PyUnsigned(t: string): Option<nat> {
    if IsPyDigitGroup(t) then Some(DigitsValue(RemoveUnderscores(t))) else None
  }

  /** `int(s)`: `None` where Python raises ValueError. */
  function PyInt(s: string): Option<int> {
    var t := PyStrip(s);
    if |t| > 0 && (t[0] == '+' || t[0] == '-') then
      match PyUnsigned(t[1..])
      case None => None
      case Some(v) => var n: int := v; Some(if t[0] == '-' then -n else n)
    else
      match PyUnsigned(t)
      case None => None
      case Some(v) => Some(v)
  }

  /** A character that is not white space survives stripping. */
  lemma StripKeeps(s: string, k: nat)
    requires k < |s| && !IsPySpace(s[k])
    ensures s[k] in PyStrip(s)
  {
    var l := StripLeading(s);
    StripLeadingIsSuffix(s);
    assert l[k - (|s| - |l|)] == s[k];
    var t := StripTrailing(l);
    StripTrailingIsPrefix(l);
    assert t[k - (|s| - |l|)] == s[k];
  }

  /** Whatever stripping leaves was already in the string. */
  lemma StripDrops(s: string, c: char)
    requires c in PyStrip(s)
    ensures c in s
  {
    var l := StripLeading(s);
    var t := StripTrailing(l);
    StripLeadingIsSuffix(s);
    StripTrailingIsPrefix(l);
    var k :| 0 <= k < |t| && t[k] == c;
    assert l[k] == c;
    assert s[|s| - |l| + k] == c;
  }

  /** A field without a minus sign never decodes to a negative number. */
  lemma PyIntWithoutMinus(s: string)
    requires '-' !in s
    ensures PyInt(s).Some? ==> PyInt(s).value >= 0
  {
    var t := PyStrip(s);
    if |t| > 0 && t[0] == '-' {
      StripDrops(s, '-');
    }
  }

  /** A field holding a character that is neither white space, a digit, a
      sign nor an underscore (a colon, say) is rejected. */
  lemma PyIntRejects(s: string, k: nat)
    requires k < |s|
    requires !IsPySpace(s[k]) && !IsDigit(s[k]) && s[k] !in "+-_"
    ensures PyInt(s) == None
  {
    StripKeeps(s, k);
    var t := PyStrip(s);
    var j :| 0 <= j < |t| && t[j] == s[k];
    if |t| > 0 && (t[0] == '+' || t[0] == '-') {
      assert j > 0;
      assert t[1..][j - 1] == s[k];
    }
  }

  lemma {:induction false} DigitsAreGrouped(t: string)
    requires AllDigits(t)
    ensures RemoveUnderscores(t) == t
    ensures NoDoubleUnderscore(t)
  {
    if t != [] {
      DigitsAreGrouped(t[1..]);
    }
  }

  /** `int(str(n)) == n`. */
  lemma PyIntOfNatToString(n: nat)
    ensures PyInt(NatToString(n)) == Some(n)
  {
    var s := NatToString(n);
    DigitsAreGrouped(s);
    assert IsDigit(s[0]) && IsDigit(s[|s| - 1]);
    assert StripLeading(s) == s;
    assert StripTrailing(s) == s;
    assert PyStrip(s) == s;
    assert IsPyDigitGroup(s);
    DigitsValueOfNatToString(n);
    assert PyUnsigned(s) == Some(n);
  }

  // ---------------------------------------------------------------------------
  // parse_range
  // ---------------------------------------------------------------------------

  /** `parse_range`: the two integer fields of `"start-end"`, or `(0, 0)` when
      the string does not split on `-` into exactly two fields `int()`
      accepts. Since every `-` is consumed as a separator, neither field can
      carry a minus sign. */
  function ParseRange(rangeStr: string): (r: (int, int))
    ensures r.0 >= 0 && r.1 >= 0
  {
    var parts := Split(rangeStr, '-');
    if |parts| != 2 then (0, 0)
    else
      PyIntWithoutMinus(parts[0]);
      PyIntWithoutMinus(parts[1]);
      match (PyInt(parts[0]), PyInt(parts[1]))
      case (Some(start), Some(end)) => (start, end)
      case _ => (0, 0)
  }

  /** The decimal pair `"a-b"` decodes to `(a, b)`. */
  lemma ParseRangeRoundTrip(a: nat, b: nat)
    ensures ParseRange(NatToString(a) + "-" + NatToString(b)) == (a, b)
  {
    var sa, sb := NatToString(a), NatToString(b);
    assert '-' !in sa && '-' !in sb;
    SplitAtFirstSeparator(sa, '-', sb);
    SplitWithoutSeparator(sb, '-');
    assert sa + "-" + sb == sa + ['-'] + sb;
    PyIntOfNatToString(a);
    PyIntOfNatToString(b);
  }

  /** A string that does not split into exactly two fields decodes to `(0, 0)`. */
  lemma ParseRangeWrongFieldCount(rangeStr: string)
    requires Count(rangeStr, '-') != 1
    ensures ParseRange(rangeStr) == (0, 0)
  {
  }

  /** Among the ASCII characters, `int()` skips exactly tab, line feed,
      vertical tab, form feed, carriage return and space. */
  lemma AsciiPySpaces(c: char)
    requires c as int < 128
    ensures IsPySpace(c) <==> c in "\t\n\U{B}\U{C}\r "
  {
  }

  /** A string holding a character that no field of `int()` may contain
      always decodes to `(0, 0)`. */
  lemma ParseRangeRejectsForeign(rangeStr: string, k: nat)
    requires k < |rangeStr|
    requires !IsPySpace(rangeStr[k]) && !IsDigit(rangeStr[k]) && rangeStr[k] !in "+-_"
    ensures ParseRange(rangeStr) == (0, 0)
  {
    var c := rangeStr[k];
    var parts := Split(rangeStr, '-');
    if |parts| == 2 {
      SplitKeepsCharacter(rangeStr, '-', c);
      var i :| 0 <= i < |parts| && c in parts[i];
      var j :| 0 <= j < |parts[i]| && parts[i][j] == c;
      PyIntRejects(parts[i], j);
    }
  }

  /** A field padded with an information separator is not decoded:
      `parse_range("\x1c5-7")` falls back to `(0, 0)`. */
  lemma ParseRangeRejectsSeparatorPadding()
    ensures ParseRange("\U{1C}5-7") == (0, 0)
  {
    ParseRangeRejectsForeign("\U{1C}5-7", 0);
  }

  /** A string containing a colon (such as the `"L:C-L:C"` ranges of the
      editor-side recorder) always decodes to `(0, 0)`. */
  lemma ParseRangeRejectsColon(rangeStr: string)
    requires ':' in rangeStr
    ensures ParseRange(rangeStr) == (0, 0)
  {
    var k :| 0 <= k < |rangeStr| && rangeStr[k] == ':';
    ParseRangeRejectsForeign(rangeStr, k);
  }

  // ---------------------------------------------------------------------------
  // apply_event
  // ---------------------------------------------------------------------------

  /** One entry of the report's `logs` list, as the viewer reads it: the
      `event`, `range` and `inserted` fields, each possibly absent. */
  datatype LogRecord = LogRecord(event: Option<string>, range: Option<string>, inserted: Option<string>)

  function Min(a: nat, b: nat): nat {
    if a <= b then a else b
  }

  /** `s[:i]` for `i >= 0`. */
  function Take(s: string, i: nat): string {
    s[..Min(i, |s|)]
  }

  /** `s[i:]` for `i >= 0`. */
  function Drop(s: string, i: nat): string {
    s[Min(i, |s|)..]
  }

  /** The `(start, end)` an event acts at: its decoded `range`, or `(0, 0)`
      when it has none. */
  function Positions(e: LogRecord): (r: (int, int))
    ensures r.0 >= 0 && r.1 >= 0
    ensures e.range.None? ==> r == (0, 0)
  {
    if e.range.Some? then ParseRange(e.range.value) else (0, 0)
  }

  /** `event.get("inserted", "")`. */
  function InsertedText(e: LogRecord): string {
    e.inserted.GetOr("")
  }

  predicate IsEdit(kind: Option<string>) {
    kind == Some("INSERTION") || kind == Some("DELETION") || kind == Some("OVERWRITE")
  }

  /** `apply_event`. */
  function ApplyEvent(state: string, e: LogRecord): string {
    var p := Positions(e);
    var start, end := p.0, p.1;
    if e.event == Some("INSERTION") then
      Take(state, start) + InsertedText(e) + Drop(state, start)
    else if e.event == Some("DELETION") then
      Take(state, start) + Drop(state, end)
    else if e.event == Some("OVERWRITE") then
      Take(state, start) + InsertedText(e) + Drop(state, end)
    else
      state
  }

  /** INSERTION puts the inserted text at `start` (clamped to the end of the
      state): the text before and after that point is kept, and the length
      grows by exactly the inserted length. */
  lemma InsertionSplices(state: string, e: LogRecord)
    requires e.event == Some("INSERTION")
    ensures var r, ins, at := ApplyEvent(state, e), InsertedText(e), Min(Positions(e).0, |state|);
      && |r| == |state| + |ins|
      && r[..at] == state[..at]
      && r[at..at + |ins|] == ins
      && r[at + |ins|..] == state[at..]
    ensures Positions(e).0 >= |state| ==> ApplyEvent(state, e) == state + InsertedText(e)
    ensures e.inserted.None? ==> ApplyEvent(state, e) == state
  {
    var r, ins, at := ApplyEvent(state, e), InsertedText(e), Min(Positions(e).0, |state|);
    assert r == state[..at] + ins + state[at..];
    assert r[..at] == state[..at];
    assert r[at..at + |ins|] == ins;
    assert r[at + |ins|..] == state[at..];
  }

  /** DELETION of an in-bounds span `[start, end)` keeps the text before
      `start` and from `end` on, and shortens the state by `end - start`. */
  lemma DeletionRemovesSpan(state: string, e: LogRecord)
    requires e.event == Some("DELETION")
    requires Positions(e).0 <= Positions(e).1 <= |state|
    ensures var r, start, end := ApplyEvent(state, e), Positions(e).0, Positions(e).1;
      && |r| == |state| - (end - start)
      && r[..start] == state[..start]
      && r[start..] == state[end..]
  {
  }

  /** DELETION with `end < start` does not shorten the state: slicing
      repeats the characters in between. */
  lemma DeletionBackwardsRepeats(state: string, e: LogRecord)
    requires e.event == Some("DELETION")
    requires Positions(e).1 < Positions(e).0 <= |state|
    ensures |ApplyEvent(state, e)| == |state| + (Positions(e).0 - Positions(e).1)
  {
  }

  /** With `start` inside the state, OVERWRITE is DELETION of the same range
      followed by INSERTION of the same text at the same range. */
  lemma OverwriteIsDeleteThenInsert(state: string, range: Option<string>, inserted: Option<string>)
    requires Positions(LogRecord(Some("OVERWRITE"), range, inserted)).0 <= |state|
    ensures ApplyEvent(state, LogRecord(Some("OVERWRITE"), range, inserted))
         == ApplyEvent(ApplyEvent(state, LogRecord(Some("DELETION"), range, None)),
                       LogRecord(Some("INSERTION"), range, inserted))
  {
    var p := Positions(LogRecord(Some("OVERWRITE"), range, inserted));
    var start := p.0;
    var deleted := ApplyEvent(state, LogRecord(Some("DELETION"), range, None));
    assert deleted == state[..start] + Drop(state, p.1);
    assert Take(deleted, start) == state[..start];
    assert Drop(deleted, start) == Drop(state, p.1);
  }

  /** Every event kind other than the three edits leaves the state as it was. */
  lemma NonEditKeepsState(state: string, e: LogRecord)
    requires !IsEdit(e.event)
    ensures ApplyEvent(state, e) == state
  {
  }

  // ---------------------------------------------------------------------------
  // build_states
  // ---------------------------------------------------------------------------

  /** One step of the fold in `build_states`: only the three edit kinds are
      handed to `apply_event`. */
  function Step(state: string, e: LogRecord): string {
    if IsEdit(e.event) then ApplyEvent(state, e) else state
  }

  /** The filter in `build_states` changes nothing: `apply_event` already
      ignores every other kind. */
  lemma StepIsApplyEvent(state: string, e: LogRecord)
    ensures Step(state, e) == ApplyEvent(state, e)
  {
  }

  /** The state reached from `state` by replaying `events` in order. */
  function ReplayFrom(state: string, events: seq<LogRecord>): string
    decreases |events|
  {
    if events == [] then state else ReplayFrom(Step(state, events[0]), events[1..])
  }

  /** Replaying one more event is one more step. */
  lemma {:induction false} ReplayFromSnoc(state: string, events: seq<LogRecord>, e: LogRecord)
    ensures ReplayFrom(state, events + [e]) == Step(ReplayFrom(state, events), e)
    decreases |events|
  {
    if events != [] {
      assert (events + [e])[1..] == events[1..] + [e];
      ReplayFromSnoc(Step(state, events[0]), events[1..], e);
    }
  }

  /** Replaying a concatenation replays the first log, then the second. */
  lemma {:induction false} ReplayFromAppend(state: string, first: seq<LogRecord>, second: seq<LogRecord>)
    ensures ReplayFrom(state, first + second) == ReplayFrom(ReplayFrom(state, first), second)
    decreases |first|
  {
    if first == [] {
      assert first + second == second;
    } else {
      assert (first + second)[0] == first[0];
      assert (first + second)[1..] == first[1..] + second;
      ReplayFromAppend(Step(state, first[0]), first[1..], second);
    }
  }

  /** Appending the replay of one more event keeps the snapshots the
      replays of the prefixes. */
  lemma ExtendReplayedPrefixes(events: seq<LogRecord>, states: seq<string>, k: nat, state: string)
    requires k < |events| && |states| == k + 1
    requires forall i :: 0 <= i <= k ==> states[i] == ReplayFrom("", events[..i])
    requires state == Step(states[k], events[k])
    ensures forall i :: 0 <= i <= k + 1 ==> (states + [state])[i] == ReplayFrom("", events[..i])
  {
    forall i | 0 <= i <= k + 1
      ensures (states + [state])[i] == ReplayFrom("", events[..i])
    {
      if i <= k {
        assert (states + [state])[i] == states[i];
      } else {
        ReplayFromSnoc("", events[..k], events[k]);
        assert events[..k + 1] == events[..k] + [events[k]];
      }
    }
  }

  /** Consecutive replayed prefixes are one step apart. */
  lemma ReplayedPrefixesStep(events: seq<LogRecord>, states: seq<string>)
    requires |states| == |events| + 1
    requires forall i :: 0 <= i <= |events| ==> states[i] == ReplayFrom("", events[..i])
    ensures forall i :: 0 <= i < |events| ==>
      states[i + 1] == (if IsEdit(events[i].event) then ApplyEvent(states[i], events[i]) else states[i])
  {
    forall i | 0 <= i < |events|
      ensures states[i + 1] == Step(states[i], events[i])
    {
      ReplayFromSnoc("", events[..i], events[i]);
      assert events[..i + 1] == events[..i] + [events[i]];
    }
  }

  /** `build_states`: one snapshot per event plus the empty baseline; each
      snapshot is the previous one with the event applied when it is an edit,
      and is the replay of the events before it from the empty string. */
  method BuildStates(events: seq<LogRecord>) returns (states: seq<string>)
    ensures |states| == |events| + 1
    ensures states[0] == ""
    ensures forall i :: 0 <= i < |events| ==>
      states[i + 1] == (if IsEdit(events[i].event) then ApplyEvent(states[i], events[i]) else states[i])
    ensures forall i :: 0 <= i <= |events| ==> states[i] == ReplayFrom("", events[..i])
  {
    var state := "";
    states := [state];
    for k := 0 to |events|
      invariant |states| == k + 1 && states[k] == state
      invariant forall i :: 0 <= i <= k ==> states[i] == ReplayFrom("", events[..i])
    {
      var event := events[k];
      if IsEdit(event.event) {
        state := ApplyEvent(state, event);
      }
      ExtendReplayedPrefixes(events, states, k, state);
      states := states + [state];
    }
    ReplayedPrefixesStep(events, states);
  }
}
