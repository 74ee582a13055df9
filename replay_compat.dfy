/** What the timeline viewer of `timeline_viewer.py` makes of the report files
    the structured recorder of `DetailedChangeTracker.ts` writes. The recorder
    writes ranges as `line:character-line:character`; the viewer splits a
    range on `-` and hands both halves to `int()`, which refuses the `:`, so
    every recorded range decodes to `(0, 0)` and every recorded edit is
    replayed at the start of the text. */
module RecorderReplay {
  import opened Wrappers
  import TimelineViewer
  import DetailedChangeTracking

  /** The fields of a recorded event the viewer reads. */
  function ToViewerRecord(e: DetailedChangeTracking.LogEvent): (r: TimelineViewer.LogRecord)
    ensures r.event == Some(DetailedChangeTracking.KindName(e.event))
    ensures r.range == e.range && r.inserted == e.inserted
  {
    TimelineViewer.LogRecord(Some(DetailedChangeTracking.KindName(e.event)), e.range, e.inserted)
  }

  function ToViewerRecords(events: seq<DetailedChangeTracking.LogEvent>): (rs: seq<TimelineViewer.LogRecord>)
    ensures |rs| == |events|
    ensures forall i :: 0 <= i < |events| ==> rs[i] == ToViewerRecord(events[i])
  {
    seq(|events|, i requires 0 <= i < |events| => ToViewerRecord(events[i]))
  }

  /** No range the recorder writes is decoded by the viewer. */
  lemma RecorderRangeNotDecoded(r: DetailedChangeTracking.Range)
    ensures TimelineViewer.ParseRange(DetailedChangeTracking.FormatRange(r)) == (0, 0)
  {
    DetailedChangeTracking.FormatRangeHasColon(r);
    TimelineViewer.ParseRangeRejectsColon(DetailedChangeTracking.FormatRange(r));
  }

  /** The text a recorded change puts in front of the replayed state. */
  function ReplayedPrefix(change: DetailedChangeTracking.ContentChange): string {
    if change.rangeLength > 0 && change.text == "" then "" else change.text
  }

  /** A recorded content change replays at offset 0: a deletion leaves the
      state as it was, an insertion or overwrite puts its text in front. */
  lemma RecordedChangeReplaysAtStart(state: string, change: DetailedChangeTracking.ContentChange, timestamp: string)
    ensures TimelineViewer.ApplyEvent(state, ToViewerRecord(DetailedChangeTracking.ChangeEvent(change, timestamp)))
         == ReplayedPrefix(change) + state
  {
    var e := DetailedChangeTracking.ChangeEvent(change, timestamp);
    RecorderRangeNotDecoded(change.range);
    assert TimelineViewer.Positions(ToViewerRecord(e)) == (0, 0);
    assert TimelineViewer.Take(state, 0) == "" && TimelineViewer.Drop(state, 0) == state;
  }

  /** INITIAL, SELECTION, UNDO, REDO and CUT events leave the replayed text
      unchanged, so the viewer never sees a document's initial content. */
  lemma OtherEventsReplayAsNothing(state: string, e: DetailedChangeTracking.LogEvent)
    requires e.event !in {DetailedChangeTracking.Insertion, DetailedChangeTracking.Deletion, DetailedChangeTracking.Overwrite}
    ensures TimelineViewer.ApplyEvent(state, ToViewerRecord(e)) == state
    ensures !TimelineViewer.IsEdit(ToViewerRecord(e).event)
  {
  }

  /** The replayed text after the events of `changes`, starting from `state`:
      each change puts its text in front, later changes further in front. */
  function ReplayedChanges(state: string, changes: seq<DetailedChangeTracking.ContentChange>): string
    decreases |changes|
  {
    if changes == [] then state else ReplayedChanges(ReplayedPrefix(changes[0]) + state, changes[1..])
  }

  /** The viewer's replay of one handler call's events is `ReplayedChanges`. */
  lemma {:induction false} ReplayOfChangeEvents(state: string, changes: seq<DetailedChangeTracking.ContentChange>,
                                                timestamp: string)
    ensures TimelineViewer.ReplayFrom(state, ToViewerRecords(DetailedChangeTracking.ChangeEvents(changes, timestamp)))
         == ReplayedChanges(state, changes)
    decreases |changes|
  {
    var records := ToViewerRecords(DetailedChangeTracking.ChangeEvents(changes, timestamp));
    if changes != [] {
      RecordedChangeReplaysAtStart(state, changes[0], timestamp);
      TimelineViewer.StepIsApplyEvent(state, records[0]);
      var rest := ToViewerRecords(DetailedChangeTracking.ChangeEvents(changes[1..], timestamp));
      assert records[1..] == rest;
      ReplayOfChangeEvents(ReplayedPrefix(changes[0]) + state, changes[1..], timestamp);
    }
  }
}
