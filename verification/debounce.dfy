/**
 * The change debouncer of `didChangeText`: a single slot holding the
 * deadline of the pending analysis. The run loop is modelled by
 * `AdvanceClock`, which runs the analysis once its deadline has come.
 */
module Debounce {
  import opened Wrappers

  newtype KeyCode = x: int | 0 <= x < 0x1_0000

  /** Virtual key codes of the keys that cancel the pending analysis. */
  const DeleteKey: KeyCode := 0x33
  const EscapeKey: KeyCode := 0x35
  const LeftArrowKey: KeyCode := 0x7B
  const RightArrowKey: KeyCode := 0x7C
  const DownArrowKey: KeyCode := 0x7D
  const UpArrowKey: KeyCode := 0x7E

  /** Delay, in seconds, between the last change and the analysis. */
  const AnalysisDelay: real := 0.7

  /** The window's current event; only key-down events carry a key code. */
  datatype Event = KeyDown(keyCode: KeyCode) | OtherEvent

  /** `pending` is the deadline of the scheduled analysis, if any;
      `analysesRun` counts the analyses that have fired. */
  datatype Debouncer = Debouncer(pending: Option<real>, analysesRun: nat)

  predicate IsCancellingKey(k: KeyCode) {
    k == EscapeKey || k == DeleteKey || k == UpArrowKey || k == DownArrowKey
    || k == LeftArrowKey || k == RightArrowKey
  }

  /** A key-down of a navigation or deletion key; no event at all does not cancel. */
  predicate CancelsAnalysis(currentEvent: Option<Event>) {
    currentEvent.Some? && currentEvent.value.KeyDown? && IsCancellingKey(currentEvent.value.keyCode)
  }

  /**
   * The analysis is cancelled by a key-down of Delete (0x33), Escape (0x35)
   * or one of the arrow keys (0x7B to 0x7E), and by nothing else: no
   * current event and any other kind of event leave it scheduled.
   */
  lemma CancelsAnalysisCases(currentEvent: Option<Event>)
    ensures CancelsAnalysis(currentEvent) <==>
      && currentEvent.Some? && currentEvent.value.KeyDown?
      && var k := currentEvent.value.keyCode as int;
         k == 0x33 || k == 0x35 || 0x7B <= k <= 0x7E
  {
  }

  function DidChangeText(d: Debouncer, currentEvent: Option<Event>, now: real): (r: Debouncer)
    ensures CancelsAnalysis(currentEvent) ==> r.pending.None?
    ensures !CancelsAnalysis(currentEvent) ==> r.pending == Some(now + AnalysisDelay)
    ensures r.analysesRun == d.analysesRun
  {
    if CancelsAnalysis(currentEvent) then d.(pending := None)
    else d.(pending := Some(now + AnalysisDelay))
  }

  /** The run loop reaching time `now`: a due analysis fires and leaves the slot. */
  function AdvanceClock(d: Debouncer, now: real): (r: Debouncer)
    ensures d.pending.Some? && d.pending.value <= now ==>
      r.pending.None? && r.analysesRun == d.analysesRun + 1
    ensures !(d.pending.Some? && d.pending.value <= now) ==> r == d
  {
    match d.pending
    case Some(deadline) =>
      if deadline <= now then Debouncer(None, d.analysesRun + 1) else d
    case None => d
  }

  /** A text change at time `at`, under the event current at that moment. */
  datatype Edit = Edit(at: real, currentEvent: Option<Event>)

  /** Runs the edits in order; before each, the run loop has reached its time. */
  function Replay(d: Debouncer, edits: seq<Edit>): Debouncer
    decreases |edits|
  {
    if |edits| == 0 then d
    else Replay(DidChangeText(AdvanceClock(d, edits[0].at), edits[0].currentEvent, edits[0].at), edits[1..])
  }

  /** Ordinary edits, each arriving before the previous one's analysis would fire. */
  ghost predicate IsBurst(edits: seq<Edit>) {
    && |edits| >= 1
    && (forall k :: 0 <= k < |edits| ==> !CancelsAnalysis(edits[k].currentEvent))
    && (forall k :: 0 <= k < |edits| - 1 ==> edits[k + 1].at < edits[k].at + AnalysisDelay)
  }

  /** Nothing is due at time `t`. */
  predicate NotDueAt(d: Debouncer, t: real) {
    d.pending.None? || t < d.pending.value
  }

  /** A burst runs no analysis and leaves exactly one pending, due 0.7 after its last edit. */
  lemma {:induction false} BurstDefersAnalysis(d: Debouncer, edits: seq<Edit>)
    requires IsBurst(edits)
    requires NotDueAt(d, edits[0].at)
    ensures Replay(d, edits).analysesRun == d.analysesRun
    ensures Replay(d, edits).pending == Some(edits[|edits| - 1].at + AnalysisDelay)
    decreases |edits|
  {
    var next := DidChangeText(AdvanceClock(d, edits[0].at), edits[0].currentEvent, edits[0].at);
    if |edits| > 1 {
      assert edits[1..][0] == edits[1];
      BurstDefersAnalysis(next, edits[1..]);
      assert edits[1..][|edits[1..]| - 1] == edits[|edits| - 1];
    }
  }

  /** After a burst, the analysis fires once the quiet period has passed, and not before. */
  lemma BurstFiresOnceAfterQuietPeriod(d: Debouncer, edits: seq<Edit>, t: real)
    requires IsBurst(edits)
    requires NotDueAt(d, edits[0].at)
    ensures t >= edits[|edits| - 1].at + AnalysisDelay ==>
      AdvanceClock(Replay(d, edits), t) == Debouncer(None, d.analysesRun + 1)
    ensures t < edits[|edits| - 1].at + AnalysisDelay ==>
      AdvanceClock(Replay(d, edits), t) == Replay(d, edits)
  {
    BurstDefersAnalysis(d, edits);
  }

  /** A navigation or deletion key before the deadline cancels the analysis for good. */
  lemma CancellingKeyDropsAnalysis(d: Debouncer, e: Edit, later: real)
    requires CancelsAnalysis(e.currentEvent)
    requires NotDueAt(d, e.at)
    ensures AdvanceClock(DidChangeText(AdvanceClock(d, e.at), e.currentEvent, e.at), later).analysesRun == d.analysesRun
  {
  }
}
