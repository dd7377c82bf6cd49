/**
 * The floating-cursor flag and the notifications it sends. The delegate is
 * held weakly, so it may be absent; when present it is modelled by the
 * number of notifications it has received.
 */
module FloatingCursor {
  import opened Wrappers

  datatype Listener = Listener(notifications: nat)

  datatype CursorState = CursorState(isCursorFloating: bool, innerDelegate: Option<Listener>)

  /** The touch point the gesture starts at; only the platform uses it. */
  datatype Point = Point(x: real, y: real)

  datatype Gesture = Begin(at: Point) | End

  /** Notifications received so far (none when nobody listens). */
  function Received(s: CursorState): nat {
    match s.innerDelegate
    case None => 0
    case Some(l) => l.notifications
  }

  /** `innerDelegate?.didUpdateCursorFloatingState()` */
  function Notify(d: Option<Listener>): (r: Option<Listener>)
    ensures r.Some? <==> d.Some?
    ensures d.Some? ==> r.value.notifications == d.value.notifications + 1
  {
    match d
    case None => None
    case Some(l) => Some(Listener(l.notifications + 1))
  }

  function BeginFloatingCursor(s: CursorState, at: Point): (r: CursorState)
    ensures r.isCursorFloating
    ensures r.innerDelegate.Some? <==> s.innerDelegate.Some?
    ensures s.innerDelegate.Some? ==> Received(r) == Received(s) + 1
  {
    CursorState(true, Notify(s.innerDelegate))
  }

  function EndFloatingCursor(s: CursorState): (r: CursorState)
    ensures !r.isCursorFloating
    ensures r.innerDelegate.Some? <==> s.innerDelegate.Some?
    ensures s.innerDelegate.Some? ==> Received(r) == Received(s) + 1
  {
    CursorState(false, Notify(s.innerDelegate))
  }

  function Apply(s: CursorState, g: Gesture): CursorState {
    match g
    case Begin(p) => BeginFloatingCursor(s, p)
    case End => EndFloatingCursor(s)
  }

  /** Applies the gestures in order. */
  function Replay(s: CursorState, gs: seq<Gesture>): CursorState
    decreases |gs|
  {
    if |gs| == 0 then s else Replay(Apply(s, gs[0]), gs[1..])
  }

  /**
   * Every gesture notifies exactly once, whatever the state before it, and
   * the flag reflects the last gesture alone.
   */
  lemma {:induction false} ReplayNotifiesOncePerGesture(s: CursorState, gs: seq<Gesture>)
    requires s.innerDelegate.Some?
    ensures Replay(s, gs).innerDelegate.Some?
    ensures Received(Replay(s, gs)) == Received(s) + |gs|
    ensures Replay(s, gs).isCursorFloating == if |gs| == 0 then s.isCursorFloating else gs[|gs| - 1].Begin?
    decreases |gs|
  {
    if |gs| > 0 {
      ReplayNotifiesOncePerGesture(Apply(s, gs[0]), gs[1..]);
      if |gs| > 1 {
        assert gs[1..][|gs[1..]| - 1] == gs[|gs| - 1];
      }
    }
  }

  /** With nobody listening, gestures only move the flag. */
  lemma {:induction false} ReplayWithoutListener(s: CursorState, gs: seq<Gesture>)
    requires s.innerDelegate.None?
    ensures Replay(s, gs).innerDelegate.None?
    decreases |gs|
  {
    if |gs| > 0 {
      ReplayWithoutListener(Apply(s, gs[0]), gs[1..]);
    }
  }

  lemma BeginThenEnd(s: CursorState, p: Point)
    requires s.innerDelegate.Some?
    ensures !EndFloatingCursor(BeginFloatingCursor(s, p)).isCursorFloating
    ensures Received(EndFloatingCursor(BeginFloatingCursor(s, p))) == Received(s) + 2
  {
  }

  /** There is no "already ended" guard: a repeated end notifies again. */
  lemma EndThenEnd(s: CursorState)
    requires s.innerDelegate.Some?
    ensures !EndFloatingCursor(EndFloatingCursor(s)).isCursorFloating
    ensures Received(EndFloatingCursor(EndFloatingCursor(s))) == Received(s) + 2
  {
  }
}
