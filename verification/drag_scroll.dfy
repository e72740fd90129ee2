/** The pan controller of the gallery (the `useDragScroll` hook): mouse,
    touch and wheel input turned into scroll positions.

    Animation frames and timers are explicit events: `Frame` runs the one
    pending animation-frame callback, `SettleTimer` runs one of the 100 ms
    timers started on release. The clock of the mouse throttle is a
    millisecond timestamp carried by each mouse move. The drag distance is
    kept squared, so no square root is taken. */
module DragScroll {
  import opened Basics

  /** Minimum spacing of accepted mouse moves, in milliseconds. */
  const MouseThrottleMs := 32

  /** The hook's state and refs. `scroll` is the committed position
      (`scrollPositionRef`); `pendingFrame` is the position a requested
      animation frame will commit; `pendingResets` counts the release timers
      that have not run yet; `subscribed` says whether a consumer has
      registered its update callback. */
  datatype DragState = DragState(
    dragging: bool,
    dragStart: Point,
    dragDistanceSq: nat,
    scroll: Point,
    pendingFrame: Option<Point>,
    lastUpdate: int,
    subscribed: bool,
    pendingResets: nat)

  const Initial := DragState(false, Point(0, 0), 0, Point(0, 0), None, 0, false, 0)

  /** The state after an event, and the position handed to the registered
      callback, if the event committed one while a callback was registered. */
  datatype Outcome = Outcome(state: DragState, notified: Option<Point>)

  lemma SquarePositive(a: int)
    ensures a * a >= 0
    ensures a != 0 ==> a * a > 0
  {
    if a < 0 {
      assert a * a == (-a) * (-a);
    }
  }

  /** The squared Euclidean distance between two points. */
  function DistanceSq(p: Point, q: Point): (d: nat)
    ensures d == 0 <==> p == q
  {
    var dx, dy := p.x - q.x, p.y - q.y;
    SquarePositive(dx);
    SquarePositive(dy);
    dx * dx + dy * dy
  }

  // ---------------------------------------------------------------------
  // Committing positions

  /** `setScrollPosition`: store the position and forward it to the
      registered callback. */
  function SetScrollPosition(s: DragState, p: Point): (o: Outcome)
    ensures o.state == s.(scroll := p)
    ensures o.notified.Some? <==> s.subscribed
    ensures o.notified.Some? ==> o.notified.value == o.state.scroll
  {
    Outcome(s.(scroll := p), if s.subscribed then Some(p) else None)
  }

  /** `throttledUpdate`: cancel any pending frame and request a new one that
      will commit `p`. */
  function ThrottledUpdate(s: DragState, p: Point): (s': DragState)
    ensures s'.pendingFrame == Some(p)
    ensures s' == s.(pendingFrame := s'.pendingFrame)
  {
    s.(pendingFrame := Some(p))
  }

  /** The animation frame runs: the pending position, if any, is committed. */
  function Frame(s: DragState): (o: Outcome)
    ensures o.state.pendingFrame == None
    ensures s.pendingFrame.Some? ==> o.state.scroll == s.pendingFrame.value
    ensures s.pendingFrame.None? ==> o.state == s && o.notified == None
    ensures o.state == s.(pendingFrame := None, scroll := o.state.scroll)
    ensures o.notified.Some? <==> s.subscribed && s.pendingFrame.Some?
    ensures o.notified.Some? ==> o.notified.value == o.state.scroll
  {
    match s.pendingFrame
    case Some(p) => SetScrollPosition(s.(pendingFrame := None), p)
    case None => Outcome(s, None)
  }

  // ---------------------------------------------------------------------
  // Pointer handlers

  /** Mouse down or touch start at `p`: begin a drag anchored so that the
      pointer at `p` corresponds to the current scroll position. */
  function Press(s: DragState, p: Point): (s': DragState)
    ensures s'.dragging && s'.dragDistanceSq == 0
    ensures s'.dragStart.Plus(s.scroll) == p
    ensures s' == s.(dragging := true, dragDistanceSq := 0, dragStart := s'.dragStart)
  {
    s.(dragging := true, dragDistanceSq := 0, dragStart := p.Minus(s.scroll))
  }

  /** The common body of an accepted move to `p`: measure the distance from
      `dragStart + scroll` and schedule the position `p - dragStart`. */
  function TrackMove(s: DragState, p: Point): (s': DragState)
    ensures s'.pendingFrame.Some? && s'.pendingFrame.value.Plus(s.dragStart) == p
    ensures s'.dragDistanceSq == 0 <==> p == s.dragStart.Plus(s.scroll)
    ensures s' == s.(dragDistanceSq := s'.dragDistanceSq, pendingFrame := s'.pendingFrame)
  {
    ThrottledUpdate(s.(dragDistanceSq := DistanceSq(p, s.dragStart.Plus(s.scroll))), p.Minus(s.dragStart))
  }

  /** A mouse move at time `now`: ignored unless dragging and at least 32 ms
      after the last accepted one. */
  function MouseMove(s: DragState, p: Point, now: int): (s': DragState)
    ensures !s.dragging || now - s.lastUpdate < MouseThrottleMs ==> s' == s
    ensures s.dragging && now - s.lastUpdate >= MouseThrottleMs ==>
              s' == TrackMove(s, p).(lastUpdate := now)
  {
    if !s.dragging then s
    else if now - s.lastUpdate < MouseThrottleMs then s
    else TrackMove(s, p).(lastUpdate := now)
  }

  /** A touch move: ignored unless dragging, never time-throttled, and does
      not touch `lastUpdate`. */
  function TouchMove(s: DragState, p: Point): (s': DragState)
    ensures !s.dragging ==> s' == s
    ensures s.dragging ==> s' == TrackMove(s, p) && s'.lastUpdate == s.lastUpdate
  {
    if !s.dragging then s else TrackMove(s, p)
  }

  /** Mouse up, mouse leave or touch end: stop dragging and start a timer
      that will later clear the drag distance. */
  function Release(s: DragState): (s': DragState)
    ensures !s'.dragging && s'.dragDistanceSq == s.dragDistanceSq
    ensures s'.pendingResets == s.pendingResets + 1
    ensures s' == s.(dragging := false, pendingResets := s'.pendingResets)
  {
    s.(dragging := false, pendingResets := s.pendingResets + 1)
  }

  /** One release timer runs and clears the drag distance. */
  function SettleTimer(s: DragState): (s': DragState)
    ensures s.pendingResets == 0 ==> s' == s
    ensures s.pendingResets > 0 ==>
              s'.dragDistanceSq == 0 && s'.pendingResets + 1 == s.pendingResets &&
              s' == s.(dragDistanceSq := 0, pendingResets := s'.pendingResets)
  {
    if s.pendingResets == 0 then s
    else s.(dragDistanceSq := 0, pendingResets := s.pendingResets - 1)
  }

  /** A wheel event: subtract the deltas (a missing delta counts as 0) and
      commit at once, without going through an animation frame. */
  function Wheel(s: DragState, dx: Option<int>, dy: Option<int>): (o: Outcome)
    ensures o.state.scroll.Plus(Point(dx.GetOr(0), dy.GetOr(0))) == s.scroll
    ensures o.state == s.(scroll := o.state.scroll)
    ensures o.notified.Some? <==> s.subscribed
    ensures o.notified.Some? ==> o.notified.value == o.state.scroll
  {
    SetScrollPosition(s, Point(s.scroll.x - dx.GetOr(0), s.scroll.y - dy.GetOr(0)))
  }

  /** `setUpdateCallback`: register the consumer. */
  function Subscribe(s: DragState): (s': DragState)
    ensures s'.subscribed && s' == s.(subscribed := true)
  {
    s.(subscribed := true)
  }

  /** `cleanup`: cancel the pending animation frame. */
  function Cleanup(s: DragState): (s': DragState)
    ensures s'.pendingFrame == None && s' == s.(pendingFrame := None)
  {
    s.(pendingFrame := None)
  }

  // ---------------------------------------------------------------------
  // Events

  datatype Event =
    | MouseDown(p: Point)
    | MouseMoveAt(p: Point, now: int)
    | MouseUp
    | TouchStart(p: Point)
    | TouchMoveTo(p: Point)
    | TouchEnd
    | WheelBy(dx: Option<int>, dy: Option<int>)
    | AnimationFrame
    | ReleaseTimer
    | Register
    | Unmount

  function Step(s: DragState, e: Event): (o: Outcome)
    ensures o.notified.Some? <==>
              s.subscribed && (e.WheelBy? || (e.AnimationFrame? && s.pendingFrame.Some?))
    ensures o.notified.Some? ==> o.notified.value == o.state.scroll
    ensures !e.WheelBy? && !e.AnimationFrame? ==> o.state.scroll == s.scroll
    ensures o.state.subscribed == (s.subscribed || e.Register?)
  {
    match e
    case MouseDown(p) => Outcome(Press(s, p), None)
    case MouseMoveAt(p, now) => Outcome(MouseMove(s, p, now), None)
    case MouseUp => Outcome(Release(s), None)
    case TouchStart(p) => Outcome(Press(s, p), None)
    case TouchMoveTo(p) => Outcome(TouchMove(s, p), None)
    case TouchEnd => Outcome(Release(s), None)
    case WheelBy(dx, dy) => Wheel(s, dx, dy)
    case AnimationFrame => Frame(s)
    case ReleaseTimer => Outcome(SettleTimer(s), None)
    case Register => Outcome(Subscribe(s), None)
    case Unmount => Outcome(Cleanup(s), None)
  }

  // ---------------------------------------------------------------------
  // Properties

  /** Continuity: pressing and then moving (past the throttle) without
      leaving the press point schedules exactly the scroll position held at
      the press, with a zero drag distance. */
  lemma PressThenMoveInPlace(s: DragState, p: Point, now: int)
    requires now - s.lastUpdate >= MouseThrottleMs
    ensures var m := MouseMove(Press(s, p), p, now);
            m.pendingFrame == Some(s.scroll) && m.dragDistanceSq == 0 &&
            Frame(m).state.scroll == s.scroll
  {
    var d := Press(s, p);
    assert p.Minus(d.dragStart) == s.scroll;
  }

  /** Moves while not dragging are ignored, by mouse and by touch. */
  lemma IdleMovesIgnored(s: DragState, p: Point, now: int)
    requires !s.dragging
    ensures Step(s, MouseMoveAt(p, now)) == Outcome(s, None)
    ensures Step(s, TouchMoveTo(p)) == Outcome(s, None)
  {
  }

  /** A wheel of `(dx, dy)` followed by one of `(-dx, -dy)` restores the
      state exactly. */
  lemma WheelInverse(s: DragState, dx: int, dy: int)
    ensures Wheel(Wheel(s, Some(dx), Some(dy)).state, Some(-dx), Some(-dy)).state == s
  {
  }

  /** Runs a burst of touch moves with no frame in between. */
  function TouchMoves(s: DragState, ps: seq<Point>): DragState
    decreases |ps|
  {
    if |ps| == 0 then s else TouchMoves(TouchMove(s, ps[0]), ps[1..])
  }

  /** Coalescing: during a drag, a burst of moves leaves one pending frame,
      for the most recent pointer position, and commits nothing yet; the
      frame then commits that position. */
  lemma {:induction false} BurstCommitsLatest(s: DragState, ps: seq<Point>)
    requires s.dragging && |ps| > 0
    ensures var t := TouchMoves(s, ps);
            t.pendingFrame == Some(ps[|ps| - 1].Minus(s.dragStart)) &&
            t.scroll == s.scroll && t.dragStart == s.dragStart && t.dragging &&
            Frame(t).state.scroll.Plus(s.dragStart) == ps[|ps| - 1]
    decreases |ps|
  {
    var s1 := TouchMove(s, ps[0]);
    if |ps| > 1 {
      BurstCommitsLatest(s1, ps[1..]);
    }
  }

  /** The drag distance is measured from `dragStart + scroll` with the
      committed scroll: once a frame has committed a move to `p`, the next
      move to `q` reports the distance from `p`, not from the press point. */
  lemma DistanceSinceLastCommit(s: DragState, p: Point, q: Point)
    requires s.dragging
    ensures var t := Frame(TouchMove(s, p)).state;
            TouchMove(t, q).dragDistanceSq == DistanceSq(q, p)
  {
    var t := Frame(TouchMove(s, p)).state;
    assert t.dragStart.Plus(t.scroll) == p;
  }

  /** After a release the drag distance stays until a release timer runs,
      which clears it. */
  lemma ReleaseThenSettle(s: DragState)
    ensures Release(s).dragDistanceSq == s.dragDistanceSq
    ensures SettleTimer(Release(s)).dragDistanceSq == 0
    ensures !SettleTimer(Release(s)).dragging
  {
  }
}
