/** The public gallery page: the pan controller feeding the grid through the
    registered update callback. The grid keeps its own copy of the scroll
    position and adopts a reported one only past the 5 px threshold. */
module Gallery {
  import opened Basics
  import DragScroll
  import InfiniteGrid

  /** The controller's state next to the position the grid renders from. */
  datatype Page = Page(drag: DragScroll.DragState, gridScroll: Point)

  /** The grid renders from a position within 5 px of the controller's
      committed one, on each axis. */
  predicate InSync(p: Page) {
    Abs(p.gridScroll.x - p.drag.scroll.x) <= InfiniteGrid.CommitThreshold &&
    Abs(p.gridScroll.y - p.drag.scroll.y) <= InfiniteGrid.CommitThreshold
  }

  /** The page once mounted: the grid has registered its callback and both
      positions are at the origin. */
  const Mounted := Page(DragScroll.Subscribe(DragScroll.Initial), Point(0, 0))

  /** One input event: the controller handles it and, if it reports a
      position, the grid's callback runs on it. */
  function PageStep(p: Page, e: DragScroll.Event): (p': Page)
    ensures p'.drag == DragScroll.Step(p.drag, e).state
    ensures p'.gridScroll == p.gridScroll || p'.gridScroll == p'.drag.scroll
  {
    var o := DragScroll.Step(p.drag, e);
    match o.notified
    case Some(q) => Page(o.state, InfiniteGrid.CommitScroll(p.gridScroll, q))
    case None => Page(o.state, p.gridScroll)
  }

  function RunPage(p: Page, events: seq<DragScroll.Event>): Page
    decreases |events|
  {
    if |events| == 0 then p else RunPage(PageStep(p, events[0]), events[1..])
  }

  /** One event keeps a registered page in sync. */
  lemma StepKeepsInSync(p: Page, e: DragScroll.Event)
    requires p.drag.subscribed && InSync(p)
    ensures PageStep(p, e).drag.subscribed && InSync(PageStep(p, e))
  {
  }

  /** Whatever the sequence of input events, the grid never renders from a
      position more than 5 px away from the controller's committed scroll
      position on either axis. */
  lemma {:induction false} RunKeepsInSync(p: Page, events: seq<DragScroll.Event>)
    requires p.drag.subscribed && InSync(p)
    ensures RunPage(p, events).drag.subscribed && InSync(RunPage(p, events))
    decreases |events|
  {
    if |events| > 0 {
      StepKeepsInSync(p, events[0]);
      RunKeepsInSync(PageStep(p, events[0]), events[1..]);
    }
  }

  /** From mount onward the page stays in sync. */
  lemma MountedStaysInSync(events: seq<DragScroll.Event>)
    ensures InSync(RunPage(Mounted, events))
  {
    RunKeepsInSync(Mounted, events);
  }
}
