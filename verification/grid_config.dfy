/** The breakpoint table that turns the window width into the geometry of
    the gallery grid, and the debounced resize handling around it
    (the `useGridConfig` hook). */
module GridConfig {
  import opened Basics

  /** `{ columns, photoWidth, photoHeight, gap }`, in CSS pixels. */
  datatype Config = Config(columns: int, photoWidth: int, photoHeight: int, gap: int)

  const Phone := Config(3, 180, 270, 15)
  const Tablet := Config(5, 220, 330, 20)
  const Desktop := Config(7, 280, 420, 25)
  const FullHd := Config(7, 300, 450, 30)
  const Ultra := Config(8, 400, 600, 40)

  /** The hook's state before the first update runs. */
  const Initial := Config(7, 400, 600, 20)

  /** The breakpoint selection of `updateGridConfig`. */
  function Resolve(width: int): (c: Config)
    ensures c in {Phone, Tablet, Desktop, FullHd, Ultra}
    ensures c.photoHeight * 2 == c.photoWidth * 3 && c.gap > 0
    ensures width <= 480 <==> c == Phone
    ensures 481 <= width <= 768 <==> c == Tablet
    ensures 769 <= width <= 1919 <==> c == Desktop
    ensures 1920 <= width <= 2559 <==> c == FullHd
    ensures 2560 <= width <==> c == Ultra
  {
    if width <= 480 then Phone
    else if width <= 768 then Tablet
    else if width >= 2560 then Ultra
    else if width >= 1920 then FullHd
    else if width >= 1440 then Desktop
    else Desktop
  }

  // ---------------------------------------------------------------------
  // An independent description of the same table

  /** A row of a breakpoint table: from `minWidth` upward, use `config`. */
  datatype Breakpoint = Breakpoint(minWidth: int, config: Config)

  /** The table read as ascending thresholds; widths below the first one use
      the phone layout. */
  const Table := [Breakpoint(481, Tablet), Breakpoint(769, Desktop),
                  Breakpoint(1920, FullHd), Breakpoint(2560, Ultra)]

  predicate Ascending(table: seq<Breakpoint>) {
    forall i, j :: 0 <= i < j < |table| ==> table[i].minWidth < table[j].minWidth
  }

  /** The configuration of the last row whose threshold `width` reaches, or
      `below` when it reaches none. */
  function Lookup(table: seq<Breakpoint>, width: int, below: Config): (c: Config)
    ensures c == below || exists i :: 0 <= i < |table| && c == table[i].config
    ensures (|table| == 0 || width < table[0].minWidth) ==> c == below
  {
    if |table| == 0 || width < table[0].minWidth then below
    else Lookup(table[1..], width, table[0].config)
  }

  /** In an ascending table, a width that reaches row `i` but not row `i + 1`
      selects exactly row `i`. */
  lemma {:induction false} LookupSelects(table: seq<Breakpoint>, width: int, below: Config, i: int)
    requires Ascending(table)
    requires 0 <= i < |table| && table[i].minWidth <= width
    requires i + 1 == |table| || width < table[i + 1].minWidth
    ensures Lookup(table, width, below) == table[i].config
    decreases |table|
  {
    assert table[0].minWidth <= width by {
      if i > 0 { assert table[0].minWidth < table[i].minWidth; }
    }
    var rest := table[1..];
    if i == 0 {
      assert |rest| == 0 || width < rest[0].minWidth;
    } else {
      assert Ascending(rest) by {
        forall a, b | 0 <= a < b < |rest| ensures rest[a].minWidth < rest[b].minWidth {
          assert rest[a] == table[a + 1] && rest[b] == table[b + 1];
        }
      }
      LookupSelects(rest, width, table[0].config, i - 1);
    }
  }

  /** The if-chain of the hook and the ascending threshold table agree on
      every width. */
  lemma ResolveIsTableLookup(width: int)
    ensures Resolve(width) == Lookup(Table, width, Phone)
  {
    assert Ascending(Table);
    if width <= 480 {
    } else if width <= 768 {
      LookupSelects(Table, width, Phone, 0);
    } else if width <= 1919 {
      LookupSelects(Table, width, Phone, 1);
    } else if width <= 2559 {
      LookupSelects(Table, width, Phone, 2);
    } else {
      LookupSelects(Table, width, Phone, 3);
    }
  }

  /** Wider windows never get fewer columns, narrower photos or smaller gaps. */
  lemma ResolveMonotone(w1: int, w2: int)
    requires w1 <= w2
    ensures Resolve(w1).columns <= Resolve(w2).columns
    ensures Resolve(w1).photoWidth <= Resolve(w2).photoWidth
    ensures Resolve(w1).photoHeight <= Resolve(w2).photoHeight
    ensures Resolve(w1).gap <= Resolve(w2).gap
  {
  }

  /** Every configuration the hook can hold gives cells of positive size. */
  lemma ConfigsHavePositiveCells(width: int)
    ensures Resolve(width).photoWidth + Resolve(width).gap > 0
    ensures Resolve(width).photoHeight + Resolve(width).gap > 0
    ensures Initial.photoWidth + Initial.gap > 0 && Initial.photoHeight + Initial.gap > 0
  {
  }

  // ---------------------------------------------------------------------
  // Debounced resize

  /** Delay of the resize timer, in milliseconds. */
  const DebounceMs := 100

  /** The current configuration and the due time of the one pending resize
      timer, if any. Time is an explicit millisecond clock. */
  datatype Resizer = Resizer(config: Config, due: Option<int>)

  /** Mounting runs one update at once, with no timer pending. */
  function Mount(width: int): (r: Resizer)
    ensures r.config == Resolve(width) && r.due == None
  {
    Resizer(Resolve(width), None)
  }

  /** A resize event cancels any pending timer and starts a new one. */
  function OnResize(r: Resizer, now: int): (r': Resizer)
    ensures r'.config == r.config
    ensures r'.due == Some(now + DebounceMs)
  {
    Resizer(r.config, Some(now + DebounceMs))
  }

  /** The clock reaching `now`, with the window `width` wide at that moment:
      a due timer fires and reads the width it finds. */
  function OnTick(r: Resizer, now: int, width: int): (r': Resizer)
    ensures r.due.Some? && r.due.value <= now ==> r' == Resizer(Resolve(width), None)
    ensures !(r.due.Some? && r.due.value <= now) ==> r' == r
  {
    if r.due.Some? && r.due.value <= now then Resizer(Resolve(width), None) else r
  }

  /** Unmounting clears the pending timer. */
  function Unmount(r: Resizer): (r': Resizer)
    ensures r'.config == r.config && r'.due == None
  {
    Resizer(r.config, None)
  }

  datatype ResizeEvent = Resize(at: int) | Tick(at: int, width: int)

  function RunResizer(r: Resizer, events: seq<ResizeEvent>): Resizer
    decreases |events|
  {
    if |events| == 0 then r
    else
      var e := events[0];
      var r1 := match e
        case Resize(t) => OnResize(r, t)
        case Tick(t, w) => OnTick(r, t, w);
      RunResizer(r1, events[1..])
  }

  /** Only the latest of a burst of resizes is applied: however many resize
      events arrive, the configuration is untouched and one timer is pending,
      due 100 ms after the last of them. */
  lemma {:induction false} BurstKeepsOneTimer(r: Resizer, events: seq<ResizeEvent>)
    requires |events| > 0
    requires forall k :: 0 <= k < |events| ==> events[k].Resize?
    ensures RunResizer(r, events).config == r.config
    ensures RunResizer(r, events).due == Some(events[|events| - 1].at + DebounceMs)
    decreases |events|
  {
    var r1 := OnResize(r, events[0].at);
    if |events| > 1 {
      BurstKeepsOneTimer(r1, events[1..]);
    }
  }

  /** A tick earlier than 100 ms after the latest resize changes nothing. */
  lemma TickBeforeDueIsIgnored(r: Resizer, resizeAt: int, now: int, width: int)
    requires now < resizeAt + DebounceMs
    ensures OnTick(OnResize(r, resizeAt), now, width) == OnResize(r, resizeAt)
  {
  }
}
