/** Viewport culling and tile assignment of the infinite photo grid
    (the `visiblePhotos` memo of `InfiniteGrid`), and the 5-pixel filter
    through which scroll positions reach it (`updateScrollPosition`).

    The lattice is unbounded: cell `(row, col)` sits at
    `(col * cellWidth, row * cellHeight)` with `cellWidth = photoWidth + gap`.
    Only the cells of a window around the viewport, padded by eight cells
    on each side, are materialised, and each gets photo `|row + col| mod n`. */
module InfiniteGrid {
  import opened Basics
  import GridConfig

  /** Cells of padding on every side of the viewport. */
  const Buffer := 8

  /** A scroll position is committed only after moving more than this many
      pixels along some axis. */
  const CommitThreshold := 5

  datatype Viewport = Viewport(width: nat, height: nat)

  /** A photo of the gallery source, as the grid receives it. */
  datatype GalleryPhoto = GalleryPhoto(id: int, src: string, alt: string)

  /** The React key `${row}-${col}-${photo.id}`, kept as its three parts. */
  datatype CellKey = CellKey(row: int, col: int, photoId: int)

  /** One rendered cell: the photo with its key, lattice coordinates and
      absolutely positioned box. */
  datatype Tile = Tile(key: CellKey, gridRow: int, gridCol: int, photo: GalleryPhoto,
                       left: int, top: int, width: int, height: int)

  /** An inclusive range of lattice indices along one axis. */
  datatype Span = Span(first: int, last: int) {
    function Count(): nat {
      if last < first then 0 else last - first + 1
    }
    predicate Has(i: int) {
      first <= i <= last
    }
  }

  datatype Window = Window(rows: Span, cols: Span)

  predicate ValidConfig(c: GridConfig.Config) {
    c.photoWidth + c.gap > 0 && c.photoHeight + c.gap > 0
  }

  function CellWidth(c: GridConfig.Config): int {
    c.photoWidth + c.gap
  }

  function CellHeight(c: GridConfig.Config): int {
    c.photoHeight + c.gap
  }

  // ---------------------------------------------------------------------
  // Integer arithmetic used by the window computation

  /** `Math.floor(a / d)` for a positive divisor. */
  function FloorDiv(a: int, d: int): (q: int)
    requires d > 0
    ensures q * d <= a < q * d + d
  {
    a / d
  }

  /** `Math.ceil(a / d)` for a positive divisor. */
  function CeilDiv(a: int, d: int): (q: int)
    requires d > 0
    ensures q * d - d < a <= q * d
  {
    -((-a) / d)
  }

  lemma MulLeft(a: int, b: int, c: int)
    requires a <= b && c >= 0
    ensures a * c <= b * c
  {
    assert (b - a) * c >= 0;
  }

  /** If `m * d < e` with `d > 0`, then `m` is at most `e / d`. */
  lemma BelowQuotient(m: int, e: nat, d: int)
    requires d > 0 && m * d < e
    ensures m <= e / d
  {
    if m > e / d {
      MulLeft(e / d + 1, m, d);
    }
  }

  /** Division by `n` recovers the two parts of `a * n + b` when `0 <= b < n`. */
  lemma DivModParts(a: int, b: int, n: int)
    requires n > 0 && 0 <= b < n
    ensures (a * n + b) / n == a && (a * n + b) % n == b
  {
    var x := a * n + b;
    var q, r := x / n, x % n;
    assert (q - a) * n == b - r;
    if q - a >= 1 {
      MulLeft(1, q - a, n);
    } else if q - a <= -1 {
      MulLeft(q - a, -1, n);
    }
  }

  // ---------------------------------------------------------------------
  // The window of lattice cells to materialise

  /** The padded index range along one axis: from the cell holding
      `-scroll - Buffer * cell` to the first cell boundary at or beyond
      `-scroll + extent + Buffer * cell`. */
  function AxisSpan(scroll: int, extent: nat, cell: int): (s: Span)
    requires cell > 0
    ensures s.first * cell <= -scroll - Buffer * cell < s.first * cell + cell
    ensures s.last * cell - cell < -scroll + extent + Buffer * cell <= s.last * cell
  {
    Span(FloorDiv(-scroll - Buffer * cell, cell), CeilDiv(-scroll + extent + Buffer * cell, cell))
  }

  /** The span always holds at least the cells around the viewport. */
  lemma AxisSpanNonEmpty(scroll: int, extent: nat, cell: int)
    requires cell > 0
    ensures AxisSpan(scroll, extent, cell).Count() > 2 * Buffer
  {
    var s := AxisSpan(scroll, extent, cell);
    if s.last < s.first + 2 * Buffer {
      MulLeft(s.last + 1, s.first + 2 * Buffer, cell);
    }
  }

  /** The cells to render: on each axis, from the cell eight cells before
      the viewport's leading edge to the first cell boundary eight cells past
      its trailing edge, so the window always extends beyond the viewport. */
  function VisibleWindow(scroll: Point, viewport: Viewport, config: GridConfig.Config): (w: Window)
    requires ValidConfig(config)
    ensures w.rows.first * CellHeight(config) <= -scroll.y - Buffer * CellHeight(config)
    ensures -scroll.y + viewport.height + Buffer * CellHeight(config) <= w.rows.last * CellHeight(config)
    ensures w.cols.first * CellWidth(config) <= -scroll.x - Buffer * CellWidth(config)
    ensures -scroll.x + viewport.width + Buffer * CellWidth(config) <= w.cols.last * CellWidth(config)
    ensures w.rows.Count() > 2 * Buffer && w.cols.Count() > 2 * Buffer
  {
    AxisSpanNonEmpty(scroll.y, viewport.height, CellHeight(config));
    AxisSpanNonEmpty(scroll.x, viewport.width, CellWidth(config));
    Window(AxisSpan(scroll.y, viewport.height, CellHeight(config)),
           AxisSpan(scroll.x, viewport.width, CellWidth(config)))
  }

  /** Every pixel of the viewport, and everything up to eight cells past
      its edges, lies in a cell of the span. */
  lemma AxisSpanCovers(scroll: int, extent: nat, cell: int, p: int)
    requires cell > 0
    requires -scroll - Buffer * cell <= p <= -scroll + extent + Buffer * cell
    ensures AxisSpan(scroll, extent, cell).Has(FloorDiv(p, cell))
  {
    var s := AxisSpan(scroll, extent, cell);
    var q := FloorDiv(p, cell);
    if q < s.first {
      MulLeft(q + 1, s.first, cell);
    }
    if q > s.last {
      MulLeft(s.last + 1, q, cell);
    }
  }

  /** Coverage: the cell under any point of the viewport is in the window. */
  lemma WindowCoversViewport(scroll: Point, viewport: Viewport, config: GridConfig.Config, p: Point)
    requires ValidConfig(config)
    requires -scroll.x <= p.x <= -scroll.x + viewport.width
    requires -scroll.y <= p.y <= -scroll.y + viewport.height
    ensures VisibleWindow(scroll, viewport, config).cols.Has(FloorDiv(p.x, CellWidth(config)))
    ensures VisibleWindow(scroll, viewport, config).rows.Has(FloorDiv(p.y, CellHeight(config)))
  {
    MulLeft(0, Buffer, CellWidth(config));
    MulLeft(0, Buffer, CellHeight(config));
    AxisSpanCovers(scroll.x, viewport.width, CellWidth(config), p.x);
    AxisSpanCovers(scroll.y, viewport.height, CellHeight(config), p.y);
  }

  /** The span never holds more than `extent / cell + 19` indices, whatever
      the scroll offset. */
  lemma AxisSpanBounded(scroll: int, extent: nat, cell: int)
    requires cell > 0
    ensures AxisSpan(scroll, extent, cell).Count() <= extent / cell + 2 * Buffer + 3
  {
    var s := AxisSpan(scroll, extent, cell);
    var m := s.last - s.first - 2 * Buffer - 2;
    assert m * cell < extent;
    BelowQuotient(m, extent, cell);
  }

  /** Boundedness of the window, independent of the scroll offset. */
  lemma WindowBounded(scroll: Point, viewport: Viewport, config: GridConfig.Config)
    requires ValidConfig(config)
    ensures var w := VisibleWindow(scroll, viewport, config);
            w.rows.Count() * w.cols.Count() <=
            (viewport.height / CellHeight(config) + 19) * (viewport.width / CellWidth(config) + 19)
  {
    var w := VisibleWindow(scroll, viewport, config);
    var rowMax := viewport.height / CellHeight(config) + 19;
    var colMax := viewport.width / CellWidth(config) + 19;
    AxisSpanBounded(scroll.y, viewport.height, CellHeight(config));
    AxisSpanBounded(scroll.x, viewport.width, CellWidth(config));
    MulLeft(w.rows.Count(), rowMax, w.cols.Count());
    MulLeft(w.cols.Count(), colMax, rowMax);
  }

  // ---------------------------------------------------------------------
  // Tile assignment and placement

  /** `Math.abs(row + col) % photos.length`. */
  function TileIndex(row: int, col: int, n: nat): (i: nat)
    requires n > 0
    ensures i < n
    ensures (Abs(row + col) - i) % n == 0
  {
    var a := Abs(row + col);
    DivModParts(a / n, 0, n);
    assert a - a % n == (a / n) * n + 0;
    a % n
  }

  /** Cells on one anti-diagonal, and mirrored cells, show the same photo. */
  lemma TileSymmetries(r1: int, c1: int, r2: int, c2: int, n: nat)
    requires n > 0
    ensures r1 + c1 == r2 + c2 ==> TileIndex(r1, c1, n) == TileIndex(r2, c2, n)
    ensures TileIndex(-r1, -c1, n) == TileIndex(r1, c1, n)
  {
  }

  /** Away from the origin the pattern repeats every `n` columns. */
  lemma TilePeriodic(row: int, col: int, n: nat)
    requires n > 0 && row + col >= 0
    ensures TileIndex(row, col + n, n) == TileIndex(row, col, n)
  {
    var a := row + col;
    var q, r := a / n, a % n;
    assert a == q * n + r;
    assert a + n == (q + 1) * n + r;
    DivModParts(q + 1, r, n);
  }

  /** The rendered cell at lattice position `(row, col)`: one of the
      photos, keyed by its position and id, whose box lies inside its cell
      when the gap is non-negative. */
  function PlaceTile(photos: seq<GalleryPhoto>, config: GridConfig.Config, row: int, col: int): (t: Tile)
    requires |photos| > 0
    ensures t.photo in photos && t.gridRow == row && t.gridCol == col
    ensures t.key == CellKey(row, col, t.photo.id)
    ensures config.gap >= 0 ==> col * CellWidth(config) <= t.left && t.left + t.width <= (col + 1) * CellWidth(config)
    ensures config.gap >= 0 ==> row * CellHeight(config) <= t.top && t.top + t.height <= (row + 1) * CellHeight(config)
  {
    var photo := photos[TileIndex(row, col, |photos|)];
    Tile(CellKey(row, col, photo.id), row, col, photo,
         col * CellWidth(config), row * CellHeight(config), config.photoWidth, config.photoHeight)
  }

  /** Along one axis, a box of size `size <= cell` placed at `i * cell` ends
      before the box of any later index begins. */
  lemma Separated(i: int, j: int, cell: int, size: int)
    requires i < j && 0 < cell && size <= cell
    ensures i * cell + size <= j * cell
  {
    MulLeft(i + 1, j, cell);
  }

  /** With a non-negative gap, the boxes of two different cells never
      overlap: they are separated horizontally or vertically. */
  lemma TilesDoNotOverlap(photos: seq<GalleryPhoto>, config: GridConfig.Config,
                          r1: int, c1: int, r2: int, c2: int)
    requires |photos| > 0 && ValidConfig(config) && config.gap >= 0
    requires (r1, c1) != (r2, c2)
    ensures var t1, t2 := PlaceTile(photos, config, r1, c1), PlaceTile(photos, config, r2, c2);
            t1.left + t1.width <= t2.left || t2.left + t2.width <= t1.left ||
            t1.top + t1.height <= t2.top || t2.top + t2.height <= t1.top
  {
    var w, h := CellWidth(config), CellHeight(config);
    var pw, ph := config.photoWidth, config.photoHeight;
    if c1 < c2 {
      Separated(c1, c2, w, pw);
    } else if c2 < c1 {
      Separated(c2, c1, w, pw);
    } else if r1 < r2 {
      Separated(r1, r2, h, ph);
    } else {
      Separated(r2, r1, h, ph);
    }
  }

  // ---------------------------------------------------------------------
  // Enumerating the window in row-major order

  /** The `k`-th cell of the window when rows are walked outermost, as the
      two nested loops do. */
  function CellAt(w: Window, k: nat): (int, int)
    requires w.cols.Count() > 0
  {
    (w.rows.first + k / w.cols.Count(), w.cols.first + k % w.cols.Count())
  }

  lemma CellAtInWindow(w: Window, k: nat)
    requires w.cols.Count() > 0 && k < w.rows.Count() * w.cols.Count()
    ensures w.rows.Has(CellAt(w, k).0) && w.cols.Has(CellAt(w, k).1)
  {
    var n := w.cols.Count();
    if k / n >= w.rows.Count() {
      MulLeft(w.rows.Count(), k / n, n);
    }
  }

  lemma AllCellsInWindow(w: Window)
    requires w.cols.Count() > 0
    ensures forall k: nat :: k < w.rows.Count() * w.cols.Count() ==>
              w.rows.Has(CellAt(w, k).0) && w.cols.Has(CellAt(w, k).1)
  {
    forall k: nat | k < w.rows.Count() * w.cols.Count() {
      CellAtInWindow(w, k);
    }
  }

  /** `visiblePhotos`: nothing while loading or without photos; otherwise one
      tile per cell of the padded window, each placed at its lattice
      position and showing its assigned photo. */
  function VisiblePhotos(loading: bool, photos: seq<GalleryPhoto>, config: GridConfig.Config,
                         scroll: Point, viewport: Viewport): (tiles: seq<Tile>)
    requires ValidConfig(config)
    ensures loading || |photos| == 0 ==> tiles == []
    ensures !loading && |photos| > 0 ==>
              var w := VisibleWindow(scroll, viewport, config);
              |tiles| == w.rows.Count() * w.cols.Count() &&
              forall k :: 0 <= k < |tiles| ==>
                w.rows.Has(tiles[k].gridRow) && w.cols.Has(tiles[k].gridCol) &&
                tiles[k].photo == photos[TileIndex(tiles[k].gridRow, tiles[k].gridCol, |photos|)] &&
                tiles[k].key == CellKey(tiles[k].gridRow, tiles[k].gridCol, tiles[k].photo.id) &&
                tiles[k].left == tiles[k].gridCol * CellWidth(config) &&
                tiles[k].top == tiles[k].gridRow * CellHeight(config) &&
                tiles[k].width == config.photoWidth && tiles[k].height == config.photoHeight
  {
    if loading || |photos| == 0 then []
    else
      var w := VisibleWindow(scroll, viewport, config);
      AxisSpanNonEmpty(scroll.x, viewport.width, CellWidth(config));
      AllCellsInWindow(w);
      seq(w.rows.Count() * w.cols.Count(),
          k requires 0 <= k < w.rows.Count() * w.cols.Count() =>
            PlaceTile(photos, config, CellAt(w, k).0, CellAt(w, k).1))
  }

  /** Completeness: every cell of the window is among the visible tiles, at
      its row-major position. */
  lemma VisibleCoversWindow(loading: bool, photos: seq<GalleryPhoto>, config: GridConfig.Config,
                            scroll: Point, viewport: Viewport, row: int, col: int)
    requires ValidConfig(config) && !loading && |photos| > 0
    requires VisibleWindow(scroll, viewport, config).rows.Has(row)
    requires VisibleWindow(scroll, viewport, config).cols.Has(col)
    ensures var w := VisibleWindow(scroll, viewport, config);
            var tiles := VisiblePhotos(loading, photos, config, scroll, viewport);
            var k := (row - w.rows.first) * w.cols.Count() + (col - w.cols.first);
            0 <= k < |tiles| && tiles[k].gridRow == row && tiles[k].gridCol == col
  {
    var w := VisibleWindow(scroll, viewport, config);
    var n := w.cols.Count();
    var a, b := row - w.rows.first, col - w.cols.first;
    var k := a * n + b;
    DivModParts(a, b, n);
    MulLeft(0, a, n);
    MulLeft(a + 1, w.rows.Count(), n);
  }

  lemma CellAtRowMajor(w: Window, i: nat, j: nat)
    requires w.cols.Count() > 0 && i < j
    ensures CellAt(w, i).0 < CellAt(w, j).0 ||
            (CellAt(w, i).0 == CellAt(w, j).0 && CellAt(w, i).1 < CellAt(w, j).1)
  {
    var n := w.cols.Count();
    if j / n < i / n {
      MulLeft(j / n + 1, i / n, n);
    }
  }

  /** Tiles come in strictly increasing (row, column) order. */
  lemma VisibleRowMajor(loading: bool, photos: seq<GalleryPhoto>, config: GridConfig.Config,
                        scroll: Point, viewport: Viewport, i: int, j: int)
    requires ValidConfig(config)
    requires 0 <= i < j < |VisiblePhotos(loading, photos, config, scroll, viewport)|
    ensures var tiles := VisiblePhotos(loading, photos, config, scroll, viewport);
            tiles[i].gridRow < tiles[j].gridRow ||
            (tiles[i].gridRow == tiles[j].gridRow && tiles[i].gridCol < tiles[j].gridCol)
  {
    var w := VisibleWindow(scroll, viewport, config);
    var tiles := VisiblePhotos(loading, photos, config, scroll, viewport);
    assert tiles[i] == PlaceTile(photos, config, CellAt(w, i).0, CellAt(w, i).1);
    assert tiles[j] == PlaceTile(photos, config, CellAt(w, j).0, CellAt(w, j).1);
    CellAtRowMajor(w, i, j);
  }

  /** The keys of the visible tiles are pairwise distinct. */
  lemma VisibleKeysDistinct(loading: bool, photos: seq<GalleryPhoto>, config: GridConfig.Config,
                            scroll: Point, viewport: Viewport, i: int, j: int)
    requires ValidConfig(config)
    requires 0 <= i < |VisiblePhotos(loading, photos, config, scroll, viewport)|
    requires 0 <= j < |VisiblePhotos(loading, photos, config, scroll, viewport)|
    requires i != j
    ensures VisiblePhotos(loading, photos, config, scroll, viewport)[i].key !=
            VisiblePhotos(loading, photos, config, scroll, viewport)[j].key
  {
    if i < j {
      VisibleRowMajor(loading, photos, config, scroll, viewport, i, j);
    } else {
      VisibleRowMajor(loading, photos, config, scroll, viewport, j, i);
    }
  }

  // ---------------------------------------------------------------------
  // Committing scroll positions

  predicate MovedEnough(last: Point, next: Point) {
    Abs(next.x - last.x) > CommitThreshold || Abs(next.y - last.y) > CommitThreshold
  }

  /** `updateScrollPosition`: the grid adopts a reported position only when
      it differs from the last adopted one by more than 5 px on some axis.
      Either way the adopted position stays within 5 px of the report. */
  function CommitScroll(last: Point, next: Point): (r: Point)
    ensures r == last || r == next
    ensures r != last <==> MovedEnough(last, next)
    ensures Abs(r.x - next.x) <= CommitThreshold && Abs(r.y - next.y) <= CommitThreshold
  {
    if MovedEnough(last, next) then next else last
  }

  /** Reporting the same position twice commits nothing the second time. */
  lemma CommitScrollIdempotent(last: Point, next: Point)
    ensures CommitScroll(CommitScroll(last, next), next) == CommitScroll(last, next)
  {
  }
}
