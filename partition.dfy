/**
 * The block partition as a value-level specification: directions, ranges
 * and bounds, the block `_nextBlock` must find (the least end whose lines no
 * cell's span crosses), closed bounds and why the partition terminates, and
 * the sums `_blockSize` aggregates.
 */
module Partition {
  import opened Wrappers
  import opened Items
  import opened Grid
  import opened SizeConfigs

  datatype Direction = Row | Col

  /** An inclusive index range `{ start, end }`; it is empty when start > end. */
  datatype Range = Range(start: int, end: int)

  /** The `{ row, col }` part of a block's options. */
  datatype Bounds = Bounds(row: Range, col: Range)

  /** The E1025 configuration error: a block the partition cannot divide. */
  datatype LayoutError = E1025

  datatype Size = Num(n: real) | Auto

  /** The size fields a box item carries; None is a field the item does not set. */
  datatype ItemSize = ItemSize(
    ratio: real,
    baseSize: Option<Size>,
    minSize: Option<Size>,
    maxSize: Option<Size>,
    shrink: Option<real>)

  /** The partition tree: an item, the empty object of a never-claimed cell, or a box of sized children. */
  datatype Box = ItemLeaf(item: nat) | EmptyLeaf | Node(direction: Direction, items: seq<BoxItem>)
  datatype BoxItem = BoxItem(content: Box, size: ItemSize)

  /** `_crossDirection`. */
  function CrossDirection(d: Direction): (r: Direction)
    ensures r != d
  {
    if d == Col then Row else Col
  }

  function RangeOf(b: Bounds, d: Direction): Range {
    if d == Row then b.row else b.col
  }

  function WithRange(b: Bounds, d: Direction, r: Range): (b': Bounds)
    ensures RangeOf(b', d) == r && RangeOf(b', CrossDirection(d)) == RangeOf(b, CrossDirection(d))
  {
    if d == Row then b.(row := r) else b.(col := r)
  }

  /** The span of a location along axis `d`: `location[d + 'span']`. */
  function SpanAlong(loc: Location, d: Direction): int {
    if d == Row then loc.rowspan else loc.colspan
  }

  /** Number of grid lines along axis `d`. */
  function LineCount(g: seq<seq<Cell>>, d: Direction): nat {
    if d == Row then |g| else Width(g)
  }

  /**
   * The (row, col) of the cell `_cellByDirection(d, index, crossIndex)` reads:
   * `index` is the coordinate on axis `d`, `crossIndex` the one on the cross axis.
   */
  function Coord(d: Direction, index: int, crossIndex: int): (p: (int, int))
    ensures d == Row ==> p == (index, crossIndex)
    ensures d == Col ==> p == (crossIndex, index)
  {
    if d == Col then (crossIndex, index) else (index, crossIndex)
  }

  ghost function CellAlong(g: seq<seq<Cell>>, d: Direction, index: int, crossIndex: int): Cell
    requires Rectangular(g)
    requires 0 <= index < LineCount(g, d) && 0 <= crossIndex < LineCount(g, CrossDirection(d))
  {
    var (r, c) := Coord(d, index, crossIndex);
    g[r][c]
  }

  /** Bounds whose ranges start at 0 or later and end inside the grid (they may be empty). */
  ghost predicate BoundsInGrid(g: seq<seq<Cell>>, b: Bounds) {
    0 <= b.row.start && b.row.end < |g| && 0 <= b.col.start && b.col.end < Width(g)
  }

  predicate NonEmpty(b: Bounds) {
    b.row.start <= b.row.end && b.col.start <= b.col.end
  }

  /**
   * Lines cs..e across the cross axis, restricted to lo..hi on axis `d`, hold
   * no cell whose cross-axis span runs past line e.
   */
  ghost predicate LinesClosed(g: seq<seq<Cell>>, d: Direction, lo: int, hi: int, cs: int, e: int)
    requires Rectangular(g)
    requires 0 <= lo && hi < LineCount(g, d) && 0 <= cs && e < LineCount(g, CrossDirection(d))
  {
    forall i, x :: cs <= i <= e && lo <= x <= hi ==>
      i + SpanAlong(CellAlong(g, d, x, i).location, CrossDirection(d)) - 1 <= e
  }

  lemma LastLineClosed(g: seq<seq<Cell>>, d: Direction, lo: int, hi: int, cs: int)
    requires SpansInGrid(g)
    requires 0 <= lo && hi < LineCount(g, d) && 0 <= cs && 0 < LineCount(g, CrossDirection(d))
    ensures LinesClosed(g, d, lo, hi, cs, LineCount(g, CrossDirection(d)) - 1)
  {
    var e := LineCount(g, CrossDirection(d)) - 1;
    forall i, x | cs <= i <= e && lo <= x <= hi
      ensures i + SpanAlong(CellAlong(g, d, x, i).location, CrossDirection(d)) - 1 <= e
    {
      var (r, c) := Coord(d, x, i);
      assert InGrid(g, r, c);
    }
  }

  /** The least end, from `e` on, whose lines are closed (an independent reference for `_nextBlock`). */
  ghost function LeastClosedEnd(g: seq<seq<Cell>>, d: Direction, lo: int, hi: int, cs: int, e: int): (r: int)
    requires SpansInGrid(g)
    requires 0 <= lo && hi < LineCount(g, d) && 0 <= cs <= e < LineCount(g, CrossDirection(d))
    decreases LineCount(g, CrossDirection(d)) - e
    ensures e <= r < LineCount(g, CrossDirection(d))
    ensures LinesClosed(g, d, lo, hi, cs, r)
    ensures forall e' :: e <= e' < r ==> !LinesClosed(g, d, lo, hi, cs, e')
  {
    if LinesClosed(g, d, lo, hi, cs, e) then e
    else if e + 1 == LineCount(g, CrossDirection(d)) then
      LastLineClosed(g, d, lo, hi, cs);
      e
    else LeastClosedEnd(g, d, lo, hi, cs, e + 1)
  }

  /**
   * The block `_nextBlock` returns for bounds `b` scanned in direction `d`:
   * none once the cross range is used up; otherwise `b`'s range on `d`, and on
   * the cross axis the range from the cross start to the least closed end.
   */
  ghost function NextBlockSpec(g: seq<seq<Cell>>, b: Bounds, d: Direction): (r: Option<Bounds>)
    requires SpansInGrid(g) && BoundsInGrid(g, b)
    ensures r.None? <==> RangeOf(b, CrossDirection(d)).start > RangeOf(b, CrossDirection(d)).end
    ensures r.Some? ==>
              var cr := RangeOf(r.value, CrossDirection(d));
              && RangeOf(r.value, d) == RangeOf(b, d)
              && cr.start == RangeOf(b, CrossDirection(d)).start
              && cr.start <= cr.end < LineCount(g, CrossDirection(d))
  {
    var dr := RangeOf(b, d);
    var cr := RangeOf(b, CrossDirection(d));
    if cr.start > cr.end then None
    else Some(WithRange(b, CrossDirection(d), Range(cr.start, LeastClosedEnd(g, d, dr.start, dr.end, cr.start, cr.start))))
  }

  /** An end that is closed and has no closed end below it is the least closed end. */
  lemma {:induction false} LeastClosedEndUnique(g: seq<seq<Cell>>, d: Direction, lo: int, hi: int, cs: int, e: int, m: int)
    requires SpansInGrid(g)
    requires 0 <= lo && hi < LineCount(g, d) && 0 <= cs <= e <= m < LineCount(g, CrossDirection(d))
    requires LinesClosed(g, d, lo, hi, cs, m)
    requires forall e' :: e <= e' < m ==> !LinesClosed(g, d, lo, hi, cs, e')
    ensures LeastClosedEnd(g, d, lo, hi, cs, e) == m
    decreases m - e
  {
    if e < m {
      LeastClosedEndUnique(g, d, lo, hi, cs, e + 1, m);
    }
  }

  // ---------------------------------------------------------------------------
  // Closed bounds and termination

  /** No cell inside `b` has a span that runs past `b`'s last row or last column. */
  ghost predicate Closed(g: seq<seq<Cell>>, b: Bounds)
    requires Rectangular(g) && BoundsInGrid(g, b)
  {
    forall r, c :: b.row.start <= r <= b.row.end && b.col.start <= c <= b.col.end ==>
      && r + g[r][c].location.rowspan - 1 <= b.row.end
      && c + g[r][c].location.colspan - 1 <= b.col.end
  }

  /** The whole grid is closed once every span is clipped to the grid. */
  lemma WholeGridClosed(g: seq<seq<Cell>>)
    requires SpansInGrid(g)
    ensures Closed(g, Bounds(Range(0, |g| - 1), Range(0, Width(g) - 1)))
  {
    var b := Bounds(Range(0, |g| - 1), Range(0, Width(g) - 1));
    forall r, c | b.row.start <= r <= b.row.end && b.col.start <= c <= b.col.end
      ensures r + g[r][c].location.rowspan - 1 <= b.row.end && c + g[r][c].location.colspan - 1 <= b.col.end
    {
      assert InGrid(g, r, c);
    }
  }

  /**
   * In closed bounds the next block stays inside the bounds and is itself
   * closed, so the recursion into it works on a part of the grid.
   */
  lemma NextBlockInside(g: seq<seq<Cell>>, b: Bounds, d: Direction)
    requires SpansInGrid(g) && BoundsInGrid(g, b) && Closed(g, b)
    requires RangeOf(b, CrossDirection(d)).start <= RangeOf(b, CrossDirection(d)).end
    ensures NextBlockSpec(g, b, d).Some?
    ensures var blk := NextBlockSpec(g, b, d).value;
            && BoundsInGrid(g, blk) && Closed(g, blk)
            && RangeOf(blk, CrossDirection(d)).end <= RangeOf(b, CrossDirection(d)).end
  {
    var cd := CrossDirection(d);
    var dr, cr := RangeOf(b, d), RangeOf(b, cd);
    var blk := NextBlockSpec(g, b, d).value;
    var e := RangeOf(blk, cd).end;
    assert LinesClosed(g, d, dr.start, dr.end, cr.start, cr.end) by {
      forall i, x | cr.start <= i <= cr.end && dr.start <= x <= dr.end
        ensures i + SpanAlong(CellAlong(g, d, x, i).location, cd) - 1 <= cr.end
      {
        var (r, c) := Coord(d, x, i);
      }
    }
    assert e <= cr.end;
    assert LinesClosed(g, d, dr.start, dr.end, cr.start, e);
    forall r, c | blk.row.start <= r <= blk.row.end && blk.col.start <= c <= blk.col.end
      ensures r + g[r][c].location.rowspan - 1 <= blk.row.end
      ensures c + g[r][c].location.colspan - 1 <= blk.col.end
    {
      if d == Row {
        assert g[r][c] == CellAlong(g, d, r, c);
      } else {
        assert g[r][c] == CellAlong(g, d, c, r);
      }
    }
  }

  /** Moving the start of a closed block's cross range forward, up to its end, leaves it closed. */
  lemma AdvanceClosed(g: seq<seq<Cell>>, b: Bounds, d: Direction, start: int)
    requires Rectangular(g) && BoundsInGrid(g, b) && Closed(g, b)
    requires RangeOf(b, CrossDirection(d)).start <= start
    ensures var b' := WithRange(b, CrossDirection(d), Range(start, RangeOf(b, CrossDirection(d)).end));
            BoundsInGrid(g, b') && Closed(g, b')
  {
  }

  /** `inner` lies within `outer`. */
  predicate Inside(inner: Bounds, outer: Bounds) {
    && outer.row.start <= inner.row.start && inner.row.end <= outer.row.end
    && outer.col.start <= inner.col.start && inner.col.end <= outer.col.end
  }

  /** The items of the tree's leaves. */
  function LeafItems(x: Box): set<nat> {
    match x
    case ItemLeaf(k) => {k}
    case EmptyLeaf => {}
    case Node(_, items) => set i, k | 0 <= i < |items| && k in LeafItems(items[i].content) :: k
  }

  /** The items held by the cells of `b`. */
  ghost function ItemsIn(g: seq<seq<Cell>>, b: Bounds): set<nat>
    requires Rectangular(g) && BoundsInGrid(g, b)
  {
    set r, c | b.row.start <= r <= b.row.end && b.col.start <= c <= b.col.end && g[r][c].item.Some? :: g[r][c].item.value
  }

  lemma ItemsInMono(g: seq<seq<Cell>>, inner: Bounds, outer: Bounds)
    requires Rectangular(g) && BoundsInGrid(g, inner) && BoundsInGrid(g, outer) && Inside(inner, outer)
    ensures ItemsIn(g, inner) <= ItemsIn(g, outer)
  {
    forall k | k in ItemsIn(g, inner) ensures k in ItemsIn(g, outer) {
      var r, c :| inner.row.start <= r <= inner.row.end && inner.col.start <= c <= inner.col.end
                  && g[r][c].item == Some(k);
    }
  }

  /** Rows plus columns the bounds cover; 0 for empty bounds. */
  function Extent(b: Bounds): nat {
    if NonEmpty(b) then (b.row.end - b.row.start + 1) + (b.col.end - b.col.start + 1) else 0
  }

  /** A non-empty block strictly inside non-empty bounds has a smaller extent. */
  lemma ExtentShrinks(inner: Bounds, outer: Bounds)
    requires NonEmpty(inner) && NonEmpty(outer) && Inside(inner, outer) && inner != outer
    ensures Extent(inner) < Extent(outer)
  {
  }

  // ---------------------------------------------------------------------------
  // Size aggregation

  /** The totals `_blockSize` accumulates over lines lo..hi: four sums and the last shrink set. */
  datatype Totals = Totals(ratio: real, baseSize: real, minSize: real, maxSize: real, shrink: Option<real>)

  /** The totals over configs lo..hi, accumulated line by line from lo. */
  function Accumulate(configs: seq<SizeConfig>, lo: int, hi: int): Totals
    requires 0 <= lo && hi < |configs|
    decreases hi - lo
  {
    if lo > hi then Totals(0.0, 0.0, 0.0, 0.0, None)
    else
      var t := Accumulate(configs, lo, hi - 1);
      var c := configs[hi];
      Totals(t.ratio + c.ratio, t.baseSize + c.baseSize, t.minSize + c.minSize, t.maxSize + c.maxSize,
             if c.shrink.Some? then c.shrink else t.shrink)
  }

  /** The accumulated shrink is that of the last config in lo..hi that sets one, and unset when none does. */
  lemma {:induction false} LastShrinkSet(configs: seq<SizeConfig>, lo: int, hi: int)
    requires 0 <= lo && hi < |configs|
    decreases hi - lo
    ensures var r := Accumulate(configs, lo, hi).shrink;
            r.Some? ==> exists i :: lo <= i <= hi && configs[i].shrink == r
                                    && forall j :: i < j <= hi ==> configs[j].shrink.None?
    ensures Accumulate(configs, lo, hi).shrink.None? ==> forall i :: lo <= i <= hi ==> configs[i].shrink.None?
  {
    if lo <= hi && configs[hi].shrink.None? {
      LastShrinkSet(configs, lo, hi - 1);
    }
  }

  /** Ratios accumulated over adjacent ranges add up to the ratio over their union. */
  lemma {:induction false} RatioSplit(configs: seq<SizeConfig>, lo: int, mid: int, hi: int)
    requires 0 <= lo <= mid + 1 && mid <= hi && hi < |configs|
    ensures Accumulate(configs, lo, hi).ratio == Accumulate(configs, lo, mid).ratio + Accumulate(configs, mid + 1, hi).ratio
    decreases hi - mid
  {
    if hi > mid {
      RatioSplit(configs, lo, mid, hi - 1);
    }
  }

  /**
   * The size of a block covering configs lo..hi of one axis: ratio, baseSize,
   * minSize and maxSize summed; a zero minSize becomes "auto" on the row axis
   * and stays 0 on the column axis; a zero maxSize becomes "auto"; baseSize is
   * "auto" in single-column mode; shrink is the last one set.
   */
  function BlockSizeSpec(configs: seq<SizeConfig>, lo: int, hi: int, d: Direction, singleColumn: bool): ItemSize
    requires 0 <= lo && hi < |configs|
  {
    var t := Accumulate(configs, lo, hi);
    ItemSize(
      t.ratio,
      Some(if singleColumn then Auto else Num(t.baseSize)),
      Some(if t.minSize != 0.0 then Num(t.minSize) else if d == Row then Auto else Num(0.0)),
      Some(if t.maxSize != 0.0 then Num(t.maxSize) else Auto),
      t.shrink)
  }

  /** A block of one line takes that line's own ratio and shrink. */
  lemma BlockSizeOneLine(configs: seq<SizeConfig>, i: int, d: Direction, singleColumn: bool)
    requires 0 <= i < |configs|
    ensures BlockSizeSpec(configs, i, i, d, singleColumn).ratio == configs[i].ratio
    ensures BlockSizeSpec(configs, i, i, d, singleColumn).shrink == configs[i].shrink
    ensures !singleColumn ==> BlockSizeSpec(configs, i, i, d, singleColumn).baseSize == Some(Num(configs[i].baseSize))
  {
    assert Accumulate(configs, i, i - 1) == Totals(0.0, 0.0, 0.0, 0.0, None);
  }

  /** Two adjacent blocks' ratios add up to the ratio of the block covering both. */
  lemma BlockRatioSplit(configs: seq<SizeConfig>, lo: int, mid: int, hi: int, d: Direction, singleColumn: bool)
    requires 0 <= lo <= mid < hi < |configs|
    ensures BlockSizeSpec(configs, lo, hi, d, singleColumn).ratio
            == BlockSizeSpec(configs, lo, mid, d, singleColumn).ratio + BlockSizeSpec(configs, mid + 1, hi, d, singleColumn).ratio
  {
    RatioSplit(configs, lo, mid, hi);
  }

  /** JavaScript falsiness of an optional size: unset or the number 0 ("auto" is truthy). */
  predicate Falsy(v: Option<Size>) {
    v.None? || (v.value.Num? && v.value.n == 0.0)
  }

  /** A size that is a number other than 0. */
  predicate NonZeroNumber(v: Option<Size>) {
    v.Some? && v.value.Num? && v.value.n != 0.0
  }

  /** `_needApplyAutoBaseSize`. */
  function NeedApplyAutoBaseSize(s: ItemSize): (r: bool)
    ensures r <==> (s.baseSize != Some(Auto) && !NonZeroNumber(s.baseSize)
                    && !NonZeroNumber(s.minSize) && !NonZeroNumber(s.maxSize))
  {
    Falsy(s.baseSize) && (Falsy(s.minSize) || s.minSize == Some(Auto)) && (Falsy(s.maxSize) || s.maxSize == Some(Auto))
  }

  /** `_isBlockIndivisible`: the parent's current bounds exist and equal the block. */
  function IsBlockIndivisible(prev: Option<Bounds>, block: Bounds): (r: bool)
    ensures r <==> prev == Some(block)
  {
    prev.Some?
    && prev.value.col.start == block.col.start && prev.value.col.end == block.col.end
    && prev.value.row.start == block.row.start && prev.value.row.end == block.row.end
  }
}
