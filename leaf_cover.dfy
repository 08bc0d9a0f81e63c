/**
 * That the partition loses no item: every item some cell of a block holds
 * shows up as a leaf of the block's layout.  It holds for blocks that keep
 * their spanned items whole — every secondary cell of the block points at a
 * primary cell inside it — which the root bounds do and every block
 * `_nextBlock` cuts from such bounds does again.  For those blocks the first
 * cell is never secondary, so `_layoutBlock` never returns null for them.
 */
module LeafCover {
  import opened Wrappers
  import opened Grid
  import opened SizeConfigs
  import opened Partition
  import opened LayoutSpec

  /** The coordinate of cell (r, c) on axis `a`. */
  function CoordOn(r: int, c: int, a: Direction): int {
    if a == Row then r else c
  }

  /** Every secondary cell of `b` points at a primary cell that is itself in `b`. */
  ghost predicate SelfContained(g: seq<seq<Cell>>, b: Bounds)
    requires Rectangular(g) && BoundsInGrid(g, b)
  {
    forall r, c :: b.row.start <= r <= b.row.end && b.col.start <= c <= b.col.end && g[r][c].spanningCell.Some? ==>
      b.row.start <= g[r][c].spanningCell.value.0 && b.col.start <= g[r][c].spanningCell.value.1
  }

  /**
   * The cells of b that come before `cur` on the cross axis have spans that
   * end before `cur` starts: the blocks already cut off are closed.
   */
  ghost predicate ClosedBefore(g: seq<seq<Cell>>, b: Bounds, d: Direction, cur: Bounds)
    requires Rectangular(g) && BoundsInGrid(g, b)
  {
    var cd := CrossDirection(d);
    forall r, c :: b.row.start <= r <= b.row.end && b.col.start <= c <= b.col.end
                   && CoordOn(r, c, cd) < RangeOf(cur, cd).start ==>
      CoordOn(r, c, cd) + SpanAlong(g[r][c].location, cd) <= RangeOf(cur, cd).start
  }

  /** In a well-formed grid the whole grid keeps its spanned items whole. */
  lemma WholeGridSelfContained(g: seq<seq<Cell>>)
    requires WellFormed(g)
    ensures BoundsInGrid(g, Bounds(Range(0, |g| - 1), Range(0, Width(g) - 1)))
    ensures SelfContained(g, Bounds(Range(0, |g| - 1), Range(0, Width(g) - 1)))
  {
    var b := Bounds(Range(0, |g| - 1), Range(0, Width(g) - 1));
    forall r, c | b.row.start <= r <= b.row.end && b.col.start <= c <= b.col.end && g[r][c].spanningCell.Some?
      ensures b.row.start <= g[r][c].spanningCell.value.0 && b.col.start <= g[r][c].spanningCell.value.1
    {
      assert InGrid(g, r, c) && CellOk(g, r, c);
    }
  }

  /** The first cell of non-empty bounds that keep their spanned items whole is not secondary. */
  lemma FirstCellNotSecondary(g: seq<seq<Cell>>, b: Bounds)
    requires WellFormed(g) && BoundsInGrid(g, b) && NonEmpty(b) && SelfContained(g, b)
    ensures g[b.row.start][b.col.start].spanningCell.None?
  {
    var r, c := b.row.start, b.col.start;
    assert InGrid(g, r, c) && CellOk(g, r, c);
  }

  /**
   * A single-item block that keeps its spanned items whole is laid out as a
   * leaf (never null) showing every item its cells hold.
   */
  lemma SingleItemCovers(g: seq<seq<Cell>>, b: Bounds)
    requires WellFormed(g) && BoundsInGrid(g, b) && NonEmpty(b) && SelfContained(g, b) && SingleItem(g, b)
    ensures ItemAt(g, b.row.start, b.col.start).Some?
    ensures ItemsIn(g, b) <= LeafItems(ItemAt(g, b.row.start, b.col.start).value)
  {
    var r, c := b.row.start, b.col.start;
    FirstCellNotSecondary(g, b);
    assert InGrid(g, r, c) && CellOk(g, r, c);
    forall k | k in ItemsIn(g, b) ensures k in LeafItems(ItemAt(g, r, c).value) {
      var i, j :| b.row.start <= i <= b.row.end && b.col.start <= j <= b.col.end && g[i][j].item == Some(k);
      assert InGrid(g, i, j);
      if (i, j) != (r, c) {
        assert g[r][c].item.Some?;
        assert InSpan(g[r][c].location, i, j);
      }
    }
  }

  /** Nothing precedes the first block, so the bounds themselves are closed before. */
  lemma ClosedBeforeStart(g: seq<seq<Cell>>, b: Bounds, d: Direction)
    requires Rectangular(g) && BoundsInGrid(g, b)
    ensures ClosedBefore(g, b, d, b)
  {
  }

  /** Bounds whose cross range is used up hold no item. */
  lemma NoCrossNoItems(g: seq<seq<Cell>>, cur: Bounds, d: Direction)
    requires Rectangular(g) && BoundsInGrid(g, cur)
    requires RangeOf(cur, CrossDirection(d)).start > RangeOf(cur, CrossDirection(d)).end
    ensures ItemsIn(g, cur) == {}
  {
  }

  /** Moving past a closed block keeps the cut-off part of b closed. */
  lemma PastBlockClosedBefore(g: seq<seq<Cell>>, b: Bounds, d: Direction, cur: Bounds)
    requires Layable(g, b) && Following(g, b, d, cur) && ClosedBefore(g, b, d, cur)
    requires NextBlockSpec(g, cur, d).Some?
    ensures ClosedBefore(g, b, d, PastBlock(cur, d, NextBlockSpec(g, cur, d).value))
  {
    var cd := CrossDirection(d);
    NextChild(g, b, d, cur);
    var blk := NextBlockSpec(g, cur, d).value;
    var next := PastBlock(cur, d, blk);
    forall r, c | b.row.start <= r <= b.row.end && b.col.start <= c <= b.col.end
                  && CoordOn(r, c, cd) < RangeOf(next, cd).start
      ensures CoordOn(r, c, cd) + SpanAlong(g[r][c].location, cd) <= RangeOf(next, cd).start
    {
      if RangeOf(cur, cd).start <= CoordOn(r, c, cd) {
        assert blk.row.start <= r <= blk.row.end && blk.col.start <= c <= blk.col.end;
      }
    }
  }

  /** A block `_nextBlock` cuts from bounds that keep their spanned items whole keeps them whole too. */
  lemma BlockSelfContained(g: seq<seq<Cell>>, b: Bounds, d: Direction, cur: Bounds)
    requires WellFormed(g) && Layable(g, b) && Following(g, b, d, cur)
    requires SelfContained(g, b) && ClosedBefore(g, b, d, cur)
    requires NextBlockSpec(g, cur, d).Some?
    ensures BoundsInGrid(g, NextBlockSpec(g, cur, d).value)
    ensures SelfContained(g, NextBlockSpec(g, cur, d).value)
  {
    var cd := CrossDirection(d);
    NextChild(g, b, d, cur);
    var blk := NextBlockSpec(g, cur, d).value;
    forall r, c | blk.row.start <= r <= blk.row.end && blk.col.start <= c <= blk.col.end && g[r][c].spanningCell.Some?
      ensures blk.row.start <= g[r][c].spanningCell.value.0 && blk.col.start <= g[r][c].spanningCell.value.1
    {
      assert InGrid(g, r, c) && CellOk(g, r, c);
      var (r0, c0) := g[r][c].spanningCell.value;
      assert InGrid(g, r0, c0) && CellOk(g, r0, c0);
      assert b.row.start <= r0 <= b.row.end && b.col.start <= c0 <= b.col.end;
      assert CoordOn(r, c, cd) < CoordOn(r0, c0, cd) + SpanAlong(g[r0][c0].location, cd);
    }
  }

  /** The items of `cur` are those of its next block and of the bounds past it. */
  lemma ItemsSplit(g: seq<seq<Cell>>, b: Bounds, d: Direction, cur: Bounds)
    requires Layable(g, b) && Following(g, b, d, cur)
    requires NextBlockSpec(g, cur, d).Some?
    ensures var blk := NextBlockSpec(g, cur, d).value;
            && BoundsInGrid(g, blk) && BoundsInGrid(g, PastBlock(cur, d, blk))
            && ItemsIn(g, cur) <= ItemsIn(g, blk) + ItemsIn(g, PastBlock(cur, d, blk))
  {
    var cd := CrossDirection(d);
    NextChild(g, b, d, cur);
    var blk := NextBlockSpec(g, cur, d).value;
    var next := PastBlock(cur, d, blk);
    forall k | k in ItemsIn(g, cur) ensures k in ItemsIn(g, blk) + ItemsIn(g, next) {
      var r, c :| cur.row.start <= r <= cur.row.end && cur.col.start <= c <= cur.col.end && g[r][c].item == Some(k);
      if CoordOn(r, c, cd) <= RangeOf(blk, cd).end {
        assert blk.row.start <= r <= blk.row.end && blk.col.start <= c <= blk.col.end;
      } else {
        assert next.row.start <= r <= next.row.end && next.col.start <= c <= next.col.end;
      }
    }
  }

  /**
   * The layout of a block that keeps its spanned items whole is never null,
   * and every item its cells hold shows up as a leaf.
   */
  lemma {:induction false} BlockCovers(g: seq<seq<Cell>>, rows: seq<SizeConfig>, cols: seq<SizeConfig>, sc: bool,
                                       b: Bounds, d: Direction, prev: Option<Bounds>)
    requires Fits(g, rows, cols) && WellFormed(g) && Layable(g, b) && SelfContained(g, b)
    ensures var r := BlockLayout(g, rows, cols, sc, b, d, prev);
            r.Ok? ==> r.value.Some? && ItemsIn(g, b) <= LeafItems(r.value.value)
    decreases Extent(b), if prev == Some(b) then 0 else 1, 1, 0
  {
    if SingleItem(g, b) {
      SingleItemCovers(g, b);
    } else {
      ClosedBeforeStart(g, b, d);
      DirectionCovers(g, rows, cols, sc, b, d, prev, b, []);
    }
  }

  /**
   * From following bounds on, `_layoutDirection` keeps the leaves it has and
   * adds every item the cells of the rest of the bounds hold.
   */
  lemma {:induction false} DirectionCovers(g: seq<seq<Cell>>, rows: seq<SizeConfig>, cols: seq<SizeConfig>, sc: bool,
                                           b: Bounds, d: Direction, prev: Option<Bounds>, cur: Bounds, items: seq<BoxItem>)
    requires Fits(g, rows, cols) && WellFormed(g) && Layable(g, b) && Following(g, b, d, cur)
    requires SelfContained(g, b) && ClosedBefore(g, b, d, cur)
    ensures var r := DirectionLayout(g, rows, cols, sc, b, d, prev, cur, items);
            r.Ok? ==> LeafItems(Node(d, items)) + ItemsIn(g, cur) <= LeafItems(r.value)
    decreases Extent(b), if prev == Some(b) then 0 else 1, 0,
              RangeOf(b, CrossDirection(d)).end + 1 - RangeOf(cur, CrossDirection(d)).start
  {
    var cd := CrossDirection(d);
    var block := NextBlockSpec(g, cur, d);
    if block.None? {
      DirectionEnds(g, rows, cols, sc, b, d, prev, cur, items);
      NoCrossNoItems(g, cur, d);
    } else {
      DirectionStep(g, rows, cols, sc, b, d, prev, cur, items);
      var blk := block.value;
      if !IsBlockIndivisible(prev, blk) {
        BlockSelfContained(g, b, d, cur);
        BlockCovers(g, rows, cols, sc, blk, cd, Some(cur));
        var x := ChildLayout(g, rows, cols, sc, blk, cd, cur);
        if x.Ok? {
          var next := PastBlock(cur, d, blk);
          PastBlockClosedBefore(g, b, d, cur);
          ItemsSplit(g, b, d, cur);
          NodeLeavesSnoc(d, items, x.value.value);
          DirectionCovers(g, rows, cols, sc, b, d, prev, next, Kept(items, x.value));
        }
      }
    }
  }

  /**
   * For a block that keeps its spanned items whole, the leaves of its layout
   * show exactly the items its cells hold.
   */
  lemma BlockLeavesExact(g: seq<seq<Cell>>, rows: seq<SizeConfig>, cols: seq<SizeConfig>, sc: bool,
                         b: Bounds, d: Direction, prev: Option<Bounds>)
    requires Fits(g, rows, cols) && WellFormed(g) && Layable(g, b) && SelfContained(g, b)
    ensures var r := BlockLayout(g, rows, cols, sc, b, d, prev);
            r.Ok? ==> r.value.Some? && LeafItems(r.value.value) == ItemsIn(g, b)
  {
    BlockLeaves(g, rows, cols, sc, b, d, prev);
    BlockCovers(g, rows, cols, sc, b, d, prev);
  }

  // ---------------------------------------------------------------------------
  // One leaf per placed item

  /** The items of the tree's leaves, each counted once per leaf that shows it. */
  function LeafBag(x: Box): multiset<nat>
    decreases x, if x.Node? then |x.items| + 1 else 0
  {
    match x
    case ItemLeaf(k) => multiset{k}
    case EmptyLeaf => multiset{}
    case Node(_, items) => ChildrenBag(x, |items|)
  }

  /** The leaves of the first n children of box x, counted with multiplicity. */
  function ChildrenBag(x: Box, n: nat): multiset<nat>
    requires x.Node? && n <= |x.items|
    decreases x, n
  {
    if n == 0 then multiset{}
    else
      assert x.items[n - 1] in x.items;
      ChildrenBag(x, n - 1) + LeafBag(x.items[n - 1].content)
  }

  /** The primary cells of `b` that hold item k: one per placement of k inside `b`. */
  ghost function OriginCells(g: seq<seq<Cell>>, b: Bounds, k: nat): set<(int, int)>
    requires Rectangular(g) && BoundsInGrid(g, b)
  {
    set r, c | b.row.start <= r <= b.row.end && b.col.start <= c <= b.col.end
               && IsOrigin(g[r][c]) && g[r][c].item == Some(k) :: (r, c)
  }

  /** Every item is shown by as many leaves as `b` has primary cells holding it. */
  ghost predicate LeafPerOrigin(g: seq<seq<Cell>>, b: Bounds, x: Box)
    requires Rectangular(g) && BoundsInGrid(g, b)
  {
    forall k: nat :: LeafBag(x)[k] == |OriginCells(g, b, k)|
  }

  /** Boxes whose first n children have the same contents have the same leaves among them. */
  lemma {:induction false} ChildrenBagSameContents(x: Box, y: Box, n: nat)
    requires x.Node? && y.Node? && n <= |x.items| && n <= |y.items|
    requires forall i :: 0 <= i < n ==> x.items[i].content == y.items[i].content
    ensures ChildrenBag(x, n) == ChildrenBag(y, n)
    decreases n
  {
    if n > 0 {
      ChildrenBagSameContents(x, y, n - 1);
    }
  }

  /** A box with one more child shows that child's leaves as well. */
  lemma LeafBagSnoc(d: Direction, items: seq<BoxItem>, x: BoxItem)
    ensures LeafBag(Node(d, items + [x])) == LeafBag(Node(d, items)) + LeafBag(x.content)
  {
    var s := items + [x];
    ChildrenBagSameContents(Node(d, s), Node(d, items), |items|);
    assert s[|items|] == x;
  }

  /** Disjoint sets: the size of the union is the sum of the sizes. */
  lemma DisjointUnionSize<T>(a: set<T>, b: set<T>)
    requires a * b == {}
    ensures |a + b| == |a| + |b|
  {
  }

  /** Bounds whose cross range is used up hold no primary cell. */
  lemma NoCrossNoOrigins(g: seq<seq<Cell>>, cur: Bounds, d: Direction, k: nat)
    requires Rectangular(g) && BoundsInGrid(g, cur)
    requires RangeOf(cur, CrossDirection(d)).start > RangeOf(cur, CrossDirection(d)).end
    ensures |OriginCells(g, cur, k)| == 0
  {
    assert OriginCells(g, cur, k) == {};
  }

  /** Cutting bounds at row e splits their primary cells between the rows up to e and the rows after it. */
  lemma OriginsSplitRows(g: seq<seq<Cell>>, cur: Bounds, e: int, k: nat)
    requires Rectangular(g) && BoundsInGrid(g, cur) && cur.row.start <= e <= cur.row.end
    ensures var top, bottom := cur.(row := Range(cur.row.start, e)), cur.(row := Range(e + 1, cur.row.end));
            && BoundsInGrid(g, top) && BoundsInGrid(g, bottom)
            && |OriginCells(g, cur, k)| == |OriginCells(g, top, k)| + |OriginCells(g, bottom, k)|
  {
    var top, bottom := cur.(row := Range(cur.row.start, e)), cur.(row := Range(e + 1, cur.row.end));
    var all, left, right := OriginCells(g, cur, k), OriginCells(g, top, k), OriginCells(g, bottom, k);
    assert all == left + right;
    DisjointUnionSize(left, right);
  }

  /** Cutting bounds at column e splits their primary cells between the columns up to e and those after it. */
  lemma OriginsSplitCols(g: seq<seq<Cell>>, cur: Bounds, e: int, k: nat)
    requires Rectangular(g) && BoundsInGrid(g, cur) && cur.col.start <= e <= cur.col.end
    ensures var left, right := cur.(col := Range(cur.col.start, e)), cur.(col := Range(e + 1, cur.col.end));
            && BoundsInGrid(g, left) && BoundsInGrid(g, right)
            && |OriginCells(g, cur, k)| == |OriginCells(g, left, k)| + |OriginCells(g, right, k)|
  {
    var left, right := cur.(col := Range(cur.col.start, e)), cur.(col := Range(e + 1, cur.col.end));
    var all, l, r := OriginCells(g, cur, k), OriginCells(g, left, k), OriginCells(g, right, k);
    assert all == l + r;
    DisjointUnionSize(l, r);
  }

  /** The primary cells of `cur` are split between its next block and the bounds past it. */
  lemma OriginsSplit(g: seq<seq<Cell>>, b: Bounds, d: Direction, cur: Bounds, k: nat)
    requires Layable(g, b) && Following(g, b, d, cur)
    requires NextBlockSpec(g, cur, d).Some?
    ensures var blk := NextBlockSpec(g, cur, d).value;
            && BoundsInGrid(g, blk) && BoundsInGrid(g, PastBlock(cur, d, blk))
            && |OriginCells(g, cur, k)| == |OriginCells(g, blk, k)| + |OriginCells(g, PastBlock(cur, d, blk), k)|
  {
    NextChild(g, b, d, cur);
    var blk := NextBlockSpec(g, cur, d).value;
    if d == Col {
      OriginsSplitRows(g, cur, blk.row.end, k);
    } else {
      OriginsSplitCols(g, cur, blk.col.end, k);
    }
  }

  /**
   * A self-contained single-item block holds one primary cell, its first,
   * and the leaf it becomes shows that cell's item once.
   */
  lemma SingleItemCounts(g: seq<seq<Cell>>, b: Bounds)
    requires WellFormed(g) && BoundsInGrid(g, b) && NonEmpty(b) && SelfContained(g, b) && SingleItem(g, b)
    ensures ItemAt(g, b.row.start, b.col.start).Some?
    ensures LeafPerOrigin(g, b, ItemAt(g, b.row.start, b.col.start).value)
  {
    var r, c := b.row.start, b.col.start;
    FirstCellNotSecondary(g, b);
    assert InGrid(g, r, c) && CellOk(g, r, c);
    var x := ItemAt(g, r, c).value;
    forall k: nat ensures LeafBag(x)[k] == |OriginCells(g, b, k)| {
      var cells := OriginCells(g, b, k);
      forall p | p in cells ensures p == (r, c) {
        var (i, j) := p;
        assert InGrid(g, i, j);
        if (i, j) != (r, c) {
          assert InSpan(g[r][c].location, i, j);
        }
      }
      if g[r][c].item == Some(k) {
        assert (r, c) in cells;
        assert cells == {(r, c)};
      } else {
        assert cells == {};
      }
    }
  }

  /**
   * The layout of a self-contained block shows each item once per primary
   * cell of the block that holds it: no placement is lost or shown twice.
   */
  lemma {:induction false} BlockCounts(g: seq<seq<Cell>>, rows: seq<SizeConfig>, cols: seq<SizeConfig>, sc: bool,
                                       b: Bounds, d: Direction, prev: Option<Bounds>)
    requires Fits(g, rows, cols) && WellFormed(g) && Layable(g, b) && SelfContained(g, b)
    ensures var r := BlockLayout(g, rows, cols, sc, b, d, prev);
            r.Ok? ==> r.value.Some? && LeafPerOrigin(g, b, r.value.value)
    decreases Extent(b), if prev == Some(b) then 0 else 1, 1, 0
  {
    if SingleItem(g, b) {
      SingleItemCounts(g, b);
    } else {
      ClosedBeforeStart(g, b, d);
      DirectionCounts(g, rows, cols, sc, b, d, prev, b, []);
    }
  }

  /**
   * From following bounds on, `_layoutDirection` keeps the leaves it has and
   * adds one leaf per primary cell of the rest of the bounds.
   */
  lemma {:induction false} DirectionCounts(g: seq<seq<Cell>>, rows: seq<SizeConfig>, cols: seq<SizeConfig>, sc: bool,
                                           b: Bounds, d: Direction, prev: Option<Bounds>, cur: Bounds, items: seq<BoxItem>)
    requires Fits(g, rows, cols) && WellFormed(g) && Layable(g, b) && Following(g, b, d, cur)
    requires SelfContained(g, b) && ClosedBefore(g, b, d, cur)
    ensures var r := DirectionLayout(g, rows, cols, sc, b, d, prev, cur, items);
            r.Ok? ==> forall k: nat :: LeafBag(r.value)[k] == LeafBag(Node(d, items))[k] + |OriginCells(g, cur, k)|
    decreases Extent(b), if prev == Some(b) then 0 else 1, 0,
              RangeOf(b, CrossDirection(d)).end + 1 - RangeOf(cur, CrossDirection(d)).start
  {
    var cd := CrossDirection(d);
    var block := NextBlockSpec(g, cur, d);
    if block.None? {
      DirectionEnds(g, rows, cols, sc, b, d, prev, cur, items);
      forall k: nat ensures |OriginCells(g, cur, k)| == 0 {
        NoCrossNoOrigins(g, cur, d, k);
      }
    } else {
      DirectionStep(g, rows, cols, sc, b, d, prev, cur, items);
      var blk := block.value;
      if !IsBlockIndivisible(prev, blk) {
        BlockSelfContained(g, b, d, cur);
        BlockCounts(g, rows, cols, sc, blk, cd, Some(cur));
        var x := ChildLayout(g, rows, cols, sc, blk, cd, cur);
        if x.Ok? {
          var next := PastBlock(cur, d, blk);
          PastBlockClosedBefore(g, b, d, cur);
          LeafBagSnoc(d, items, x.value.value);
          DirectionCounts(g, rows, cols, sc, b, d, prev, next, Kept(items, x.value));
          forall k: nat
            ensures |OriginCells(g, cur, k)| == |OriginCells(g, blk, k)| + |OriginCells(g, next, k)|
          {
            OriginsSplit(g, b, d, cur, k);
          }
        }
      }
    }
  }
}
