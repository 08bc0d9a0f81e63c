/**
 * The recursive block partition of `_layoutBlock` and `_layoutDirection` as
 * functions of the grid value, and what it guarantees: a leaf exactly for
 * one item's rectangle, boxes in the direction asked for, the E1025 error
 * for a block that cannot be divided, every child sized by the lines of its
 * block, and leaves that show only items of the bounds they were laid out in.
 */
module LayoutSpec {
  import opened Wrappers
  import opened Items
  import opened Grid
  import opened SizeConfigs
  import opened Partition

  /** The size configurations of axis `d`: `_rows` for rows, `_cols` for columns. */
  function Along(rows: seq<SizeConfig>, cols: seq<SizeConfig>, d: Direction): seq<SizeConfig> {
    if d == Row then rows else cols
  }

  /** One grid line per row and per column configuration, and every span ends inside the grid. */
  ghost predicate Fits(g: seq<seq<Cell>>, rows: seq<SizeConfig>, cols: seq<SizeConfig>) {
    SpansInGrid(g) && |g| == |rows| && (|g| > 0 ==> Width(g) == |cols|)
  }

  /** Bounds the partition works on: non-empty, inside the grid, and closed. */
  ghost predicate Layable(g: seq<seq<Cell>>, b: Bounds) {
    SpansInGrid(g) && BoundsInGrid(g, b) && NonEmpty(b) && Closed(g, b)
  }

  /** `_isSingleItem`: the first cell's spans reach exactly the bounds' last row and column. */
  ghost predicate SingleItem(g: seq<seq<Cell>>, b: Bounds)
    requires Rectangular(g) && BoundsInGrid(g, b) && NonEmpty(b)
  {
    var loc := g[b.row.start][b.col.start].location;
    b.row.end - b.row.start == loc.rowspan - 1 && b.col.end - b.col.start == loc.colspan - 1
  }

  /** `_itemByCell`: null (None) for a secondary cell, otherwise the cell's item or the empty object. */
  ghost function ItemAt(g: seq<seq<Cell>>, r: int, c: int): Option<Box>
    requires InGrid(g, r, c)
  {
    if g[r][c].spanningCell.Some? then None
    else if g[r][c].item.Some? then Some(ItemLeaf(g[r][c].item.value))
    else Some(EmptyLeaf)
  }

  /** The current bounds `_layoutDirection` has advanced to: b's range on d, and a closed tail of b's cross range. */
  ghost predicate Following(g: seq<seq<Cell>>, b: Bounds, d: Direction, cur: Bounds) {
    && RangeOf(cur, d) == RangeOf(b, d)
    && RangeOf(cur, CrossDirection(d)).end == RangeOf(b, CrossDirection(d)).end
    && RangeOf(b, CrossDirection(d)).start <= RangeOf(cur, CrossDirection(d)).start
    && Rectangular(g) && BoundsInGrid(g, cur) && Closed(g, cur)
  }

  /** The bounds `_layoutDirection` continues with once block `blk` is done: the rest of `cur` past the block. */
  function PastBlock(cur: Bounds, d: Direction, blk: Bounds): Bounds {
    WithRange(cur, CrossDirection(d), Range(RangeOf(blk, CrossDirection(d)).end + 1, RangeOf(cur, CrossDirection(d)).end))
  }

  /**
   * The block `_nextBlock` finds in following bounds is a closed, non-empty
   * part of b across b's whole range on d; it is b itself only when `cur` is
   * still b; and the bounds past it follow again, with a later cross start.
   */
  lemma NextChild(g: seq<seq<Cell>>, b: Bounds, d: Direction, cur: Bounds)
    requires SpansInGrid(g) && BoundsInGrid(g, b) && NonEmpty(b) && Following(g, b, d, cur)
    requires RangeOf(cur, CrossDirection(d)).start <= RangeOf(cur, CrossDirection(d)).end
    ensures NextBlockSpec(g, cur, d).Some?
    ensures var blk := NextBlockSpec(g, cur, d).value;
            && Layable(g, blk) && Inside(blk, b) && RangeOf(blk, d) == RangeOf(b, d)
            && (blk == b ==> cur == b)
            && (blk != b ==> Extent(blk) < Extent(b))
            && Following(g, b, d, PastBlock(cur, d, blk))
            && RangeOf(cur, CrossDirection(d)).start < RangeOf(PastBlock(cur, d, blk), CrossDirection(d)).start
  {
    var cd := CrossDirection(d);
    NextBlockInside(g, cur, d);
    var blk := NextBlockSpec(g, cur, d).value;
    if blk == b {
      assert RangeOf(cur, d) == RangeOf(b, d) && RangeOf(cur, cd) == RangeOf(b, cd);
      assert cur == b by {
        if d == Row {
          assert cur.row == b.row && cur.col == b.col;
        } else {
          assert cur.col == b.col && cur.row == b.row;
        }
      }
    } else {
      ExtentShrinks(blk, b);
    }
    AdvanceClosed(g, cur, d, RangeOf(blk, cd).end + 1);
  }

  // ---------------------------------------------------------------------------
  // The partition

  /**
   * `_layoutBlock` for bounds b in direction d, with `prev` the parent's
   * current bounds (None at the root): a leaf when b is exactly its first
   * cell's rectangle, otherwise the box `_layoutDirection` builds.
   */
  ghost function BlockLayout(g: seq<seq<Cell>>, rows: seq<SizeConfig>, cols: seq<SizeConfig>, sc: bool,
                             b: Bounds, d: Direction, prev: Option<Bounds>): (r: Result<Option<Box>, LayoutError>)
    requires Fits(g, rows, cols) && Layable(g, b)
    decreases Extent(b), if prev == Some(b) then 0 else 1, 1, 0
    ensures r.Ok? ==> (SingleItem(g, b) <==> !(r.value.Some? && r.value.value.Node?))
    ensures r.Ok? && !SingleItem(g, b) ==> r.value.Some? && r.value.value.direction == d
  {
    if SingleItem(g, b) then Ok(ItemAt(g, b.row.start, b.col.start))
    else
      match DirectionLayout(g, rows, cols, sc, b, d, prev, b, [])
      case Err(e) => Err(e)
      case Ok(x) => Ok(Some(x))
  }

  /**
   * `_layoutDirection` for bounds b from the current bounds `cur` on, with
   * the children `items` kept so far: while `_nextBlock` finds a block, the
   * block is laid out in the cross direction with `cur` as its parent's
   * bounds, a non-null result is kept with the block's size, and the bounds
   * move past the block.  A block equal to `prev` is E1025.
   */
  ghost function DirectionLayout(g: seq<seq<Cell>>, rows: seq<SizeConfig>, cols: seq<SizeConfig>, sc: bool,
                                 b: Bounds, d: Direction, prev: Option<Bounds>, cur: Bounds, items: seq<BoxItem>)
    : (r: Result<Box, LayoutError>)
    requires Fits(g, rows, cols) && Layable(g, b) && Following(g, b, d, cur)
    decreases Extent(b), if prev == Some(b) then 0 else 1, 0,
              RangeOf(b, CrossDirection(d)).end + 1 - RangeOf(cur, CrossDirection(d)).start
    ensures r.Ok? ==> r.value.Node? && r.value.direction == d
  {
    var cd := CrossDirection(d);
    var block := NextBlockSpec(g, cur, d);
    if block.None? then Ok(Node(d, items))
    else
      NextChild(g, b, d, cur);
      var blk := block.value;
      if IsBlockIndivisible(prev, blk) then Err(E1025)
      else
        match ChildLayout(g, rows, cols, sc, blk, cd, cur)
        case Err(e) => Err(e)
        case Ok(x) => DirectionLayout(g, rows, cols, sc, b, d, prev, PastBlock(cur, d, blk), Kept(items, x))
  }

  /**
   * One pass of `_layoutDirection`'s loop for block `blk` of the current
   * bounds `cur`: the block laid out in the cross direction `cd` with `cur`
   * as its parent's bounds and, unless that is null, the block's size.
   */
  ghost function ChildLayout(g: seq<seq<Cell>>, rows: seq<SizeConfig>, cols: seq<SizeConfig>, sc: bool,
                             blk: Bounds, cd: Direction, cur: Bounds): (r: Result<Option<BoxItem>, LayoutError>)
    requires Fits(g, rows, cols) && Layable(g, blk)
    decreases Extent(blk), if cur == blk then 0 else 1, 2, 0
    ensures r.Ok? && r.value.Some? ==> r.value.value.size == ChildSize(rows, cols, sc, blk, cd)
  {
    match BlockLayout(g, rows, cols, sc, blk, cd, Some(cur))
    case Err(e) => Err(e)
    case Ok(None) => Ok(None)
    case Ok(Some(x)) => Ok(Some(BoxItem(x, ChildSize(rows, cols, sc, blk, cd))))
  }

  /** The children `_layoutDirection` has after a pass: one more unless the pass gave null. */
  function Kept(items: seq<BoxItem>, x: Option<BoxItem>): (r: seq<BoxItem>)
    ensures x.None? ==> r == items
    ensures x.Some? ==> |r| == |items| + 1 && r[..|items|] == items && r[|items|] == x.value
  {
    if x.Some? then items + [x.value] else items
  }

  /** `_blockSize(block, cd)`: the size of the block's lines on the cross axis `cd`. */
  ghost function ChildSize(rows: seq<SizeConfig>, cols: seq<SizeConfig>, sc: bool, blk: Bounds, cd: Direction): ItemSize
    requires 0 <= RangeOf(blk, cd).start && RangeOf(blk, cd).end < |Along(rows, cols, cd)|
  {
    BlockSizeSpec(Along(rows, cols, cd), RangeOf(blk, cd).start, RangeOf(blk, cd).end, cd, sc)
  }

  /** One pass of `_layoutDirection`'s loop, as the partition function takes it. */
  lemma DirectionStep(g: seq<seq<Cell>>, rows: seq<SizeConfig>, cols: seq<SizeConfig>, sc: bool,
                      b: Bounds, d: Direction, prev: Option<Bounds>, cur: Bounds, items: seq<BoxItem>)
    requires Fits(g, rows, cols) && Layable(g, b) && Following(g, b, d, cur)
    requires NextBlockSpec(g, cur, d).Some?
    ensures var cd, blk := CrossDirection(d), NextBlockSpec(g, cur, d).value;
            && Layable(g, blk) && Inside(blk, b) && RangeOf(blk, d) == RangeOf(b, d)
            && (blk == b ==> cur == b) && (blk != b ==> Extent(blk) < Extent(b))
            && Following(g, b, d, PastBlock(cur, d, blk))
            && RangeOf(cur, cd).start < RangeOf(PastBlock(cur, d, blk), cd).start
    ensures var cd, blk := CrossDirection(d), NextBlockSpec(g, cur, d).value;
            var r := DirectionLayout(g, rows, cols, sc, b, d, prev, cur, items);
            if IsBlockIndivisible(prev, blk) then r == Err(E1025)
            else
              var x := ChildLayout(g, rows, cols, sc, blk, cd, cur);
              if x.Err? then r == Err(x.error)
              else r == DirectionLayout(g, rows, cols, sc, b, d, prev, PastBlock(cur, d, blk), Kept(items, x.value))
  {
    NextChild(g, b, d, cur);
  }

  /** When `_nextBlock` finds no more blocks, the box holds the children kept so far. */
  lemma DirectionEnds(g: seq<seq<Cell>>, rows: seq<SizeConfig>, cols: seq<SizeConfig>, sc: bool,
                      b: Bounds, d: Direction, prev: Option<Bounds>, cur: Bounds, items: seq<BoxItem>)
    requires Fits(g, rows, cols) && Layable(g, b) && Following(g, b, d, cur)
    requires NextBlockSpec(g, cur, d).None?
    ensures DirectionLayout(g, rows, cols, sc, b, d, prev, cur, items) == Ok(Node(d, items))
  {
  }

  // ---------------------------------------------------------------------------
  // E1025

  /**
   * A block that is not a single item, laid out again with its own first
   * block as the parent's bounds, cannot be divided: E1025.
   */
  lemma IndivisibleRejected(g: seq<seq<Cell>>, rows: seq<SizeConfig>, cols: seq<SizeConfig>, sc: bool,
                            b: Bounds, d: Direction, prev: Option<Bounds>)
    requires Fits(g, rows, cols) && Layable(g, b) && !SingleItem(g, b)
    requires prev == NextBlockSpec(g, b, d)
    ensures BlockLayout(g, rows, cols, sc, b, d, prev) == Err(E1025)
  {
    NextChild(g, b, d, b);
  }

  // ---------------------------------------------------------------------------
  // Children and their sizes

  /**
   * A child `_layoutDirection` keeps for block `blk` of bounds b: the block
   * lies in b and spans b's whole range on d, and the child carries the size
   * `_blockSize` gives the block's lines on the cross axis.
   */
  predicate KeptChild(crossConfigs: seq<SizeConfig>, sc: bool, b: Bounds, d: Direction, blk: Bounds, x: BoxItem) {
    var cr := RangeOf(blk, CrossDirection(d));
    && Inside(blk, b) && NonEmpty(blk) && RangeOf(blk, d) == RangeOf(b, d)
    && 0 <= cr.start && cr.end < |crossConfigs|
    && x.size == BlockSizeSpec(crossConfigs, cr.start, cr.end, CrossDirection(d), sc)
  }

  /**
   * Every child matches its block, as `KeptChild` says, and the blocks
   * follow each other along the cross axis.
   */
  predicate AllKept(crossConfigs: seq<SizeConfig>, sc: bool,
                    b: Bounds, d: Direction, blocks: seq<Bounds>, items: seq<BoxItem>)
    decreases |blocks|
  {
    var n := |blocks| - 1;
    && |blocks| == |items|
    && (|blocks| > 0 ==>
          && AllKept(crossConfigs, sc, b, d, blocks[..n], items[..n])
          && KeptChild(crossConfigs, sc, b, d, blocks[n], items[n])
          && (n > 0 ==> RangeOf(blocks[n - 1], CrossDirection(d)).end < RangeOf(blocks[n], CrossDirection(d)).start))
  }

  /** `AllKept` child by child: each child matches its block, and the blocks are in cross-axis order. */
  lemma {:induction false} AllKeptEach(crossConfigs: seq<SizeConfig>, sc: bool,
                                       b: Bounds, d: Direction, blocks: seq<Bounds>, items: seq<BoxItem>)
    requires AllKept(crossConfigs, sc, b, d, blocks, items)
    ensures |blocks| == |items|
    ensures forall i :: 0 <= i < |blocks| ==> KeptChild(crossConfigs, sc, b, d, blocks[i], items[i])
    ensures forall i, j :: 0 <= i < j < |blocks| ==>
              RangeOf(blocks[i], CrossDirection(d)).end < RangeOf(blocks[j], CrossDirection(d)).start
    decreases |blocks|
  {
    if |blocks| > 0 {
      var n := |blocks| - 1;
      var cd := CrossDirection(d);
      AllKeptEach(crossConfigs, sc, b, d, blocks[..n], items[..n]);
      forall i | 0 <= i < n ensures KeptChild(crossConfigs, sc, b, d, blocks[i], items[i]) {
        assert blocks[..n][i] == blocks[i] && items[..n][i] == items[i];
      }
      forall i, j | 0 <= i < j < |blocks| ensures RangeOf(blocks[i], cd).end < RangeOf(blocks[j], cd).start {
        assert KeptChild(crossConfigs, sc, b, d, blocks[i], items[i]);
        assert KeptChild(crossConfigs, sc, b, d, blocks[j], items[j]);
        if j < n {
          assert blocks[..n][i] == blocks[i] && blocks[..n][j] == blocks[j];
        } else if i < n - 1 {
          assert blocks[..n][i] == blocks[i] && blocks[..n][n - 1] == blocks[n - 1];
        }
      }
    }
  }

  /** One more kept child, after the last block, keeps `AllKept`. */
  lemma AllKeptSnoc(crossConfigs: seq<SizeConfig>, sc: bool,
                    b: Bounds, d: Direction, blocks: seq<Bounds>, items: seq<BoxItem>, blk: Bounds, x: BoxItem)
    requires AllKept(crossConfigs, sc, b, d, blocks, items)
    requires KeptChild(crossConfigs, sc, b, d, blk, x)
    requires |blocks| > 0 ==> RangeOf(blocks[|blocks| - 1], CrossDirection(d)).end < RangeOf(blk, CrossDirection(d)).start
    ensures AllKept(crossConfigs, sc, b, d, blocks + [blk], items + [x])
  {
    assert (blocks + [blk])[..|blocks|] == blocks && (items + [x])[..|items|] == items;
  }

  /**
   * From following bounds on, the children `_layoutDirection` ends with
   * extend those kept so far, and all of them match their blocks.
   */
  lemma {:induction false} DirectionKept(g: seq<seq<Cell>>, rows: seq<SizeConfig>, cols: seq<SizeConfig>, sc: bool,
                                         b: Bounds, d: Direction, prev: Option<Bounds>, cur: Bounds,
                                         items: seq<BoxItem>, blocks: seq<Bounds>)
    returns (blocks': seq<Bounds>)
    requires Fits(g, rows, cols) && Layable(g, b) && Following(g, b, d, cur)
    requires AllKept(Along(rows, cols, CrossDirection(d)), sc, b, d, blocks, items)
    requires |blocks| > 0 ==> RangeOf(blocks[|blocks| - 1], CrossDirection(d)).end < RangeOf(cur, CrossDirection(d)).start
    ensures var r := DirectionLayout(g, rows, cols, sc, b, d, prev, cur, items);
            r.Ok? ==> AllKept(Along(rows, cols, CrossDirection(d)), sc, b, d, blocks', r.value.items)
    decreases RangeOf(b, CrossDirection(d)).end + 1 - RangeOf(cur, CrossDirection(d)).start
  {
    var cd := CrossDirection(d);
    var block := NextBlockSpec(g, cur, d);
    blocks' := blocks;
    if block.None? {
      DirectionEnds(g, rows, cols, sc, b, d, prev, cur, items);
    } else {
      DirectionStep(g, rows, cols, sc, b, d, prev, cur, items);
      var blk := block.value;
      if !IsBlockIndivisible(prev, blk) {
        var x := ChildLayout(g, rows, cols, sc, blk, cd, cur);
        if x.Ok? {
          var next := PastBlock(cur, d, blk);
          if x.value.Some? {
            AllKeptSnoc(Along(rows, cols, cd), sc, b, d, blocks, items, blk, x.value.value);
            blocks' := DirectionKept(g, rows, cols, sc, b, d, prev, next, Kept(items, x.value), blocks + [blk]);
          } else {
            blocks' := DirectionKept(g, rows, cols, sc, b, d, prev, next, items, blocks);
          }
        }
      }
    }
  }

  /**
   * The children of a box the partition builds for b: each carries the size
   * of its block, the blocks lie in b across its whole range on d, and they
   * follow each other along the cross axis.
   */
  lemma ChildrenSized(g: seq<seq<Cell>>, rows: seq<SizeConfig>, cols: seq<SizeConfig>, sc: bool,
                      b: Bounds, d: Direction, prev: Option<Bounds>)
    requires Fits(g, rows, cols) && Layable(g, b)
    ensures var r := BlockLayout(g, rows, cols, sc, b, d, prev);
            r.Ok? && !SingleItem(g, b) ==>
              exists blocks :: AllKept(Along(rows, cols, CrossDirection(d)), sc, b, d, blocks, r.value.value.items)
  {
    var blocks := DirectionKept(g, rows, cols, sc, b, d, prev, b, [], []);
  }

  // ---------------------------------------------------------------------------
  // Leaves

  /** The leaves of a box with one more child: the child's leaves join them. */
  lemma NodeLeavesSnoc(d: Direction, items: seq<BoxItem>, x: BoxItem)
    ensures LeafItems(Node(d, items + [x])) == LeafItems(Node(d, items)) + LeafItems(x.content)
  {
    var s := items + [x];
    forall k | k in LeafItems(Node(d, s)) ensures k in LeafItems(Node(d, items)) + LeafItems(x.content) {
      var i :| 0 <= i < |s| && k in LeafItems(s[i].content);
      if i < |items| {
        assert s[i] == items[i];
      }
    }
    forall k | k in LeafItems(Node(d, items)) ensures k in LeafItems(Node(d, s)) {
      var i :| 0 <= i < |items| && k in LeafItems(items[i].content);
      assert s[i] == items[i];
    }
    assert s[|items|] == x;
  }

  /** Every leaf of the layout of b shows an item that some cell of b holds. */
  lemma {:induction false} BlockLeaves(g: seq<seq<Cell>>, rows: seq<SizeConfig>, cols: seq<SizeConfig>, sc: bool,
                                       b: Bounds, d: Direction, prev: Option<Bounds>)
    requires Fits(g, rows, cols) && Layable(g, b)
    ensures var r := BlockLayout(g, rows, cols, sc, b, d, prev);
            r.Ok? && r.value.Some? ==> LeafItems(r.value.value) <= ItemsIn(g, b)
    decreases Extent(b), if prev == Some(b) then 0 else 1, 1, 0
  {
    if SingleItem(g, b) {
      var r, c := b.row.start, b.col.start;
      if g[r][c].spanningCell.None? && g[r][c].item.Some? {
        assert g[r][c].item.value in ItemsIn(g, b);
      }
    } else {
      assert LeafItems(Node(d, [])) == {};
      DirectionLeaves(g, rows, cols, sc, b, d, prev, b, []);
    }
  }

  /** From following bounds on, the leaves `_layoutDirection` adds show items of b. */
  lemma {:induction false} DirectionLeaves(g: seq<seq<Cell>>, rows: seq<SizeConfig>, cols: seq<SizeConfig>, sc: bool,
                                           b: Bounds, d: Direction, prev: Option<Bounds>, cur: Bounds, items: seq<BoxItem>)
    requires Fits(g, rows, cols) && Layable(g, b) && Following(g, b, d, cur)
    requires LeafItems(Node(d, items)) <= ItemsIn(g, b)
    ensures var r := DirectionLayout(g, rows, cols, sc, b, d, prev, cur, items);
            r.Ok? ==> LeafItems(r.value) <= ItemsIn(g, b)
    decreases Extent(b), if prev == Some(b) then 0 else 1, 0,
              RangeOf(b, CrossDirection(d)).end + 1 - RangeOf(cur, CrossDirection(d)).start
  {
    var cd := CrossDirection(d);
    var block := NextBlockSpec(g, cur, d);
    if block.None? {
      DirectionEnds(g, rows, cols, sc, b, d, prev, cur, items);
    } else {
      DirectionStep(g, rows, cols, sc, b, d, prev, cur, items);
      var blk := block.value;
      if !IsBlockIndivisible(prev, blk) {
        BlockLeaves(g, rows, cols, sc, blk, cd, Some(cur));
        var x := ChildLayout(g, rows, cols, sc, blk, cd, cur);
        if x.Ok? {
          var next := PastBlock(cur, d, blk);
          if x.value.Some? {
            ItemsInMono(g, blk, b);
            NodeLeavesSnoc(d, items, x.value.value);
            DirectionLeaves(g, rows, cols, sc, b, d, prev, next, Kept(items, x.value));
          } else {
            DirectionLeaves(g, rows, cols, sc, b, d, prev, next, items);
          }
        }
      }
    }
  }
}
