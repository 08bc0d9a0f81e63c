/**
 * The root of the layout that `_layoutItems` hands to the Box widget: when the
 * grid is laid out at all, the root block over the whole grid in the column
 * direction, wrapped in a row box when it is a single item, and with "auto"
 * base sizes on the root's children that set no size of their own.
 */
module RootSpec {
  import opened Wrappers
  import opened Screen
  import opened Grid
  import opened SizeConfigs
  import opened Partition
  import opened LayoutSpec
  import opened LeafCover

  /** The bounds `_layoutItems` lays out: rows 0..rowsCount-1 and columns 0..colsCount-1. */
  function RootBounds(g: seq<seq<Cell>>): Bounds {
    Bounds(Range(0, |g| - 1), Range(0, Width(g) - 1))
  }

  // ---------------------------------------------------------------------------
  // The guard

  /**
   * The guard of `_layoutItems` as written, `!rowsCount && !colsCount` with
   * `colsCount = rowsCount && _grid[0].length`: it skips the layout only when
   * the grid has no row, also when the grid has rows but no column.
   */
  function SkipsLayoutAsWritten(g: seq<seq<Cell>>): (r: bool)
    ensures r <==> |g| == 0
  {
    var rowsCount := |g|;
    var colsCount := if rowsCount == 0 then 0 else |g[0]|;
    rowsCount == 0 && colsCount == 0
  }

  /** The guard as intended: skip the layout when the grid has no row or no column. */
  function SkipsLayout(g: seq<seq<Cell>>): (r: bool)
    ensures Rectangular(g) ==> (r <==> !NonEmpty(RootBounds(g)))
    ensures !r ==> InGrid(g, 0, 0)
  {
    var rowsCount := |g|;
    var colsCount := if rowsCount == 0 then 0 else |g[0]|;
    rowsCount == 0 || colsCount == 0
  }

  /**
   * Rows that survive the screen filter with columns that do not: the options
   * rows `[{}]` and cols `[{ screen: "lg" }]` on screen "xs" with no
   * single-column screen give one row and no column, so `_prepareGrid` builds
   * one row with no cell.  The guard as written lets that grid through, and
   * the root's first cell, which `_isSingleItem` reads, is not in the grid;
   * the intended guard skips it.
   */
  lemma GuardLetsEmptyRowThrough()
    ensures var rowsOption := [RawSizeConfig(None, None, None, None, None, None)];
            var colsOption := [RawSizeConfig(None, None, None, None, None, Some("lg"))];
            && !IsSingleColumnScreen("", rowsOption, colsOption, "xs")
            && |SizesByScreen(rowsOption, "xs")| == 1
            && |SizesByScreen(colsOption, "xs")| == 0
    ensures forall g: seq<seq<Cell>> :: AllEmpty(g, 1, 0) ==>
              && !SkipsLayoutAsWritten(g) && !InGrid(g, RootBounds(g).row.start, RootBounds(g).col.start)
              && SkipsLayout(g)
  {
    var rowsOption := [RawSizeConfig(None, None, None, None, None, None)];
    var colsOption := [RawSizeConfig(None, None, None, None, None, Some("lg"))];
    assert !EqualsIgnoringCase("lg", "xs") by {
      assert "lg"[0] == 'l' && "xs"[0] == 'x';
      assert FoldCase("lg"[0]) != FoldCase("xs"[0]);
    }
    NoTokenDrops("lg", "xs");
    assert SizesByScreen(colsOption, "xs") == [];
    assert |SizesByScreen(rowsOption, "xs")| == 1;
    assert !ScreenRegExpTest("", "xs");
  }

  // ---------------------------------------------------------------------------
  // The root block

  /** The root bounds of a grid the intended guard lets through are laid out by the partition. */
  lemma RootLayable(g: seq<seq<Cell>>)
    requires SpansInGrid(g) && !SkipsLayout(g)
    ensures Layable(g, RootBounds(g))
  {
    WholeGridClosed(g);
  }

  /** The top-left cell of a well-formed grid is never covered by another cell's span. */
  lemma CornerNotSecondary(g: seq<seq<Cell>>)
    requires WellFormed(g) && InGrid(g, 0, 0)
    ensures g[0][0].spanningCell.None?
  {
    assert CellOk(g, 0, 0);
  }

  /** The item `_layoutItems` wraps a leaf root in gets `ratio: 1`; its other size fields stay unset. */
  const RootLeafSize := ItemSize(1.0, None, None, None, None)

  /** `result.box || { direction: 'row', items: [extend(result, { ratio: 1 })] }`. */
  function RootBox(x: Box): (r: Box)
    ensures r.Node? && LeafItems(r) == LeafItems(x)
    ensures x.Node? ==> r == x
    ensures !x.Node? ==> r.direction == Row && |r.items| == 1 && r.items[0].content == x
  {
    if x.Node? then x
    else
      var r := Node(Row, [BoxItem(x, RootLeafSize)]);
      assert LeafItems(r) == LeafItems(x) by {
        assert r.items[0].content == x;
      }
      r
  }

  /**
   * `_rootBoxConfig`'s change to one root child: `baseSize: 'auto'` when
   * `_needApplyAutoBaseSize` holds of it.
   */
  function WithAutoBaseSize(s: ItemSize): (r: ItemSize)
    ensures !NeedApplyAutoBaseSize(r)
    ensures r == s <==> !NeedApplyAutoBaseSize(s)
    ensures r.ratio == s.ratio && r.minSize == s.minSize && r.maxSize == s.maxSize && r.shrink == s.shrink
    ensures r != s ==> r.baseSize == Some(Auto)
  {
    if NeedApplyAutoBaseSize(s) then s.(baseSize := Some(Auto)) else s
  }

  /** Applying the root configuration a second time changes nothing. */
  lemma AutoBaseSizeIdempotent(s: ItemSize)
    ensures WithAutoBaseSize(WithAutoBaseSize(s)) == WithAutoBaseSize(s)
  {
    var r := WithAutoBaseSize(s);
    assert !NeedApplyAutoBaseSize(r);
  }

  function AutoBaseSized(x: BoxItem): BoxItem {
    x.(size := WithAutoBaseSize(x.size))
  }

  /** The root box with `_rootBoxConfig` applied to its children. */
  function WithRootConfig(x: Box): (r: Box)
    requires x.Node?
    ensures r.Node? && r.direction == x.direction && |r.items| == |x.items|
    ensures forall i :: 0 <= i < |r.items| ==>
              r.items[i].content == x.items[i].content && !NeedApplyAutoBaseSize(r.items[i].size)
    ensures LeafItems(r) == LeafItems(x)
  {
    var r := Node(x.direction, seq(|x.items|, i requires 0 <= i < |x.items| => AutoBaseSized(x.items[i])));
    assert LeafItems(r) == LeafItems(x) by {
      forall i | 0 <= i < |x.items| ensures r.items[i].content == x.items[i].content { }
    }
    r
  }

  /**
   * `_layoutItems`: nothing when the grid has no row or no column; otherwise
   * the E1025 error of the partition, or the root box.
   */
  ghost function RootLayout(g: seq<seq<Cell>>, rows: seq<SizeConfig>, cols: seq<SizeConfig>, sc: bool)
    : (r: Result<Option<Box>, LayoutError>)
    requires Fits(g, rows, cols) && WellFormed(g)
    ensures SkipsLayout(g) <==> r == Ok(None)
    ensures r.Ok? && r.value.Some? ==>
              && r.value.value.Node?
              && forall i :: 0 <= i < |r.value.value.items| ==> !NeedApplyAutoBaseSize(r.value.value.items[i].size)
  {
    if SkipsLayout(g) then Ok(None)
    else
      RootLayable(g);
      CornerNotSecondary(g);
      match BlockLayout(g, rows, cols, sc, RootBounds(g), Col, None)
      case Err(e) => Err(e)
      case Ok(x) => Ok(Some(WithRootConfig(RootBox(x.value))))
  }

  /** What `_layoutItems` makes of the root block's layout, once the grid is let through. */
  lemma RootFromBlock(g: seq<seq<Cell>>, rows: seq<SizeConfig>, cols: seq<SizeConfig>, sc: bool)
    requires Fits(g, rows, cols) && WellFormed(g) && !SkipsLayout(g)
    ensures Layable(g, RootBounds(g))
    ensures var x := BlockLayout(g, rows, cols, sc, RootBounds(g), Col, None);
            && (x.Err? ==> RootLayout(g, rows, cols, sc) == Err(x.error))
            && (x.Ok? ==> x.value.Some? && RootLayout(g, rows, cols, sc) == Ok(Some(WithRootConfig(RootBox(x.value.value)))))
  {
    RootLayable(g);
    CornerNotSecondary(g);
  }

  /** Children configured one by one as `_rootBoxConfig` does make up the configured root box. */
  lemma RootConfigured(root: Box, items: seq<BoxItem>)
    requires root.Node? && |items| == |root.items|
    requires forall i :: 0 <= i < |items| ==> items[i] == AutoBaseSized(root.items[i])
    ensures Node(root.direction, items) == WithRootConfig(root)
  {
  }

  /** Wrapping and configuring the root neither adds nor drops a leaf. */
  lemma RootKeepsLeafBag(x: Box)
    ensures LeafBag(WithRootConfig(RootBox(x))) == LeafBag(x)
  {
    var root := RootBox(x);
    var r := WithRootConfig(root);
    ChildrenBagSameContents(r, root, |root.items|);
    if !x.Node? {
      assert LeafBag(root) == ChildrenBag(root, 0) + LeafBag(root.items[0].content);
    }
  }

  /**
   * The root is laid out in the column direction unless it is a single item;
   * the leaves of the root show exactly the items the cells of the grid hold,
   * and each item as often as the grid has primary cells holding it.
   */
  lemma RootLeaves(g: seq<seq<Cell>>, rows: seq<SizeConfig>, cols: seq<SizeConfig>, sc: bool)
    requires Fits(g, rows, cols) && WellFormed(g)
    ensures var r := RootLayout(g, rows, cols, sc);
            r.Ok? && r.value.Some? ==>
              && LeafItems(r.value.value) == ItemsIn(g, RootBounds(g))
              && LeafPerOrigin(g, RootBounds(g), r.value.value)
              && (r.value.value.direction == Col || SingleItem(g, RootBounds(g)))
  {
    if !SkipsLayout(g) {
      RootLayable(g);
      WholeGridSelfContained(g);
      BlockLeavesExact(g, rows, cols, sc, RootBounds(g), Col, None);
      BlockCounts(g, rows, cols, sc, RootBounds(g), Col, None);
      var x := BlockLayout(g, rows, cols, sc, RootBounds(g), Col, None);
      if x.Ok? {
        RootKeepsLeafBag(x.value.value);
      }
    }
  }
}
