/**
 * The `ResponsiveBox` widget's layout state and the steps of one layout
 * pass: the per-screen item list, rows and columns, the occupancy grid
 * (built and filled in place), the recursive block partition and the block
 * sizes.
 */
module ResponsiveBoxLayout {
  import opened Wrappers
  import opened Screen
  import opened SizeConfigs
  import opened Items
  import opened Grid
  import opened Partition
  import opened LayoutSpec
  import opened RootSpec

  /** Row-major order of two cells: the order `_loopOverSpanning` visits them in. */
  predicate RowMajorBefore(p: (int, int), q: (int, int)) {
    p.0 < q.0 || (p.0 == q.0 && p.1 < q.1)
  }

  /**
   * The cells `_prepareGrid` builds: for each row an empty row is pushed
   * onto the grid, then one empty cell per column is pushed onto that row.
   */
  method NewEmptyGrid(rowsCount: nat, colsCount: nat) returns (g: seq<seq<Cell>>)
    ensures AllEmpty(g, rowsCount, colsCount)
  {
    g := [];
    var r := 0;
    while r < rowsCount
      invariant 0 <= r <= rowsCount && AllEmpty(g, r, colsCount)
    {
      g := g + [[]];
      var c := 0;
      while c < colsCount
        invariant 0 <= c <= colsCount && |g| == r + 1 && |g[r]| == c
        invariant AllEmpty(g[..r], r, colsCount)
        invariant forall j :: 0 <= j < c ==> g[r][j] == EmptyCell()
      {
        g := g[r := g[r] + [EmptyCell()]];
        c := c + 1;
      }
      assert g[..r + 1] == g;
      r := r + 1;
    }
  }

  class ResponsiveBox {
    /** The `rows`, `cols` and `items` options and the `singleColumnScreen` option. */
    const rowsOption: seq<RawSizeConfig>
    const colsOption: seq<RawSizeConfig>
    const itemsOption: seq<Item>
    const singleColumnScreen: string
    /** The screen class `screenByWidth` gives for the current width. */
    const currentScreen: string

    /** `_screenItems`, `_rows`, `_cols` and `_grid`. */
    var screenItems: seq<ScreenItem>
    var rows: seq<SizeConfig>
    var cols: seq<SizeConfig>
    var grid: seq<seq<Cell>>

    constructor (rowsOption: seq<RawSizeConfig>, colsOption: seq<RawSizeConfig>, itemsOption: seq<Item>,
                 singleColumnScreen: string, currentScreen: string)
      ensures this.rowsOption == rowsOption && this.colsOption == colsOption
      ensures this.itemsOption == itemsOption
      ensures this.singleColumnScreen == singleColumnScreen && this.currentScreen == currentScreen
      ensures screenItems == [] && rows == [] && cols == []
      ensures grid == []
    {
      this.rowsOption := rowsOption;
      this.colsOption := colsOption;
      this.itemsOption := itemsOption;
      this.singleColumnScreen := singleColumnScreen;
      this.currentScreen := currentScreen;
      screenItems := [];
      rows := [];
      cols := [];
      grid := [];
    }

    /** One row of cells per row configuration, each with one cell per column configuration. */
    ghost predicate Shaped()
      reads this
    {
      Shape(grid, |rows|, |cols|)
    }

    /** The layout state between `_prepareGrid` and the partition: one cell per row and column, well formed. */
    ghost predicate Valid()
      reads this
    {
      Shaped() && WellFormed(grid)
    }

    predicate SingleColumn() {
      IsSingleColumnScreen(singleColumnScreen, rowsOption, colsOption, currentScreen)
    }

    // -------------------------------------------------------------------------
    // Rows, columns and the single-column re-flow

    /**
     * `_prepareSingleColumnScreenItems`: sorts the screen items by (row, col),
     * then gives the i-th of them row i, column 0 and a 1x1 span.
     */
    method PrepareSingleColumnScreenItems()
      requires UniformlyPositioned(screenItems)
      modifies this`screenItems
      ensures |screenItems| == |old(screenItems)|
      ensures forall i :: 0 <= i < |screenItems| ==>
                screenItems[i] == ScreenItem(SortByPosition(old(screenItems))[i].item, Location(Some(i), Some(0), 1, 1))
    {
      screenItems := SortByPosition(screenItems);
      ghost var sorted := screenItems;
      var i := 0;
      while i < |screenItems|
        invariant 0 <= i <= |screenItems| == |sorted|
        invariant forall j :: 0 <= j < i ==> screenItems[j] == ScreenItem(sorted[j].item, Location(Some(j), Some(0), 1, 1))
        invariant forall j :: i <= j < |screenItems| ==> screenItems[j] == sorted[j]
      {
        screenItems := screenItems[i := screenItems[i].(location := Location(Some(i), Some(0), 1, 1))];
        i := i + 1;
      }
    }

    /** `_prepareRowsAndCols`. */
    method PrepareRowsAndCols()
      requires SingleColumn() ==> UniformlyPositioned(screenItems)
      modifies this`screenItems, this`rows, this`cols
      ensures PositiveSpans(screenItems) || !PositiveSpans(old(screenItems))
      ensures SingleColumn() ==>
                && |screenItems| == |old(screenItems)|
                && (forall i :: 0 <= i < |screenItems| ==>
                      screenItems[i] == ScreenItem(SortByPosition(old(screenItems))[i].item, Location(Some(i), Some(0), 1, 1)))
                && |rows| == |screenItems|
                && (forall i :: 0 <= i < |rows| ==> rows[i].ratio == 1.0 && rows[i].baseSize == 0.0
                                                    && rows[i].minSize == 0.0 && rows[i].maxSize == 0.0)
                && (forall i :: 0 <= i < |rows| ==> rows[i].shrink == SingleColumnShrink(rowsOption, currentScreen, i))
                && cols == [CreateDefaultSizeConfig()]
      ensures !SingleColumn() ==>
                && screenItems == old(screenItems)
                && rows == SizesByScreen(rowsOption, currentScreen)
                && cols == SizesByScreen(colsOption, currentScreen)
    {
      if SingleColumn() {
        PrepareSingleColumnScreenItems();
        rows := SingleColumnRows(rowsOption, |screenItems|, currentScreen);
        cols := DefaultSizeConfigs(1);
      } else {
        rows := SizesByScreen(rowsOption, currentScreen);
        cols := SizesByScreen(colsOption, currentScreen);
      }
    }

    /** `_prepareGrid`: prepares rows and columns, then allocates one empty cell per row and column. */
    method PrepareGrid()
      requires SingleColumn() ==> UniformlyPositioned(screenItems)
      modifies this`screenItems, this`rows, this`cols, this`grid
      ensures Valid() && AllEmpty(grid, |rows|, |cols|)
      ensures PositiveSpans(screenItems) || !PositiveSpans(old(screenItems))
      ensures SingleColumn() ==> |screenItems| == |old(screenItems)| && |rows| == |screenItems| && cols == [CreateDefaultSizeConfig()]
      ensures SingleColumn() ==>
                && (forall i :: 0 <= i < |rows| ==> rows[i].ratio == 1.0 && rows[i].baseSize == 0.0
                                                    && rows[i].minSize == 0.0 && rows[i].maxSize == 0.0)
                && (forall i :: 0 <= i < |rows| ==> rows[i].shrink == SingleColumnShrink(rowsOption, currentScreen, i))
      ensures SingleColumn() ==>
                forall i :: 0 <= i < |screenItems| ==>
                  screenItems[i] == ScreenItem(SortByPosition(old(screenItems))[i].item, Location(Some(i), Some(0), 1, 1))
      ensures !SingleColumn() ==>
                && screenItems == old(screenItems)
                && rows == SizesByScreen(rowsOption, currentScreen)
                && cols == SizesByScreen(colsOption, currentScreen)
    {
      grid := [];
      PrepareRowsAndCols();
      grid := NewEmptyGrid(|rows|, |cols|);
      AllEmptyWellFormed(grid, |rows|, |cols|);
    }

    // -------------------------------------------------------------------------
    // Filling the grid

    /**
     * `_loopOverSpanning`: clips the location to the last row and column (the
     * source shortens the spans of the location object in place; here the
     * clipped location is returned) and lists, in row-major order, the cells of
     * the clipped rectangle other than the origin: the cells the callback is
     * called on.
     */
    method LoopOverSpanning(loc: Location) returns (clipped: Location, visited: seq<(int, int)>)
      requires loc.row.Some? && loc.col.Some?
      requires 0 <= loc.row.value < |rows| && 0 <= loc.col.value < |cols|
      ensures clipped == ClipSpan(loc, |rows|, |cols|)
      ensures forall n :: 0 <= n < |visited| ==>
                InSpan(clipped, visited[n].0, visited[n].1) && visited[n] != (loc.row.value, loc.col.value)
      ensures forall i, j :: InSpan(clipped, i, j) && (i, j) != (loc.row.value, loc.col.value) ==> (i, j) in visited
      ensures forall m, n :: 0 <= m < n < |visited| ==> RowMajorBefore(visited[m], visited[n])
    {
      clipped := ClipSpan(loc, |rows|, |cols|);
      var row, col := loc.row.value, loc.col.value;
      var boundRowEnd := row + clipped.rowspan - 1;
      var boundColEnd := col + clipped.colspan - 1;
      visited := [];
      var rowIndex := row;
      while rowIndex <= boundRowEnd
        invariant row <= rowIndex && (rowIndex <= boundRowEnd + 1 || rowIndex == row)
        invariant forall n :: 0 <= n < |visited| ==>
                    InSpan(clipped, visited[n].0, visited[n].1) && visited[n] != (row, col) && visited[n].0 < rowIndex
        invariant forall i, j :: InSpan(clipped, i, j) && (i, j) != (row, col) && i < rowIndex ==> (i, j) in visited
        invariant forall m, n :: 0 <= m < n < |visited| ==> RowMajorBefore(visited[m], visited[n])
      {
        var colIndex := col;
        while colIndex <= boundColEnd
          invariant col <= colIndex && (colIndex <= boundColEnd + 1 || colIndex == col)
          invariant forall n :: 0 <= n < |visited| ==>
                      InSpan(clipped, visited[n].0, visited[n].1) && visited[n] != (row, col)
                      && RowMajorBefore(visited[n], (rowIndex, colIndex))
          invariant forall i, j ::
                      InSpan(clipped, i, j) && (i, j) != (row, col) && RowMajorBefore((i, j), (rowIndex, colIndex))
                      ==> (i, j) in visited
          invariant forall m, n :: 0 <= m < n < |visited| ==> RowMajorBefore(visited[m], visited[n])
        {
          if rowIndex != row || colIndex != col {
            visited := visited + [(rowIndex, colIndex)];
          }
          colIndex := colIndex + 1;
        }
        rowIndex := rowIndex + 1;
      }
    }

    /**
     * `_isItemCellOccupied` for screen item k whose origin is cell (r, c):
     * occupied exactly when some cell of the clipped rectangle, the origin
     * included, already holds an item.  When the origin is free the item's
     * location has been clipped on the way.
     */
    method IsItemCellOccupied(r: int, c: int, k: nat) returns (occupied: bool)
      requires Shaped() && InGrid(grid, r, c)
      requires k < |screenItems| && screenItems[k].location.row == Some(r) && screenItems[k].location.col == Some(c)
      requires screenItems[k].location.rowspan >= 1 && screenItems[k].location.colspan >= 1
      modifies this`screenItems
      ensures occupied <==> !SpanFree(grid, ClipSpan(old(screenItems[k].location), |rows|, |cols|))
      ensures screenItems == if grid[r][c].item.Some? then old(screenItems)
                             else old(screenItems)[k := old(screenItems[k]).(location := ClipSpan(old(screenItems[k].location), |rows|, |cols|))]
    {
      if grid[r][c].item.Some? {
        assert InGrid(grid, r, c) && InSpan(ClipSpan(screenItems[k].location, |rows|, |cols|), r, c);
        return true;
      }
      var clipped, visited := LoopOverSpanning(screenItems[k].location);
      screenItems := screenItems[k := screenItems[k].(location := clipped)];
      occupied := AnyItemAt(visited);
      if occupied {
        var m :| 0 <= m < |visited| && grid[visited[m].0][visited[m].1].item.Some?;
        assert InGrid(grid, visited[m].0, visited[m].1);
      } else {
        forall i, j | InGrid(grid, i, j) && InSpan(clipped, i, j) ensures grid[i][j].item.None? {
          if (i, j) != (r, c) {
            var m :| 0 <= m < |visited| && visited[m] == (i, j);
          }
        }
      }
    }

    /** The callback `_isItemCellOccupied` passes to `_loopOverSpanning`, run over the visited cells: does any hold an item? */
    method AnyItemAt(cells: seq<(int, int)>) returns (occupied: bool)
      requires forall n :: 0 <= n < |cells| ==> InGrid(grid, cells[n].0, cells[n].1)
      ensures occupied <==> exists m :: 0 <= m < |cells| && InGrid(grid, cells[m].0, cells[m].1) && grid[cells[m].0][cells[m].1].item.Some?
    {
      occupied := false;
      var n := 0;
      while n < |cells|
        invariant 0 <= n <= |cells|
        invariant occupied <==> exists m :: 0 <= m < n && InGrid(grid, cells[m].0, cells[m].1) && grid[cells[m].0][cells[m].1].item.Some?
      {
        occupied := occupied || grid[cells[n].0][cells[n].1].item.Some?;
        n := n + 1;
      }
    }

    /**
     * `_markSpanningCell` for the primary cell (r, c): every other cell of its
     * clipped rectangle takes its item and a reference to it; the primary
     * cell's own location is clipped.
     */
    method MarkSpanningCell(r: int, c: int)
      requires Shaped() && InGrid(grid, r, c)
      requires grid[r][c].location.row == Some(r) && grid[r][c].location.col == Some(c)
      modifies this`grid
      ensures Shaped()
      ensures grid[r][c] == old(grid[r][c]).(location := ClipSpan(old(grid[r][c].location), |rows|, |cols|))
      ensures forall i, j :: InGrid(grid, i, j) && (i, j) != (r, c) ==>
                grid[i][j] == if InSpan(grid[r][c].location, i, j)
                              then old(grid[i][j]).(item := grid[r][c].item, spanningCell := Some((r, c)))
                              else old(grid[i][j])
    {
      var clipped, visited := LoopOverSpanning(grid[r][c].location);
      grid := grid[r := grid[r][c := grid[r][c].(location := clipped)]];
      var n := 0;
      while n < |visited|
        invariant 0 <= n <= |visited| && Shaped()
        invariant grid[r][c] == old(grid[r][c]).(location := clipped)
        invariant forall i, j :: InGrid(grid, i, j) && (i, j) != (r, c) ==>
                    grid[i][j] == if (i, j) in visited[..n]
                                  then old(grid[i][j]).(item := grid[r][c].item, spanningCell := Some((r, c)))
                                  else old(grid[i][j])
      {
        var (i, j) := visited[n];
        assert (i, j) !in visited[..n] by {
          forall m | 0 <= m < n ensures visited[m] != (i, j) {
            assert RowMajorBefore(visited[m], visited[n]);
          }
        }
        grid := grid[i := grid[i][j := grid[i][j].(item := grid[r][c].item, spanningCell := Some((r, c)))]];
        assert visited[..n + 1] == visited[..n] + [(i, j)];
        n := n + 1;
      }
      assert visited[..n] == visited;
    }

    /** The cell `_spreadItems` looks up for a location: `_grid[row][col]` when both indices name a cell. */
    function ItemCellAt(loc: Location): (pos: Option<(int, int)>)
      reads this
      ensures pos.Some? ==> InGrid(grid, pos.value.0, pos.value.1)
      ensures pos.Some? ==> loc.row == Some(pos.value.0) && loc.col == Some(pos.value.1)
      ensures pos.None? ==> loc.row.None? || loc.col.None? || !InGrid(grid, loc.row.value, loc.col.value)
    {
      if loc.row.Some? && loc.col.Some? && InGrid(grid, loc.row.value, loc.col.value)
      then Some((loc.row.value, loc.col.value))
      else None
    }

    /**
     * `_occupyCells` for screen item k: nothing happens when its origin is not
     * a cell or its clipped rectangle is not free; otherwise the grid becomes
     * the grid with the item placed on its clipped rectangle.
     */
    method OccupyCells(pos: Option<(int, int)>, k: nat)
      requires Valid() && k < |screenItems|
      requires screenItems[k].location.rowspan >= 1 && screenItems[k].location.colspan >= 1
      requires pos == ItemCellAt(screenItems[k].location)
      modifies this`grid, this`screenItems
      ensures Valid()
      ensures grid == Occupy(old(grid), old(screenItems[k]))
      ensures screenItems == old(screenItems)[k := AfterOccupy(old(grid), old(screenItems[k]))]
    {
      ghost var g0 := grid;
      if pos.None? {
        return;
      }
      var (r, c) := pos.value;
      assert InGrid(g0, r, c);
      var occupied := IsItemCellOccupied(r, c, k);
      if occupied {
        return;
      }
      ClipSpanIdempotent(old(screenItems[k].location), |rows|, |cols|);
      PlaceItem(r, c, k);
    }

    /** `extend(itemCell, itemInfo)` and `_markSpanningCell` once the clipped rectangle is known to be free. */
    method PlaceItem(r: int, c: int, k: nat)
      requires Valid() && k < |screenItems|
      requires InGrid(grid, r, c)
      requires screenItems[k].location.row == Some(r) && screenItems[k].location.col == Some(c)
      requires screenItems[k].location == ClipSpan(screenItems[k].location, |rows|, |cols|)
      requires screenItems[k].location.rowspan >= 1 && screenItems[k].location.colspan >= 1
      requires SpanFree(grid, screenItems[k].location)
      modifies this`grid
      ensures Valid()
      ensures grid == Place(old(grid), screenItems[k].item, screenItems[k].location)
    {
      ghost var g0 := grid;
      var item, loc := screenItems[k].item, screenItems[k].location;
      grid := grid[r := grid[r][c := Cell(Some(item), loc, grid[r][c].spanningCell)]];
      ghost var g1 := grid;
      MarkSpanningCell(r, c);
      MarkedIsPlace(g0, g1, grid, item, loc, |rows|, |cols|);
    }

    /**
     * `_spreadItems`: occupies the cells of every screen item in order.  Each
     * item's location is either kept or clipped to the grid.
     */
    method SpreadItems()
      requires Valid() && PositiveSpans(screenItems)
      modifies this`grid, this`screenItems
      ensures Valid()
      ensures grid == Spread(old(grid), old(screenItems))
      ensures |screenItems| == |old(screenItems)| && PositiveSpans(screenItems)
      ensures forall k :: 0 <= k < |screenItems| ==>
                && screenItems[k].item == old(screenItems[k].item)
                && KeptOrClipped(old(screenItems[k].location), screenItems[k].location, |rows|, |cols|)
    {
      ghost var g0 := grid;
      ghost var s0 := screenItems;
      var k := 0;
      while k < |screenItems|
        invariant Valid() && 0 <= k <= |screenItems| == |s0|
        decreases |s0| - k
        invariant grid == Spread(g0, s0[..k])
        invariant forall n :: k <= n < |s0| ==> screenItems[n] == s0[n]
        invariant forall n :: 0 <= n < k ==>
                    && screenItems[n].item == s0[n].item
                    && KeptOrClipped(s0[n].location, screenItems[n].location, |rows|, |cols|)
                    && screenItems[n].location.rowspan >= 1 && screenItems[n].location.colspan >= 1
      {
        var pos := ItemCellAt(screenItems[k].location);
        OccupyCells(pos, k);
        assert s0[..k + 1][..k] == s0[..k];
        k := k + 1;
      }
      assert s0[..k] == s0;
    }

    // -------------------------------------------------------------------------
    // The partition

    /** `_cellByDirection`: the cell at `index` on axis d and `crossIndex` on the cross axis. */
    function CellByDirection(d: Direction, index: int, crossIndex: int): (x: Cell)
      reads this
      requires InGrid(grid, Coord(d, index, crossIndex).0, Coord(d, index, crossIndex).1)
      ensures Rectangular(grid) && 0 <= index < LineCount(grid, d) && 0 <= crossIndex < LineCount(grid, CrossDirection(d))
              ==> x == CellAlong(grid, d, index, crossIndex)
    {
      var (r, c) := Coord(d, index, crossIndex);
      grid[r][c]
    }

    /**
     * `_nextBlock`: scans the lines of the cross axis from the bounds' cross
     * start, growing the block while some cell of a scanned line spans past
     * its end; the result is the block with the least closed end.
     */
    method NextBlock(b: Bounds, d: Direction) returns (r: Option<Bounds>)
      requires SpansInGrid(grid) && BoundsInGrid(grid, b)
      ensures r == NextBlockSpec(grid, b, d)
    {
      ghost var g := grid;
      var cd := CrossDirection(d);
      var startIndex, endIndex := RangeOf(b, d).start, RangeOf(b, d).end;
      var crossStartIndex := RangeOf(b, cd).start;
      if crossStartIndex > RangeOf(b, cd).end {
        return None;
      }
      assert |grid| > 0;
      var crossSpan := 1;
      var crossIndex := crossStartIndex;
      while crossIndex < crossStartIndex + crossSpan
        invariant crossStartIndex <= crossIndex <= crossStartIndex + crossSpan && crossSpan >= 1
        invariant crossStartIndex + crossSpan - 1 < LineCount(g, cd)
        invariant forall i, x :: crossStartIndex <= i < crossIndex && startIndex <= x <= endIndex ==>
                    i + SpanAlong(CellAlong(g, d, x, i).location, cd) - 1 <= crossStartIndex + crossSpan - 1
        invariant forall e :: crossStartIndex <= e < crossStartIndex + crossSpan - 1 ==>
                    !LinesClosed(g, d, startIndex, endIndex, crossStartIndex, e)
        decreases LineCount(g, cd) - crossIndex
      {
        var lineCrossSpan := 1;
        ghost var widest := startIndex;
        var index := startIndex;
        while index <= endIndex
          invariant startIndex <= index && (index <= endIndex + 1 || index == startIndex)
          invariant lineCrossSpan >= 1
          invariant forall x :: startIndex <= x < index ==> SpanAlong(CellAlong(g, d, x, crossIndex).location, cd) <= lineCrossSpan
          invariant lineCrossSpan > 1 ==>
                      startIndex <= widest < index && SpanAlong(CellAlong(g, d, widest, crossIndex).location, cd) == lineCrossSpan
        {
          var cell := CellByDirection(d, index, crossIndex);
          if SpanAlong(cell.location, cd) > lineCrossSpan {
            lineCrossSpan := SpanAlong(cell.location, cd);
            widest := index;
          }
          index := index + 1;
        }
        var lineCrossEndIndex := crossIndex + lineCrossSpan;
        var crossEndIndex := crossStartIndex + crossSpan;
        if lineCrossEndIndex > crossEndIndex {
          ghost var oldEnd := crossStartIndex + crossSpan - 1;
          crossSpan := crossSpan + lineCrossEndIndex - crossEndIndex;
          var (wr, wc) := Coord(d, widest, crossIndex);
          assert InGrid(g, wr, wc);
          forall e | oldEnd <= e < crossStartIndex + crossSpan - 1
            ensures !LinesClosed(g, d, startIndex, endIndex, crossStartIndex, e)
          {
            assert crossIndex + SpanAlong(CellAlong(g, d, widest, crossIndex).location, cd) - 1 > e;
          }
        }
        crossIndex := crossIndex + 1;
      }
      var e := crossStartIndex + crossSpan - 1;
      LeastClosedEndUnique(g, d, startIndex, endIndex, crossStartIndex, crossStartIndex, e);
      r := Some(WithRange(b, cd, Range(crossStartIndex, e)));
    }

    /** `_blockSize`: accumulates the sizes of the block's lines on axis d. */
    method BlockSize(block: Bounds, d: Direction) returns (s: ItemSize)
      requires 0 <= RangeOf(block, d).start <= RangeOf(block, d).end + 1 && RangeOf(block, d).end < |Along(rows, cols, d)|
      ensures s == BlockSizeSpec(Along(rows, cols, d), RangeOf(block, d).start, RangeOf(block, d).end, d, SingleColumn())
    {
      var configs := if d == Row then rows else cols;
      var lo, hi := RangeOf(block, d).start, RangeOf(block, d).end;
      var ratio, baseSize, minSize, maxSize := 0.0, 0.0, 0.0, 0.0;
      var shrink: Option<real> := None;
      var index := lo;
      while index <= hi
        invariant lo <= index <= hi + 1
        invariant Totals(ratio, baseSize, minSize, maxSize, shrink) == Accumulate(configs, lo, index - 1)
      {
        var sizeConfig := configs[index];
        ratio := ratio + sizeConfig.ratio;
        baseSize := baseSize + sizeConfig.baseSize;
        minSize := minSize + sizeConfig.minSize;
        maxSize := maxSize + sizeConfig.maxSize;
        if sizeConfig.shrink.Some? {
          shrink := sizeConfig.shrink;
        }
        index := index + 1;
      }
      var defaultMinSize := if d == Row then Auto else Num(0.0);
      s := ItemSize(
        ratio,
        Some(if SingleColumn() then Auto else Num(baseSize)),
        Some(if minSize != 0.0 then Num(minSize) else defaultMinSize),
        Some(if maxSize != 0.0 then Num(maxSize) else Auto),
        shrink);
    }

    /** `_isSingleItem` on the grid. */
    method IsSingleItem(b: Bounds) returns (r: bool)
      requires Rectangular(grid) && BoundsInGrid(grid, b) && NonEmpty(b)
      ensures r == SingleItem(grid, b)
    {
      var loc := grid[b.row.start][b.col.start].location;
      r := b.row.end - b.row.start == loc.rowspan - 1 && b.col.end - b.col.start == loc.colspan - 1;
    }

    /** `_itemByCell` on the grid. */
    method ItemByCell(r: int, c: int) returns (x: Option<Box>)
      requires InGrid(grid, r, c)
      ensures x == ItemAt(grid, r, c)
    {
      var cell := grid[r][c];
      if cell.spanningCell.Some? {
        x := None;
      } else if cell.item.Some? {
        x := Some(ItemLeaf(cell.item.value));
      } else {
        x := Some(EmptyLeaf);
      }
    }

    /** What the partition of bounds b needs: rows and columns match the grid, and b is a closed, non-empty part of it. */
    ghost predicate Partitionable(b: Bounds)
      reads this
    {
      Fits(grid, rows, cols) && Layable(grid, b)
    }

    /**
     * `_layoutBlock`: a leaf when the bounds are exactly the first cell's
     * rectangle, otherwise the box `_layoutDirection` builds.
     */
    method LayoutBlock(b: Bounds, d: Direction, prev: Option<Bounds>) returns (r: Result<Option<Box>, LayoutError>)
      requires Partitionable(b)
      decreases Extent(b), if prev == Some(b) then 0 else 1, 1
      ensures Fits(grid, rows, cols) && r == BlockLayout(grid, rows, cols, SingleColumn(), b, d, prev)
    {
      var single := IsSingleItem(b);
      if single {
        var x := ItemByCell(b.row.start, b.col.start);
        return Ok(x);
      }
      var box := LayoutDirection(b, d, prev);
      if box.Err? {
        return Err(box.error);
      }
      return Ok(Some(box.value));
    }

    /**
     * `_layoutDirection`: cuts the bounds into the blocks `_nextBlock` finds
     * along the cross axis, lays each out in the cross direction with the
     * current bounds as its parent's, and keeps the non-null results with
     * their block sizes.  A block equal to the parent's bounds raises E1025.
     */
    method LayoutDirection(b: Bounds, d: Direction, prev: Option<Bounds>) returns (r: Result<Box, LayoutError>)
      requires Partitionable(b)
      decreases Extent(b), if prev == Some(b) then 0 else 1, 0
      ensures Fits(grid, rows, cols) && r == DirectionLayout(grid, rows, cols, SingleColumn(), b, d, prev, b, [])
    {
      ghost var g, rs, cs, sc := grid, rows, cols, SingleColumn();
      var cd := CrossDirection(d);
      var items: seq<BoxItem> := [];
      var cur := b;
      var block := NextBlock(cur, d);
      while block.Some?
        invariant Following(g, b, d, cur) && block == NextBlockSpec(g, cur, d)
        invariant DirectionLayout(g, rs, cs, sc, b, d, prev, cur, items) == DirectionLayout(g, rs, cs, sc, b, d, prev, b, [])
        decreases RangeOf(b, cd).end + 1 - RangeOf(cur, cd).start
      {
        var blk := block.value;
        DirectionStep(g, rs, cs, sc, b, d, prev, cur, items);
        if IsBlockIndivisible(prev, blk) {
          return Err(E1025);
        }
        var item := LayoutChild(blk, cd, cur);
        if item.Err? {
          return Err(item.error);
        }
        items := Kept(items, item.value);
        cur := PastBlock(cur, d, blk);
        block := NextBlock(cur, d);
      }
      DirectionEnds(g, rs, cs, sc, b, d, prev, cur, items);
      r := Ok(Node(d, items));
    }

    /**
     * One pass of `_layoutDirection`'s loop for block `blk` of the current
     * bounds `cur`: the block laid out in the cross direction with `cur` as
     * its parent's bounds and, unless that is null, the block's size.
     */
    method LayoutChild(blk: Bounds, cd: Direction, cur: Bounds) returns (r: Result<Option<BoxItem>, LayoutError>)
      requires Partitionable(blk)
      decreases Extent(blk), if cur == blk then 0 else 1, 2
      ensures Fits(grid, rows, cols) && r == ChildLayout(grid, rows, cols, SingleColumn(), blk, cd, cur)
    {
      var item := LayoutBlock(blk, cd, Some(cur));
      if item.Err? {
        return Err(item.error);
      }
      if item.value.None? {
        return Ok(None);
      }
      var size := BlockSize(blk, cd);
      return Ok(Some(BoxItem(item.value.value, size)));
    }

    // -------------------------------------------------------------------------
    // The root

    /** `_rootBoxConfig`'s pass over the root's children: "auto" base size where none is set. */
    method RootBoxConfig(items: seq<BoxItem>) returns (r: seq<BoxItem>)
      ensures |r| == |items|
      ensures forall i :: 0 <= i < |r| ==> r[i] == AutoBaseSized(items[i])
    {
      r := items;
      var i := 0;
      while i < |r|
        invariant 0 <= i <= |r| == |items|
        invariant forall j :: 0 <= j < i ==> r[j] == AutoBaseSized(items[j])
        invariant forall j :: i <= j < |r| ==> r[j] == items[j]
      {
        if NeedApplyAutoBaseSize(r[i].size) {
          r := r[i := r[i].(size := r[i].size.(baseSize := Some(Auto)))];
        }
        i := i + 1;
      }
    }

    /**
     * `_layoutItems`, with the guard skipping a grid that has no row or no
     * column: the root block over the whole grid in the column direction,
     * wrapped in a row box when it is one item, with the root configuration
     * applied to its children.
     */
    method LayoutItems() returns (r: Result<Option<Box>, LayoutError>)
      requires Valid()
      ensures r == RootLayout(grid, rows, cols, SingleColumn())
    {
      var rowsCount := |grid|;
      var colsCount := if rowsCount == 0 then 0 else |grid[0]|;
      if rowsCount == 0 || colsCount == 0 {
        return Ok(None);
      }
      WellFormedSpansInGrid(grid);
      RootLayable(grid);
      ghost var g, rs, cs, sc := grid, rows, cols, SingleColumn();
      var result := LayoutBlock(Bounds(Range(0, rowsCount - 1), Range(0, colsCount - 1)), Col, None);
      if result.Err? {
        RootFromBlock(g, rs, cs, sc);
        return Err(result.error);
      }
      RootFromBlock(g, rs, cs, sc);
      var root := RootBox(result.value.value);
      var items := RootBoxConfig(root.items);
      RootConfigured(root, items);
      return Ok(Some(Node(root.direction, items)));
    }

    /**
     * `_renderItems` once the screen size is known: the items kept for the
     * screen, the grid prepared for them, the items spread over it, and the
     * layout of the grid.
     */
    method RenderItems() returns (r: Result<Option<Box>, LayoutError>)
      requires SpansPositive(itemsOption, currentScreen)
      requires SingleColumn() ==> UniformlyPositioned(ItemsByScreen(itemsOption, currentScreen))
      modifies this`screenItems, this`rows, this`cols, this`grid
      ensures Valid()
      ensures |screenItems| == |ItemsByScreen(itemsOption, currentScreen)|
      ensures r == RootLayout(grid, rows, cols, SingleColumn())
    {
      screenItems := ItemsByScreen(itemsOption, currentScreen);
      ItemsByScreenSpans(itemsOption, currentScreen);
      PrepareGrid();
      SpreadItems();
      r := LayoutItems();
    }
  }
}
