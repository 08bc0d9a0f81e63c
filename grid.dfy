/**
 * The occupancy grid as a value: the cells of `_grid`, what a well-formed
 * grid is, and what placing one item does to it.  The `ResponsiveBox` class
 * keeps the grid as a sequence of rows and proves its methods against these
 * definitions.
 */
module Grid {
  import opened Wrappers
  import opened Items

  /**
   * One grid cell: the item it holds (None for the empty object `{}`), its
   * location, and for a secondary cell the coordinates of the primary cell
   * whose span covers it (the `spanningCell` reference).
   */
  datatype Cell = Cell(item: Option<nat>, location: Location, spanningCell: Option<(int, int)>)

  /** The location `{ colspan: 1, rowspan: 1 }` every cell starts with. */
  const DefaultLocation := Location(None, None, 1, 1)

  /** `_createEmptyCell`. */
  function EmptyCell(): (c: Cell)
    ensures c.item == None && c.spanningCell == None
    ensures c.location.rowspan == 1 && c.location.colspan == 1
  {
    Cell(None, DefaultLocation, None)
  }

  function Width(g: seq<seq<Cell>>): nat {
    if |g| == 0 then 0 else |g[0]|
  }

  ghost predicate Rectangular(g: seq<seq<Cell>>) {
    forall r :: 0 <= r < |g| ==> |g[r]| == Width(g)
  }

  predicate InGrid(g: seq<seq<Cell>>, r: int, c: int) {
    0 <= r < |g| && 0 <= c < |g[r]|
  }

  /** Cell (r, c) lies in the rectangle a location covers. */
  predicate InSpan(loc: Location, r: int, c: int) {
    && loc.row.Some? && loc.col.Some?
    && loc.row.value <= r < loc.row.value + loc.rowspan
    && loc.col.value <= c < loc.col.value + loc.colspan
  }

  /** A primary cell: it holds an item and is not covered by another cell's span. */
  predicate IsOrigin(x: Cell) {
    x.item.Some? && x.spanningCell.None?
  }

  /** A primary cell sits where its location says, spans inside the grid and owns its rectangle. */
  ghost predicate OriginOk(g: seq<seq<Cell>>, r: int, c: int)
    requires InGrid(g, r, c)
  {
    var x := g[r][c];
    && x.location.row == Some(r) && x.location.col == Some(c)
    && x.location.rowspan >= 1 && x.location.colspan >= 1
    && r + x.location.rowspan <= |g| && c + x.location.colspan <= Width(g)
    && forall i, j :: InGrid(g, i, j) && InSpan(x.location, i, j) && (i, j) != (r, c) ==>
         g[i][j] == Cell(x.item, DefaultLocation, Some((r, c)))
  }

  /** A secondary cell keeps its 1x1 location and points at a primary cell whose span covers it. */
  ghost predicate SecondaryOk(g: seq<seq<Cell>>, r: int, c: int)
    requires InGrid(g, r, c)
  {
    var x := g[r][c];
    && x.item.Some? && x.location == DefaultLocation && x.spanningCell.Some?
    && var (r0, c0) := x.spanningCell.value;
       && InGrid(g, r0, c0) && IsOrigin(g[r0][c0]) && g[r0][c0].item == x.item
       && InSpan(g[r0][c0].location, r, c) && (r, c) != (r0, c0)
  }

  ghost predicate CellOk(g: seq<seq<Cell>>, r: int, c: int)
    requires InGrid(g, r, c)
  {
    var x := g[r][c];
    if x.item.None? then x == EmptyCell()
    else if x.spanningCell.None? then OriginOk(g, r, c)
    else SecondaryOk(g, r, c)
  }

  /** The grid `_spreadItems` keeps: every cell empty, primary or secondary as described above. */
  ghost predicate WellFormed(g: seq<seq<Cell>>) {
    Rectangular(g) && forall r, c :: InGrid(g, r, c) ==> CellOk(g, r, c)
  }

  /** Every cell's span ends inside the grid (what the partition needs of the cells). */
  ghost predicate SpansInGrid(g: seq<seq<Cell>>) {
    && Rectangular(g)
    && forall r, c :: InGrid(g, r, c) ==>
         r + g[r][c].location.rowspan <= |g| && c + g[r][c].location.colspan <= Width(g)
  }

  lemma WellFormedSpansInGrid(g: seq<seq<Cell>>)
    requires WellFormed(g)
    ensures SpansInGrid(g)
  {
    forall r, c | InGrid(g, r, c)
      ensures r + g[r][c].location.rowspan <= |g| && c + g[r][c].location.colspan <= Width(g)
    {
      assert CellOk(g, r, c);
    }
  }

  /** The grid `_prepareGrid` allocates: `rows` x `cols` empty cells. */
  ghost predicate AllEmpty(g: seq<seq<Cell>>, rows: nat, cols: nat) {
    |g| == rows && (forall r :: 0 <= r < rows ==> |g[r]| == cols)
    && forall r, c :: 0 <= r < rows && 0 <= c < cols ==> g[r][c] == EmptyCell()
  }

  lemma {:induction false} AllEmptyWellFormed(g: seq<seq<Cell>>, rows: nat, cols: nat)
    requires AllEmpty(g, rows, cols)
    ensures WellFormed(g) && Width(g) == (if rows == 0 then 0 else cols)
  {
    forall r, c | InGrid(g, r, c) ensures CellOk(g, r, c) {
      assert g[r][c] == EmptyCell();
    }
  }

  // ---------------------------------------------------------------------------
  // Placing one item

  /** A location `_occupyCells` can place: its origin is a grid cell and its clipped span fits. */
  ghost predicate Placeable(g: seq<seq<Cell>>, loc: Location) {
    && loc.row.Some? && loc.col.Some?
    && InGrid(g, loc.row.value, loc.col.value)
    && loc.rowspan >= 1 && loc.colspan >= 1
    && loc.row.value + loc.rowspan <= |g| && loc.col.value + loc.colspan <= Width(g)
  }

  /** No cell of the location's rectangle, its origin included, holds an item. */
  ghost predicate SpanFree(g: seq<seq<Cell>>, loc: Location) {
    forall i, j :: InGrid(g, i, j) && InSpan(loc, i, j) ==> g[i][j].item.None?
  }

  /**
   * `extend(itemCell, itemInfo)` followed by `_markSpanningCell`: the origin
   * takes the item and its location, every other cell of the rectangle takes
   * the item and a reference to the origin, and no other cell changes.
   */
  ghost function Place(g: seq<seq<Cell>>, item: nat, loc: Location): (h: seq<seq<Cell>>)
    requires loc.row.Some? && loc.col.Some?
    ensures |h| == |g| && forall i :: 0 <= i < |g| ==> |h[i]| == |g[i]|
  {
    var r, c := loc.row.value, loc.col.value;
    seq(|g|, i requires 0 <= i < |g| =>
      seq(|g[i]|, j requires 0 <= j < |g[i]| =>
        if (i, j) == (r, c) then Cell(Some(item), loc, g[i][j].spanningCell)
        else if InSpan(loc, i, j) then Cell(Some(item), g[i][j].location, Some((r, c)))
        else g[i][j]))
  }

  /** Placing an item whose whole rectangle is free keeps the grid well formed. */
  lemma PlaceWellFormed(g: seq<seq<Cell>>, item: nat, loc: Location)
    requires WellFormed(g) && Placeable(g, loc) && SpanFree(g, loc)
    ensures WellFormed(Place(g, item, loc))
  {
    var h := Place(g, item, loc);
    assert Width(h) == Width(g);
    forall i, j | InGrid(h, i, j) ensures CellOk(h, i, j) {
      if (i, j) == (loc.row.value, loc.col.value) {
        PlaceOriginOk(g, item, loc);
      } else if InSpan(loc, i, j) {
        PlaceSecondaryOk(g, item, loc, i, j);
      } else {
        assert !InSpan(loc, i, j);
        PlaceOtherOk(g, item, loc, i, j);
      }
    }
  }

  /** The placed item's origin is a well-formed primary cell. */
  lemma PlaceOriginOk(g: seq<seq<Cell>>, item: nat, loc: Location)
    requires WellFormed(g) && Placeable(g, loc) && SpanFree(g, loc)
    ensures CellOk(Place(g, item, loc), loc.row.value, loc.col.value)
  {
    var h := Place(g, item, loc);
    var r, c := loc.row.value, loc.col.value;
    assert Width(h) == Width(g);
    forall i', j' | InGrid(h, i', j') && InSpan(loc, i', j') && (i', j') != (r, c)
      ensures h[i'][j'] == Cell(Some(item), DefaultLocation, Some((r, c)))
    {
      assert InGrid(g, i', j') && CellOk(g, i', j');
    }
    assert OriginOk(h, r, c);
  }

  /** Every other cell of the placed rectangle is a well-formed secondary cell. */
  lemma PlaceSecondaryOk(g: seq<seq<Cell>>, item: nat, loc: Location, i: int, j: int)
    requires WellFormed(g) && Placeable(g, loc) && SpanFree(g, loc)
    requires InGrid(g, i, j) && InSpan(loc, i, j) && (i, j) != (loc.row.value, loc.col.value)
    ensures CellOk(Place(g, item, loc), i, j)
  {
    var h := Place(g, item, loc);
    assert Width(h) == Width(g);
    assert CellOk(g, i, j);
    assert SecondaryOk(h, i, j);
  }

  /** A cell outside the placed rectangle stays well formed. */
  lemma PlaceOtherOk(g: seq<seq<Cell>>, item: nat, loc: Location, i: int, j: int)
    requires WellFormed(g) && Placeable(g, loc) && SpanFree(g, loc)
    requires InGrid(g, i, j) && !InSpan(loc, i, j)
    ensures CellOk(Place(g, item, loc), i, j)
  {
    var h := Place(g, item, loc);
    assert h[i][j] == g[i][j];
    assert CellOk(g, i, j);
    if g[i][j].item.Some? {
      if g[i][j].spanningCell.None? {
        PlaceOtherOriginOk(g, item, loc, i, j);
      } else {
        PlaceOtherSecondaryOk(g, item, loc, i, j);
      }
    }
  }

  /** A primary cell outside the placed rectangle keeps its whole rectangle. */
  lemma PlaceOtherOriginOk(g: seq<seq<Cell>>, item: nat, loc: Location, i: int, j: int)
    requires WellFormed(g) && Placeable(g, loc) && SpanFree(g, loc)
    requires InGrid(g, i, j) && !InSpan(loc, i, j) && IsOrigin(g[i][j])
    ensures InGrid(Place(g, item, loc), i, j) && OriginOk(Place(g, item, loc), i, j)
  {
    var h := Place(g, item, loc);
    var x := g[i][j];
    assert Width(h) == Width(g);
    assert CellOk(g, i, j) && OriginOk(g, i, j);
    forall i', j' | InGrid(h, i', j') && InSpan(x.location, i', j') && (i', j') != (i, j)
      ensures h[i'][j'] == Cell(x.item, DefaultLocation, Some((i, j)))
    {
      assert g[i'][j'] == Cell(x.item, DefaultLocation, Some((i, j)));
      assert !InSpan(loc, i', j');
    }
  }

  /** A secondary cell outside the placed rectangle keeps pointing at its primary cell. */
  lemma PlaceOtherSecondaryOk(g: seq<seq<Cell>>, item: nat, loc: Location, i: int, j: int)
    requires WellFormed(g) && Placeable(g, loc) && SpanFree(g, loc)
    requires InGrid(g, i, j) && !InSpan(loc, i, j) && g[i][j].item.Some? && g[i][j].spanningCell.Some?
    ensures InGrid(Place(g, item, loc), i, j) && SecondaryOk(Place(g, item, loc), i, j)
  {
    var h := Place(g, item, loc);
    assert CellOk(g, i, j) && SecondaryOk(g, i, j);
    var (r0, c0) := g[i][j].spanningCell.value;
    assert g[r0][c0].item.Some?;
    assert !InSpan(loc, r0, c0);
    assert h[r0][c0] == g[r0][c0];
  }

  /**
   * In a well-formed grid no cell is claimed by two items: two primary cells
   * whose rectangles share a cell are the same cell.
   */
  lemma ClaimedOnce(g: seq<seq<Cell>>, r: int, c: int, r1: int, c1: int, r2: int, c2: int)
    requires WellFormed(g) && InGrid(g, r, c)
    requires InGrid(g, r1, c1) && IsOrigin(g[r1][c1]) && InSpan(g[r1][c1].location, r, c)
    requires InGrid(g, r2, c2) && IsOrigin(g[r2][c2]) && InSpan(g[r2][c2].location, r, c)
    ensures (r1, c1) == (r2, c2)
  {
    assert CellOk(g, r1, c1) && CellOk(g, r2, c2);
    if (r, c) != (r1, c1) {
      assert g[r][c].spanningCell == Some((r1, c1));
    }
    if (r, c) != (r2, c2) {
      assert g[r][c].spanningCell == Some((r2, c2));
    }
  }

  /** Two grids of the same shape that agree on every cell are equal. */
  lemma GridsEqual(a: seq<seq<Cell>>, b: seq<seq<Cell>>)
    requires |a| == |b| && forall i :: 0 <= i < |a| ==> |a[i]| == |b[i]|
    requires forall i, j :: 0 <= i < |a| && 0 <= j < |a[i]| ==> a[i][j] == b[i][j]
    ensures a == b
  {
    forall i | 0 <= i < |a| ensures a[i] == b[i] {
      assert |a[i]| == |b[i]|;
    }
  }

  /** A grid that differs from g exactly as `Place` says is `Place(g, item, loc)`. */
  lemma PlaceByCells(g: seq<seq<Cell>>, h: seq<seq<Cell>>, item: nat, loc: Location)
    requires loc.row.Some? && loc.col.Some?
    requires |h| == |g| && forall i :: 0 <= i < |g| ==> |h[i]| == |g[i]|
    requires InGrid(g, loc.row.value, loc.col.value)
    requires h[loc.row.value][loc.col.value] == Cell(Some(item), loc, g[loc.row.value][loc.col.value].spanningCell)
    requires forall i, j :: InGrid(g, i, j) && (i, j) != (loc.row.value, loc.col.value) ==>
               h[i][j] == if InSpan(loc, i, j) then g[i][j].(item := Some(item), spanningCell := Some((loc.row.value, loc.col.value)))
                          else g[i][j]
    ensures h == Place(g, item, loc)
  {
    GridsEqual(h, Place(g, item, loc));
  }

  /** A grid of `rows` rows of `cols` cells each. */
  ghost predicate Shape(g: seq<seq<Cell>>, rows: nat, cols: nat) {
    |g| == rows && forall i :: 0 <= i < |g| ==> |g[i]| == cols
  }

  /**
   * `extend(itemCell, itemInfo)` then `_markSpanningCell`, cell by cell: g1
   * is g with the origin's item and location set, and h is g1 with the
   * origin's location clipped and every other cell of the rectangle marked.
   * When the location was already clipped and its rectangle free, h is
   * `Place(g, item, loc)` and stays well formed.
   */
  lemma MarkedIsPlace(g: seq<seq<Cell>>, g1: seq<seq<Cell>>, h: seq<seq<Cell>>, item: nat, loc: Location, rows: nat, cols: nat)
    requires WellFormed(g) && Placeable(g, loc) && SpanFree(g, loc)
    requires loc == ClipSpan(loc, rows, cols) && Shape(g, rows, cols) && Shape(h, rows, cols)
    requires g1 == g[loc.row.value := g[loc.row.value][loc.col.value := Cell(Some(item), loc, g[loc.row.value][loc.col.value].spanningCell)]]
    requires var r, c := loc.row.value, loc.col.value;
             && h[r][c] == g1[r][c].(location := ClipSpan(g1[r][c].location, rows, cols))
             && forall i, j :: InGrid(h, i, j) && (i, j) != (r, c) ==>
                  h[i][j] == if InSpan(h[r][c].location, i, j)
                             then g1[i][j].(item := h[r][c].item, spanningCell := Some((r, c)))
                             else g1[i][j]
    ensures h == Place(g, item, loc) && WellFormed(h)
  {
    PlaceByCells(g, h, item, loc);
    PlaceWellFormed(g, item, loc);
  }

  // ---------------------------------------------------------------------------
  // Spreading the screen items

  /**
   * What `_occupyCells` does to the grid for one screen item: when its origin
   * is a free cell and its rectangle, clipped to the grid, holds no item yet,
   * the item is placed there; otherwise nothing changes.
   */
  ghost function Occupy(g: seq<seq<Cell>>, e: ScreenItem): (h: seq<seq<Cell>>)
    ensures |h| == |g| && forall i :: 0 <= i < |g| ==> |h[i]| == |g[i]|
  {
    var loc := e.location;
    if loc.row.None? || loc.col.None? || !InGrid(g, loc.row.value, loc.col.value) then g
    else if g[loc.row.value][loc.col.value].item.Some? then g
    else
      var clipped := ClipSpan(loc, |g|, Width(g));
      if SpanFree(g, clipped) then Place(g, e.item, clipped) else g
  }

  /** A location after `_loopOverSpanning` may have run on it: as it was, or clipped to the grid. */
  predicate KeptOrClipped(before: Location, after: Location, rowsCount: int, colsCount: int) {
    after == before || (before.row.Some? && before.col.Some? && after == ClipSpan(before, rowsCount, colsCount))
  }

  /**
   * The screen item after `_occupyCells`: when its origin is a free cell,
   * `_isItemCellOccupied` has run `_loopOverSpanning` on its location, which
   * clips the spans to the grid.
   */
  ghost function AfterOccupy(g: seq<seq<Cell>>, e: ScreenItem): (e': ScreenItem)
    requires Rectangular(g)
    ensures e'.item == e.item
    ensures KeptOrClipped(e.location, e'.location, |g|, Width(g))
    ensures e.location.rowspan >= 1 && e.location.colspan >= 1 ==> e'.location.rowspan >= 1 && e'.location.colspan >= 1
  {
    var loc := e.location;
    if loc.row.None? || loc.col.None? || !InGrid(g, loc.row.value, loc.col.value) then e
    else if g[loc.row.value][loc.col.value].item.Some? then e
    else e.(location := ClipSpan(loc, |g|, Width(g)))
  }

  /** `_spreadItems`: the screen items occupied in order. */
  ghost function Spread(g: seq<seq<Cell>>, s: seq<ScreenItem>): (h: seq<seq<Cell>>)
    ensures |h| == |g| && forall i :: 0 <= i < |g| ==> |h[i]| == |g[i]|
    decreases |s|
  {
    if s == [] then g else Occupy(Spread(g, s[..|s| - 1]), s[|s| - 1])
  }


  lemma OccupyWellFormed(g: seq<seq<Cell>>, e: ScreenItem)
    requires WellFormed(g) && e.location.rowspan >= 1 && e.location.colspan >= 1
    ensures WellFormed(Occupy(g, e))
  {
    var loc := e.location;
    if loc.row.Some? && loc.col.Some? && InGrid(g, loc.row.value, loc.col.value) && g[loc.row.value][loc.col.value].item.None? {
      var clipped := ClipSpan(loc, |g|, Width(g));
      if SpanFree(g, clipped) {
        assert Placeable(g, clipped);
        PlaceWellFormed(g, e.item, clipped);
      }
    }
  }

  /** Spreading items with positive spans over a well-formed grid leaves it well formed. */
  lemma {:induction false} SpreadWellFormed(g: seq<seq<Cell>>, s: seq<ScreenItem>)
    requires WellFormed(g) && PositiveSpans(s)
    ensures WellFormed(Spread(g, s))
    decreases |s|
  {
    if s != [] {
      var p := s[..|s| - 1];
      assert PositiveSpans(p) by {
        forall k | 0 <= k < |p| ensures p[k].location.rowspan >= 1 && p[k].location.colspan >= 1 {
          assert p[k] == s[k];
        }
      }
      SpreadWellFormed(g, p);
      OccupyWellFormed(Spread(g, p), s[|s| - 1]);
    }
  }

  /** A cell that holds an item is never changed by a later placement. */
  lemma OccupyKeepsItems(g: seq<seq<Cell>>, e: ScreenItem, i: int, j: int)
    requires InGrid(g, i, j) && g[i][j].item.Some?
    ensures Occupy(g, e)[i][j] == g[i][j]
  {
    var loc := e.location;
    if loc.row.Some? && loc.col.Some? && InGrid(g, loc.row.value, loc.col.value) && g[loc.row.value][loc.col.value].item.None? {
      var clipped := ClipSpan(loc, |g|, Width(g));
      if SpanFree(g, clipped) {
        assert !InSpan(clipped, i, j);
      }
    }
  }

  /** First come, first placed: the items already in the grid stay where they are. */
  lemma {:induction false} SpreadKeepsItems(g: seq<seq<Cell>>, s: seq<ScreenItem>, i: int, j: int)
    requires InGrid(g, i, j) && g[i][j].item.Some?
    ensures Spread(g, s)[i][j] == g[i][j]
    decreases |s|
  {
    if s != [] {
      var p := s[..|s| - 1];
      SpreadKeepsItems(g, p, i, j);
      OccupyKeepsItems(Spread(g, p), s[|s| - 1], i, j);
    }
  }

  /** Spreading a concatenation spreads the first part, then the second over the result. */
  lemma {:induction false} SpreadAppend(g: seq<seq<Cell>>, a: seq<ScreenItem>, b: seq<ScreenItem>)
    ensures Spread(g, a + b) == Spread(Spread(g, a), b)
    decreases |b|
  {
    if b == [] {
      assert a + b == a;
    } else {
      var b' := b[..|b| - 1];
      assert (a + b)[..|a + b| - 1] == a + b';
      assert (a + b)[|a + b| - 1] == b[|b| - 1];
      SpreadAppend(g, a, b');
    }
  }

  /**
   * First come, first placed, during the spread: a cell that holds an item
   * once the screen items `done` are spread keeps it through the items
   * spread after them.
   */
  lemma SpreadKeepsPlaced(g: seq<seq<Cell>>, done: seq<ScreenItem>, rest: seq<ScreenItem>, i: int, j: int)
    requires InGrid(g, i, j) && Spread(g, done)[i][j].item.Some?
    ensures Spread(g, done + rest)[i][j] == Spread(g, done)[i][j]
  {
    var h := Spread(g, done);
    SpreadAppend(g, done, rest);
    SpreadKeepsItems(h, rest, i, j);
  }
}
