/**
 * Items and their locations: the per-screen item list, the order used by the
 * single-column re-flow, and the clipping of a location's span to the grid.
 */
module Items {
  import opened Wrappers
  import opened Screen

  /** A location as written on an item; an absent field is None. */
  datatype RawLocation = RawLocation(
    row: Option<int>,
    col: Option<int>,
    rowspan: Option<int>,
    colspan: Option<int>,
    screen: Option<string>)

  /** An item's `location` option: absent, one plain object, or an array of them. */
  datatype ItemLocations = NoLocation | OneLocation(loc: RawLocation) | LocationList(locs: seq<RawLocation>)

  /** An entry of the `items` option; items are identified by their index in that option. */
  datatype Item = Item(location: ItemLocations)

  /** A location after `extend({ rowspan: 1, colspan: 1 }, location)`. */
  datatype Location = Location(row: Option<int>, col: Option<int>, rowspan: int, colspan: int)

  /** An entry of `_screenItems`: the item's index and one of its locations. */
  datatype ScreenItem = ScreenItem(item: nat, location: Location)

  function LocationScreen(l: RawLocation): Option<string> {
    l.screen
  }

  /** `item.location || {}`, wrapped in an array when it is a plain object. */
  function LocationsOf(item: Item): seq<RawLocation> {
    match item.location
    case NoLocation => [RawLocation(None, None, None, None, None)]
    case OneLocation(l) => [l]
    case LocationList(ls) => ls
  }

  function WithDefaultSpans(l: RawLocation): Location {
    Location(l.row, l.col, l.rowspan.GetOr(1), l.colspan.GetOr(1))
  }

  /** The entries one item contributes: one per location kept for the class, in order. */
  function ScreenItemsOf(k: nat, locs: seq<RawLocation>): (r: seq<ScreenItem>)
    ensures |r| == |locs|
    ensures forall i :: 0 <= i < |r| ==> r[i] == ScreenItem(k, WithDefaultSpans(locs[i]))
  {
    if locs == [] then [] else [ScreenItem(k, WithDefaultSpans(locs[0]))] + ScreenItemsOf(k, locs[1..])
  }

  function KeptLocations(item: Item, cls: string): seq<RawLocation> {
    FilterByScreen(LocationsOf(item), LocationScreen, cls)
  }

  /**
   * Every explicit span of a location kept for the class is at least 1 (the
   * spans the layout's arithmetic assumes).
   */
  predicate SpansPositive(items: seq<Item>, cls: string) {
    forall k, l :: 0 <= k < |items| && l in KeptLocations(items[k], cls) ==>
      l.rowspan.GetOr(1) >= 1 && l.colspan.GetOr(1) >= 1
  }

  /** `_itemsByScreen`: the `reduce` over the items, appending each item's kept locations. */
  function ItemsByScreen(items: seq<Item>, cls: string): (r: seq<ScreenItem>)
    ensures forall i :: 0 <= i < |r| ==> r[i].item < |items|
    ensures forall i, j :: 0 <= i <= j < |r| ==> r[i].item <= r[j].item
  {
    if items == [] then []
    else
      var k := |items| - 1;
      var prefix := ItemsByScreen(items[..k], cls);
      var kept := KeptLocations(items[k], cls);
      prefix + ScreenItemsOf(k, kept)
  }

  /** Every entry spans at least one row and one column. */
  predicate PositiveSpans(s: seq<ScreenItem>) {
    forall k :: 0 <= k < |s| ==> s[k].location.rowspan >= 1 && s[k].location.colspan >= 1
  }

  /** With no explicit span below 1, every entry's spans are at least 1. */
  lemma {:induction false} ItemsByScreenSpans(items: seq<Item>, cls: string)
    requires SpansPositive(items, cls)
    ensures PositiveSpans(ItemsByScreen(items, cls))
  {
    if items != [] {
      var k := |items| - 1;
      assert SpansPositive(items[..k], cls) by {
        forall j, l | 0 <= j < k && l in KeptLocations(items[..k][j], cls)
          ensures l.rowspan.GetOr(1) >= 1 && l.colspan.GetOr(1) >= 1
        {
          assert items[..k][j] == items[j];
        }
      }
      ItemsByScreenSpans(items[..k], cls);
      var prefix := ItemsByScreen(items[..k], cls);
      var own := ScreenItemsOf(k, KeptLocations(items[k], cls));
      var r := ItemsByScreen(items, cls);
      assert r == prefix + own;
      forall i | 0 <= i < |r|
        ensures r[i].location.rowspan >= 1 && r[i].location.colspan >= 1
      {
        if i < |prefix| {
          assert r[i] == prefix[i];
        } else {
          var l := KeptLocations(items[k], cls)[i - |prefix|];
          assert l in KeptLocations(items[k], cls);
          assert l.rowspan.GetOr(1) >= 1 && l.colspan.GetOr(1) >= 1;
          assert r[i] == own[i - |prefix|] == ScreenItem(k, WithDefaultSpans(l));
        }
      }
    }
  }

  /** The entries of a screen-item list that come from item `k`. */
  function EntriesOf(s: seq<ScreenItem>, k: nat): seq<ScreenItem> {
    if s == [] then []
    else if s[0].item == k then [s[0]] + EntriesOf(s[1..], k)
    else EntriesOf(s[1..], k)
  }

  lemma {:induction false} EntriesOfAppend(a: seq<ScreenItem>, b: seq<ScreenItem>, k: nat)
    ensures EntriesOf(a + b, k) == EntriesOf(a, k) + EntriesOf(b, k)
  {
    if a == [] {
      assert a + b == b;
    } else {
      assert (a + b)[1..] == a[1..] + b;
      EntriesOfAppend(a[1..], b, k);
    }
  }

  lemma {:induction false} EntriesOfUniform(s: seq<ScreenItem>, k: nat, m: nat)
    requires forall i :: 0 <= i < |s| ==> s[i].item == m
    ensures EntriesOf(s, k) == if k == m then s else []
  {
    if s != [] {
      EntriesOfUniform(s[1..], k, m);
    }
  }

  /**
   * What `_itemsByScreen` gives for item k: exactly one entry per location of
   * k kept for the class, in the order the locations are written, with spans
   * defaulted to 1.
   */
  lemma {:induction false} ItemsByScreenOfItem(items: seq<Item>, cls: string, k: nat)
    requires k < |items|
    ensures EntriesOf(ItemsByScreen(items, cls), k) == ScreenItemsOf(k, KeptLocations(items[k], cls))
  {
    var last := |items| - 1;
    var prefix := ItemsByScreen(items[..last], cls);
    var own := ScreenItemsOf(last, KeptLocations(items[last], cls));
    assert ItemsByScreen(items, cls) == prefix + own;
    EntriesOfAppend(prefix, own, k);
    EntriesOfUniform(own, k, last);
    if k == last {
      EntriesOfNone(prefix, k);
    } else {
      assert items[..last][k] == items[k];
      ItemsByScreenOfItem(items[..last], cls, k);
    }
  }

  lemma {:induction false} EntriesOfNone(s: seq<ScreenItem>, k: nat)
    requires forall i :: 0 <= i < |s| ==> s[i].item != k
    ensures EntriesOf(s, k) == []
  {
    if s != [] {
      EntriesOfNone(s[1..], k);
    }
  }

  // ---------------------------------------------------------------------------
  // Order of the single-column re-flow

  /**
   * The comparator `(item1.location.row - item2.location.row) ||
   * (item1.location.col - item2.location.col)` after `Array.prototype.sort`
   * has read it: a difference with an unset coordinate is NaN, `||` falls
   * through a NaN or a 0 to the column difference, and a NaN result counts
   * as +0.
   */
  function SortCompare(a: ScreenItem, b: ScreenItem): (r: int)
    ensures a.location.row.Some? && b.location.row.Some? && a.location.row != b.location.row ==>
              r == a.location.row.value - b.location.row.value
    ensures (a.location.row.None? || b.location.row.None? || a.location.row == b.location.row) ==>
              r == if a.location.col.Some? && b.location.col.Some? then a.location.col.value - b.location.col.value else 0
  {
    var rowDiff := if a.location.row.Some? && b.location.row.Some? then Some(a.location.row.value - b.location.row.value) else None;
    var colDiff := if a.location.col.Some? && b.location.col.Some? then Some(a.location.col.value - b.location.col.value) else None;
    if rowDiff.Some? && rowDiff.value != 0 then rowDiff.value
    else if colDiff.Some? then colDiff.value
    else 0
  }

  /**
   * Every entry sets a row or none does, and likewise for the column: then
   * the comparator orders by the coordinates that are set, and it is a
   * consistent comparator.
   */
  predicate UniformlyPositioned(s: seq<ScreenItem>) {
    && ((forall i :: 0 <= i < |s| ==> s[i].location.row.Some?) || (forall i :: 0 <= i < |s| ==> s[i].location.row.None?))
    && ((forall i :: 0 <= i < |s| ==> s[i].location.col.Some?) || (forall i :: 0 <= i < |s| ==> s[i].location.col.None?))
  }

  /** The sort key: (row, col), where a coordinate the entry does not set counts as 0. */
  function Position(e: ScreenItem): (int, int) {
    (e.location.row.GetOr(0), e.location.col.GetOr(0))
  }

  /** The key order: by row, then by column. */
  predicate PositionLe(a: ScreenItem, b: ScreenItem) {
    var (r1, c1) := Position(a);
    var (r2, c2) := Position(b);
    r1 < r2 || (r1 == r2 && c1 <= c2)
  }

  /**
   * On uniformly positioned entries the comparator agrees with the key order:
   * it is not positive exactly when the key order holds, zero exactly when the
   * keys are equal, and antisymmetric; so it is consistent there.
   */
  lemma ComparatorMatchesKeys(s: seq<ScreenItem>)
    requires UniformlyPositioned(s)
    ensures forall i, j :: 0 <= i < |s| && 0 <= j < |s| ==>
              && (SortCompare(s[i], s[j]) <= 0 <==> PositionLe(s[i], s[j]))
              && (SortCompare(s[i], s[j]) == 0 <==> Position(s[i]) == Position(s[j]))
              && SortCompare(s[i], s[j]) == - SortCompare(s[j], s[i])
  {
  }

  /**
   * Mixed inputs can make the comparator inconsistent: (0, 5), (unset, 3) and
   * (1, 1) each compare below the next, in a cycle.
   */
  lemma MixedComparatorCycle()
    ensures var a := ScreenItem(0, Location(Some(0), Some(5), 1, 1));
            var b := ScreenItem(1, Location(None, Some(3), 1, 1));
            var c := ScreenItem(2, Location(Some(1), Some(1), 1, 1));
            SortCompare(a, c) < 0 && SortCompare(c, b) < 0 && SortCompare(b, a) < 0
  {
  }

  predicate SortedByPosition(s: seq<ScreenItem>) {
    forall i, j :: 0 <= i < j < |s| ==> PositionLe(s[i], s[j])
  }

  /** Puts `x` before the first entry that does not precede it. */
  function Insert(x: ScreenItem, s: seq<ScreenItem>): (r: seq<ScreenItem>)
    ensures |r| == |s| + 1
    ensures multiset(r) == multiset(s) + multiset{x}
  {
    if s == [] || PositionLe(x, s[0]) then [x] + s
    else
      assert s == [s[0]] + s[1..];
      [s[0]] + Insert(x, s[1..])
  }

  /**
   * The in-place `Array.prototype.sort` of `_prepareSingleColumnScreenItems`
   * with its comparator: a stable sort by (row, col), written as an insertion
   * sort.
   */
  function SortByPosition(s: seq<ScreenItem>): (r: seq<ScreenItem>)
    ensures |r| == |s|
    ensures multiset(r) == multiset(s)
  {
    if s == [] then []
    else
      assert s == [s[0]] + s[1..];
      Insert(s[0], SortByPosition(s[1..]))
  }

  lemma {:induction false} InsertSorted(x: ScreenItem, s: seq<ScreenItem>)
    requires SortedByPosition(s)
    ensures SortedByPosition(Insert(x, s))
  {
    if s == [] || PositionLe(x, s[0]) {
    } else {
      var t := Insert(x, s[1..]);
      InsertSorted(x, s[1..]);
      forall j | 0 <= j < |t| ensures PositionLe(s[0], t[j]) {
        assert t[j] in multiset(t);
        assert t[j] == x || t[j] in multiset(s[1..]);
        if t[j] != x {
          var m :| 0 <= m < |s[1..]| && s[1..][m] == t[j];
          assert s[m + 1] == t[j];
        }
      }
    }
  }

  /** The re-flow order is sorted by (row, col). */
  lemma {:induction false} SortByPositionSorted(s: seq<ScreenItem>)
    ensures SortedByPosition(SortByPosition(s))
  {
    if s != [] {
      SortByPositionSorted(s[1..]);
      InsertSorted(s[0], SortByPosition(s[1..]));
    }
  }

  /** The entries of `s` at position (row, col), in their order in `s`. */
  function AtPosition(s: seq<ScreenItem>, p: (int, int)): seq<ScreenItem>
  {
    if s == [] then []
    else if Position(s[0]) == p then [s[0]] + AtPosition(s[1..], p)
    else AtPosition(s[1..], p)
  }

  lemma {:induction false} InsertAtPosition(x: ScreenItem, s: seq<ScreenItem>, p: (int, int))
    ensures AtPosition(Insert(x, s), p) == (if Position(x) == p then [x] else []) + AtPosition(s, p)
  {
    if s == [] || PositionLe(x, s[0]) {
      AtPositionCons(x, s, p);
    } else {
      InsertAtPosition(x, s[1..], p);
      AtPositionCons(s[0], Insert(x, s[1..]), p);
      AtPositionCons(s[0], s[1..], p);
      assert [s[0]] + s[1..] == s;
    }
  }

  lemma AtPositionCons(y: ScreenItem, s: seq<ScreenItem>, p: (int, int))
    ensures AtPosition([y] + s, p) == (if Position(y) == p then [y] else []) + AtPosition(s, p)
  {
    assert ([y] + s)[0] == y && ([y] + s)[1..] == s;
  }

  /** The sort is stable: entries at the same position keep their relative order. */
  lemma {:induction false} SortByPositionStable(s: seq<ScreenItem>, p: (int, int))
    ensures AtPosition(SortByPosition(s), p) == AtPosition(s, p)
  {
    if s != [] {
      SortByPositionStable(s[1..], p);
      InsertAtPosition(s[0], SortByPosition(s[1..]), p);
    }
  }

  /**
   * When no entry sets a row or a column, as for items without a `location`,
   * the comparator finds every pair equal and the sort keeps the input order.
   */
  lemma {:induction false} SortUnpositionedKeepsOrder(s: seq<ScreenItem>)
    requires forall i :: 0 <= i < |s| ==> s[i].location.row.None? && s[i].location.col.None?
    ensures SortByPosition(s) == s
  {
    if s != [] {
      SortUnpositionedKeepsOrder(s[1..]);
      assert s == [s[0]] + s[1..];
    }
  }

  // ---------------------------------------------------------------------------
  // Span clipping

  function Min(a: int, b: int): int {
    if a <= b then a else b
  }

  /**
   * The span update of `_loopOverSpanning`: the spans are cut so that the
   * location ends on the grid's last row and column at the latest.
   */
  function ClipSpan(loc: Location, rowsCount: int, colsCount: int): (c: Location)
    requires loc.row.Some? && loc.col.Some?
    ensures c.row == loc.row && c.col == loc.col
    ensures c.rowspan <= loc.rowspan && c.colspan <= loc.colspan
    ensures loc.row.value + c.rowspan - 1 <= rowsCount - 1
    ensures loc.col.value + c.colspan - 1 <= colsCount - 1
    ensures c.rowspan == loc.rowspan || loc.row.value + c.rowspan == rowsCount
    ensures c.colspan == loc.colspan || loc.col.value + c.colspan == colsCount
    ensures 0 <= loc.row.value < rowsCount && loc.rowspan >= 1 ==> c.rowspan >= 1
    ensures 0 <= loc.col.value < colsCount && loc.colspan >= 1 ==> c.colspan >= 1
  {
    var rowEnd := loc.row.value + loc.rowspan - 1;
    var colEnd := loc.col.value + loc.colspan - 1;
    var boundRowEnd := Min(rowEnd, rowsCount - 1);
    var boundColEnd := Min(colEnd, colsCount - 1);
    loc.(rowspan := loc.rowspan - (rowEnd - boundRowEnd), colspan := loc.colspan - (colEnd - boundColEnd))
  }

  /** Clipping twice is clipping once. */
  lemma ClipSpanIdempotent(loc: Location, rowsCount: int, colsCount: int)
    requires loc.row.Some? && loc.col.Some?
    ensures ClipSpan(ClipSpan(loc, rowsCount, colsCount), rowsCount, colsCount) == ClipSpan(loc, rowsCount, colsCount)
  {
  }
}
