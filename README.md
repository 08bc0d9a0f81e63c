# ResponsiveBox layout engine

A Dafny model of the layout engine of DevExtreme's `ResponsiveBox` widget
(`packages/devextreme/js/__internal/ui/m_responsive_box.ts`), with proofs of
what it guarantees. The widget turns three inputs into a tree of nested
row and column boxes:

- the `rows` and `cols` options (size configurations);
- the `items` option, where each item has one or more locations (row, col,
  rowspan, colspan, screen);
- the current screen class.

The model covers one layout pass (`_renderItems`) in four steps:

1. **Filtering by screen.** The configurations and item locations kept for
   the current screen class (`Screen`, `SizeConfigs`, `Items`), and the
   single-column re-flow of the items (`PrepareSingleColumnScreenItems`,
   `SingleColumnRows`).
2. **The occupancy grid.** `_prepareGrid` allocates it one push at a time,
   and `_spreadItems` fills it in place. Each item goes on its origin cell,
   with its span clipped to the grid, unless some cell of its rectangle is
   already taken. The other cells of the rectangle become secondary cells
   that point back at the origin. The class `ResponsiveBox` keeps the grid
   as a field and proves each method against the value-level definitions of
   module `Grid` (`Place`, `Occupy`, `Spread`, `WellFormed`).
3. **The recursive partition.** `_layoutBlock`, `_layoutDirection` and
   `_nextBlock` cut the grid into alternating row and column blocks. A block
   that cannot be divided raises the configuration error E1025, modelled as
   `Err(E1025)`. Module `LayoutSpec` defines the partition as functions of
   the grid value, and the class's recursive methods are proved equal to
   them. Termination is proved with the measure "rows plus columns of the
   bounds" (`Extent`), together with the fact that a block equals its parent
   only on the first step.
   Module `LeafCover` proves that the partition loses no item and shows none
   twice: the root has one leaf per primary cell of the grid, showing that
   cell's item.
4. **Sizes and the root.** `_blockSize` sums the size configurations of a
   block's lines (`BlockSizeSpec`). `_layoutItems` wraps a single-item root
   in a row box, and `_rootBoxConfig` gives "auto" base sizes to the root's
   children that set no size (`RootSpec`).

Items are identified by their index in the `items` option. A cell holding
the empty object `{}` has item `None`. JavaScript numbers are modelled as
`real` (see Left out). The screen class is a constructor parameter.

## Model

| member | source | states |
|---|---|---|
| Screen.ScreenRegExpTest | packages/devextreme/js/__internal/ui/m_responsive_box.ts:198-201 | `new RegExp('(^\|\\s)' + screen + '($\|\\s)', 'i').test(s)` holds iff the class occurs in `s` as a whitespace-delimited token, ignoring letter case |
| Screen.MatchFrom | packages/devextreme/js/__internal/ui/m_responsive_box.ts:198-201 | the regex search from position i succeeds iff a token match starts at some position j ≥ i |
| Screen.FilterByScreen | packages/devextreme/js/__internal/ui/m_responsive_box.ts:192-196 | `_filterByScreen` keeps an entry iff it has no `screen` or its screen names the class; kept entries come from the input, and every entry that matches is kept |
| Screen.FilterByScreenAppend | packages/devextreme/js/__internal/ui/m_responsive_box.ts:192-196 | the `grep` keeps entries in order: filtering a concatenation is the concatenation of the filtered parts |
| Screen.TokenKeeps | packages/devextreme/js/__internal/ui/m_responsive_box.ts:192-201 | a screen string that names the class as a token, in any letter case, is kept |
| Screen.NoTokenDrops | packages/devextreme/js/__internal/ui/m_responsive_box.ts:192-201 | a non-empty screen string with no token equal to the class is dropped |
| SizeConfigs.CreateDefaultSizeConfig | packages/devextreme/js/__internal/ui/m_responsive_box.ts:172-176 | the default configuration is ratio 1 and baseSize, minSize, maxSize 0, with no shrink |
| SizeConfigs.DefaultSizeConfigs | packages/devextreme/js/__internal/ui/m_responsive_box.ts:178-190 | `_defaultSizeConfig(size)` returns `size` default configurations |
| SizeConfigs.MapDefaults | packages/devextreme/js/__internal/ui/m_responsive_box.ts:168-170 | each configuration is completed with the defaults, position by position |
| SizeConfigs.SizesByScreen | packages/devextreme/js/__internal/ui/m_responsive_box.ts:168-170 | `_sizesByScreen` gives one configuration per entry kept for the class, in order; the fields the entry sets win over the defaults |
| SizeConfigs.SingleColumnRows | packages/devextreme/js/__internal/ui/m_responsive_box.ts:121-140 | one default row per screen item; row i takes `shrink` from the i-th filtered row when the `rows` option is non-empty and that row defines it |
| SizeConfigs.IsSingleColumnScreen | packages/devextreme/js/__internal/ui/m_responsive_box.ts:153-156 | single-column mode holds iff `singleColumnScreen` names the class as a token, or the unfiltered `rows` or `cols` option is empty |
| Items.ScreenItemsOf | packages/devextreme/js/__internal/ui/m_responsive_box.ts:236-241 | one entry per kept location of the item, in order, with rowspan and colspan defaulted to 1 |
| Items.ItemsByScreen | packages/devextreme/js/__internal/ui/m_responsive_box.ts:231-245 | every entry refers to an item of the option, and entries appear in item order |
| Items.ItemsByScreenOfItem | packages/devextreme/js/__internal/ui/m_responsive_box.ts:231-245 | the entries of item k are exactly its locations kept for the class, in the order written, with default spans |
| Items.ItemsByScreenSpans | packages/devextreme/js/__internal/ui/m_responsive_box.ts:239 | when no explicit span is below 1, every entry spans at least one row and one column |
| Items.EntriesOfAppend | packages/devextreme/js/__internal/ui/m_responsive_box.ts:231-245 | the entries of item k in a concatenation are those of the parts, in order |
| Items.EntriesOfUniform | packages/devextreme/js/__internal/ui/m_responsive_box.ts:231-245 | a list whose entries all come from item m holds entries of k only if k = m |
| Items.EntriesOfNone | packages/devextreme/js/__internal/ui/m_responsive_box.ts:231-245 | a list with no entry of item k yields none |
| Items.SortCompare | packages/devextreme/js/__internal/ui/m_responsive_box.ts:159 | the comparator as the engine reads it: the row difference when both rows are set and differ; otherwise the column difference when both columns are set; otherwise 0 (a NaN counts as +0) |
| Items.ComparatorMatchesKeys | packages/devextreme/js/__internal/ui/m_responsive_box.ts:159 | when every kept location sets a row or none does, and likewise a column, the comparator is not positive exactly when the (row, col) key order holds, is zero exactly on equal keys, and is antisymmetric: a consistent comparator |
| Items.MixedComparatorCycle | packages/devextreme/js/__internal/ui/m_responsive_box.ts:159 | with items (0, 5), (unset, 3) and (1, 1) the comparator orders each below the next, in a cycle: it is not consistent on mixed inputs |
| Items.Insert | packages/devextreme/js/__internal/ui/m_responsive_box.ts:159 | inserting into the sorted list adds exactly the one entry (as a multiset) |
| Items.SortByPosition | packages/devextreme/js/__internal/ui/m_responsive_box.ts:159 | the sort by (row, col) is a permutation of the screen items |
| Items.InsertSorted | packages/devextreme/js/__internal/ui/m_responsive_box.ts:159 | insertion keeps the list sorted by (row, col) |
| Items.SortByPositionSorted | packages/devextreme/js/__internal/ui/m_responsive_box.ts:159 | the result of the sort is ordered by row, then column |
| Items.InsertAtPosition | packages/devextreme/js/__internal/ui/m_responsive_box.ts:159 | among the entries at one position, the inserted entry comes first, ahead of the entries of the rest of the list |
| Items.AtPositionCons | packages/devextreme/js/__internal/ui/m_responsive_box.ts:159 | the entries at a position of `[y] + s` are y (if it is at that position) followed by those of s |
| Items.SortByPositionStable | packages/devextreme/js/__internal/ui/m_responsive_box.ts:159 | the sort is stable: entries with equal (row, col) keep their relative order |
| Items.SortUnpositionedKeepsOrder | packages/devextreme/js/__internal/ui/m_responsive_box.ts:159 | when no entry sets a row or a column (items without a `location`), the comparator finds all pairs equal and the sort keeps the input order |
| Items.ClipSpan | packages/devextreme/js/__internal/ui/m_responsive_box.ts:268-274 | the clipped rectangle ends inside the grid; spans never grow; a span changes only when it ran past the last row or column; origin and position are kept |
| Items.ClipSpanIdempotent | packages/devextreme/js/__internal/ui/m_responsive_box.ts:268-274 | clipping a second time changes nothing |
| Grid.EmptyCell | packages/devextreme/js/__internal/ui/m_responsive_box.ts:212-217 | a new cell holds no item, has no spanning cell and spans 1×1 |
| Grid.AllEmptyWellFormed | packages/devextreme/js/__internal/ui/m_responsive_box.ts:104-119 | the freshly allocated grid of empty cells is well formed and rectangular |
| Grid.WellFormedSpansInGrid | packages/devextreme/js/__internal/ui/m_responsive_box.ts:268-292 | in a well-formed grid every cell's span ends inside the grid |
| Grid.Place | packages/devextreme/js/__internal/ui/m_responsive_box.ts:247-253 | placing an item keeps the grid's shape |
| Grid.PlaceWellFormed | packages/devextreme/js/__internal/ui/m_responsive_box.ts:247-253 | placing an item whose clipped rectangle is free keeps the grid well formed |
| Grid.PlaceOriginOk | packages/devextreme/js/__internal/ui/m_responsive_box.ts:250-251 | after placement the origin cell meets the cell invariant: it holds the item and its span stays inside the grid |
| Grid.PlaceSecondaryOk | packages/devextreme/js/__internal/ui/m_responsive_box.ts:285-292 | every other cell of the rectangle holds the item and points to the origin |
| Grid.PlaceOtherOk | packages/devextreme/js/__internal/ui/m_responsive_box.ts:285-292 | cells outside the rectangle stay well formed |
| Grid.PlaceOtherOriginOk | packages/devextreme/js/__internal/ui/m_responsive_box.ts:285-292 | an earlier primary cell still owns its rectangle after another item is placed |
| Grid.PlaceOtherSecondaryOk | packages/devextreme/js/__internal/ui/m_responsive_box.ts:285-292 | an earlier secondary cell still points to a primary cell that covers it |
| Grid.ClaimedOnce | packages/devextreme/js/__internal/ui/m_responsive_box.ts:247-292 | no cell of a well-formed grid lies in the rectangles of two different primary cells |
| Grid.GridsEqual | packages/devextreme/js/__internal/ui/m_responsive_box.ts:104-119 | two grids of the same shape with equal cells are equal |
| Grid.PlaceByCells | packages/devextreme/js/__internal/ui/m_responsive_box.ts:247-292 | a grid that agrees with placement cell by cell is the placed grid |
| Grid.MarkedIsPlace | packages/devextreme/js/__internal/ui/m_responsive_box.ts:250-252 | `extend(itemCell, itemInfo)` followed by `_markSpanningCell` yields the placed grid, which is well formed |
| Grid.Occupy | packages/devextreme/js/__internal/ui/m_responsive_box.ts:247-254 | occupying an item keeps the grid's shape |
| Grid.AfterOccupy | packages/devextreme/js/__internal/ui/m_responsive_box.ts:256-283 | after `_occupyCells` an item's location is either unchanged or clipped to the grid; positive spans stay positive |
| Grid.Spread | packages/devextreme/js/__internal/ui/m_responsive_box.ts:219-229 | spreading keeps the grid's shape |
| Grid.OccupyWellFormed | packages/devextreme/js/__internal/ui/m_responsive_box.ts:247-254 | occupying one item keeps the grid well formed |
| Grid.SpreadWellFormed | packages/devextreme/js/__internal/ui/m_responsive_box.ts:219-229 | spreading all screen items keeps the grid well formed |
| Grid.OccupyKeepsItems | packages/devextreme/js/__internal/ui/m_responsive_box.ts:256-266 | a cell that already holds an item is never overwritten |
| Grid.SpreadKeepsItems | packages/devextreme/js/__internal/ui/m_responsive_box.ts:219-229 | a cell that already holds an item keeps it through any spread |
| Grid.SpreadAppend | packages/devextreme/js/__internal/ui/m_responsive_box.ts:219-229 | the `each` loop runs in order: spreading `a + b` spreads `a`, then `b` over the result |
| Grid.SpreadKeepsPlaced | packages/devextreme/js/__internal/ui/m_responsive_box.ts:219-229 | first come, first served: a cell claimed while spreading the earlier items keeps its item and span through the items spread after them |
| Partition.CrossDirection | packages/devextreme/js/__internal/ui/m_responsive_box.ts:418-420 | the cross direction differs from the direction |
| Partition.WithRange | packages/devextreme/js/__internal/ui/m_responsive_box.ts:402 | advancing one axis's range leaves the other axis's range unchanged |
| Partition.Coord | packages/devextreme/js/__internal/ui/m_responsive_box.ts:454-458 | along rows the index is the row; along columns the index is the column |
| Partition.LastLineClosed | packages/devextreme/js/__internal/ui/m_responsive_box.ts:431-444 | with clipped spans, the grid's last line always closes a block |
| Partition.LeastClosedEnd | packages/devextreme/js/__internal/ui/m_responsive_box.ts:431-444 | the fixed point of the cross-span growth: the least end from e on such that every scanned cell's cross span ends by it, within the grid |
| Partition.NextBlockSpec | packages/devextreme/js/__internal/ui/m_responsive_box.ts:422-452 | `_nextBlock` gives null iff the cross start is past the cross end; otherwise it keeps the range on the direction, and its cross range starts at the cross start, is non-empty and ends inside the grid |
| Partition.LeastClosedEndUnique | packages/devextreme/js/__internal/ui/m_responsive_box.ts:431-444 | an end that is closed and has no closed end below it is the fixed point |
| Partition.WholeGridClosed | packages/devextreme/js/__internal/ui/m_responsive_box.ts:313-317 | the bounds of the whole grid are closed (no span leaves them) |
| Partition.NextBlockInside | packages/devextreme/js/__internal/ui/m_responsive_box.ts:422-452 | in closed bounds the next block lies inside the bounds and is itself closed |
| Partition.AdvanceClosed | packages/devextreme/js/__internal/ui/m_responsive_box.ts:402 | the bounds past a block are still closed |
| Partition.ItemsInMono | packages/devextreme/js/__internal/ui/m_responsive_box.ts:356-408 | a sub-block holds a subset of its parent's items |
| Partition.ExtentShrinks | packages/devextreme/js/__internal/ui/m_responsive_box.ts:384-402 | a block strictly inside the bounds covers fewer rows plus columns |
| Partition.LastShrinkSet | packages/devextreme/js/__internal/ui/m_responsive_box.ts:471-473 | the block's shrink is the last one defined in its range, and unset when none is |
| Partition.RatioSplit | packages/devextreme/js/__internal/ui/m_responsive_box.ts:465-470 | accumulated ratios over adjacent ranges add up |
| Partition.BlockSizeOneLine | packages/devextreme/js/__internal/ui/m_responsive_box.ts:460-483 | a one-line block takes that line's ratio, shrink and (outside single-column mode) baseSize |
| Partition.BlockRatioSplit | packages/devextreme/js/__internal/ui/m_responsive_box.ts:460-483 | the ratio of a block is the sum of the ratios of any split of its lines |
| Partition.NeedApplyAutoBaseSize | packages/devextreme/js/__internal/ui/m_responsive_box.ts:345-347 | holds iff baseSize is neither "auto" nor a non-zero number, and minSize and maxSize are not non-zero numbers |
| Partition.IsBlockIndivisible | packages/devextreme/js/__internal/ui/m_responsive_box.ts:410-416 | holds iff the parent's current bounds exist and equal the block |
| LayoutSpec.NextChild | packages/devextreme/js/__internal/ui/m_responsive_box.ts:384-403 | each step of `_layoutDirection` finds a closed block inside the bounds across their whole range; the block equals the bounds only on the first step, and is otherwise smaller; the cross start strictly advances |
| LayoutSpec.BlockLayout | packages/devextreme/js/__internal/ui/m_responsive_box.ts:356-362 | `_layoutBlock` gives a leaf exactly when the first cell's spans reach the bounds' last row and column; otherwise it gives a box in the requested direction |
| LayoutSpec.DirectionLayout | packages/devextreme/js/__internal/ui/m_responsive_box.ts:377-408 | a successful `_layoutDirection` yields a box in its own direction |
| LayoutSpec.ChildLayout | packages/devextreme/js/__internal/ui/m_responsive_box.ts:389-399 | a kept child carries the size of its block's lines on the cross axis |
| LayoutSpec.Kept | packages/devextreme/js/__internal/ui/m_responsive_box.ts:396-400 | a null child is omitted; otherwise the child is appended after the earlier ones |
| LayoutSpec.DirectionStep | packages/devextreme/js/__internal/ui/m_responsive_box.ts:384-403 | one loop pass: E1025 on an indivisible block, the child's error if it fails, otherwise the rest of the loop from the bounds past the block |
| LayoutSpec.DirectionEnds | packages/devextreme/js/__internal/ui/m_responsive_box.ts:384-407 | once no block is left, the box holds exactly the children kept so far |
| LayoutSpec.IndivisibleRejected | packages/devextreme/js/__internal/ui/m_responsive_box.ts:385-387 | a multi-item block whose first sub-block equals its parent's bounds is rejected with E1025 |
| LayoutSpec.AllKeptEach | packages/devextreme/js/__internal/ui/m_responsive_box.ts:389-402 | the kept children correspond one to one to blocks of the bounds, disjoint and in order along the cross axis |
| LayoutSpec.AllKeptSnoc | packages/devextreme/js/__internal/ui/m_responsive_box.ts:396-402 | appending a child for a later block keeps that correspondence |
| LayoutSpec.DirectionKept | packages/devextreme/js/__internal/ui/m_responsive_box.ts:384-407 | every child of a box comes from its own block, in cross-axis order, sized by that block's lines |
| LayoutSpec.ChildrenSized | packages/devextreme/js/__internal/ui/m_responsive_box.ts:356-408 | every child of a laid-out box is sized by the lines of a distinct block of the bounds |
| LayoutSpec.NodeLeavesSnoc | packages/devextreme/js/__internal/ui/m_responsive_box.ts:396-400 | the leaves of a box with one more child are the old leaves plus the child's |
| LayoutSpec.BlockLeaves | packages/devextreme/js/__internal/ui/m_responsive_box.ts:356-375 | every leaf of a block's layout shows an item held by a cell of that block |
| LayoutSpec.DirectionLeaves | packages/devextreme/js/__internal/ui/m_responsive_box.ts:377-408 | the leaves `_layoutDirection` adds show items of its bounds |
| LeafCover.WholeGridSelfContained | packages/devextreme/js/__internal/ui/m_responsive_box.ts:306-325 | in a well-formed grid, every secondary cell of the root bounds points at an origin inside them, so the root keeps its spanned items whole |
| LeafCover.FirstCellNotSecondary | packages/devextreme/js/__internal/ui/m_responsive_box.ts:372-375 | in bounds that keep their spanned items whole, the first cell is not secondary, so `_itemByCell` does not return null there |
| LeafCover.SingleItemCovers | packages/devextreme/js/__internal/ui/m_responsive_box.ts:356-375 | a single-item block that keeps its spanned items whole becomes a non-null leaf, and every item its cells hold is that leaf's item |
| LeafCover.PastBlockClosedBefore | packages/devextreme/js/__internal/ui/m_responsive_box.ts:384-403 | after `options[crossDirection].start` moves past a block, no cell before the new start spans beyond it |
| LeafCover.BlockSelfContained | packages/devextreme/js/__internal/ui/m_responsive_box.ts:384-403 | a block `_nextBlock` cuts from bounds that keep their spanned items whole keeps them whole too |
| LeafCover.ItemsSplit | packages/devextreme/js/__internal/ui/m_responsive_box.ts:384-403 | every item of the current bounds is in the next block or in the bounds past it |
| LeafCover.BlockCovers | packages/devextreme/js/__internal/ui/m_responsive_box.ts:356-362 | the layout of a block that keeps its spanned items whole is never null, and every item its cells hold is a leaf of it |
| LeafCover.DirectionCovers | packages/devextreme/js/__internal/ui/m_responsive_box.ts:377-408 | `_layoutDirection` keeps the leaves it has and adds every item held in the rest of its bounds |
| LeafCover.BlockLeavesExact | packages/devextreme/js/__internal/ui/m_responsive_box.ts:356-362 | for a block that keeps its spanned items whole, the leaves of its layout are exactly the items its cells hold |
| LeafCover.LeafBagSnoc | packages/devextreme/js/__internal/ui/m_responsive_box.ts:396-400 | a box with one more child shows the child's leaves in addition to its own, counted with multiplicity |
| LeafCover.OriginsSplit | packages/devextreme/js/__internal/ui/m_responsive_box.ts:384-403 | the primary cells of the current bounds are split, without overlap, between the next block and the bounds past it |
| LeafCover.SingleItemCounts | packages/devextreme/js/__internal/ui/m_responsive_box.ts:356-375 | a self-contained single-item block holds exactly one primary cell, its first, and becomes one leaf showing that cell's item (or the empty object) |
| LeafCover.BlockCounts | packages/devextreme/js/__internal/ui/m_responsive_box.ts:356-362 | the layout of a self-contained block is never null and shows each item once per primary cell of the block holding it |
| LeafCover.DirectionCounts | packages/devextreme/js/__internal/ui/m_responsive_box.ts:377-408 | `_layoutDirection` keeps its leaves and adds one leaf per primary cell of the rest of its bounds |
| RootSpec.RootKeepsLeafBag | packages/devextreme/js/__internal/ui/m_responsive_box.ts:320-321 | wrapping a leaf root in a row box and `_rootBoxConfig` neither add nor drop a leaf |
| RootSpec.SkipsLayoutAsWritten | packages/devextreme/js/__internal/ui/m_responsive_box.ts:307-312 | the guard as written skips the layout iff the grid has no row |
| RootSpec.SkipsLayout | packages/devextreme/js/__internal/ui/m_responsive_box.ts:307-312 | the intended guard skips the layout iff the root bounds hold no cell; a grid it lets through has a first cell |
| RootSpec.GuardLetsEmptyRowThrough | packages/devextreme/js/__internal/ui/m_responsive_box.ts:310 | rows `[{}]`, cols `[{ screen: "lg" }]` on screen "xs" give one row and no column; the guard as written lets that grid through although its first cell does not exist |
| RootSpec.RootLayable | packages/devextreme/js/__internal/ui/m_responsive_box.ts:314-318 | the root bounds of a grid let through are non-empty, inside the grid and closed |
| RootSpec.CornerNotSecondary | packages/devextreme/js/__internal/ui/m_responsive_box.ts:364-375 | the top-left cell is never a secondary cell, so the root result is never null |
| RootSpec.RootBox | packages/devextreme/js/__internal/ui/m_responsive_box.ts:320 | `result.box \|\| { direction: 'row', items: [...] }` is always a box; a leaf is wrapped alone in a row box; no leaf is lost or added |
| RootSpec.WithAutoBaseSize | packages/devextreme/js/__internal/ui/m_responsive_box.ts:328-330 | afterwards the child no longer needs an auto base size; the child changes iff it needed one, and then only its baseSize changes, to "auto" |
| RootSpec.AutoBaseSizeIdempotent | packages/devextreme/js/__internal/ui/m_responsive_box.ts:328-330 | applying the root configuration twice is the same as once |
| RootSpec.WithRootConfig | packages/devextreme/js/__internal/ui/m_responsive_box.ts:327-343 | the configured root keeps its direction, children and leaves; no child needs an auto base size any more |
| RootSpec.RootLayout | packages/devextreme/js/__internal/ui/m_responsive_box.ts:306-325 | `_layoutItems`, with the corrected guard (see Findings), gives no root exactly when the grid has no row or no column; otherwise E1025 or a box whose children all have base sizes settled |
| RootSpec.RootFromBlock | packages/devextreme/js/__internal/ui/m_responsive_box.ts:314-321 | the root is the configured, wrapped root block, or the root block's error |
| RootSpec.RootConfigured | packages/devextreme/js/__internal/ui/m_responsive_box.ts:327-343 | children configured one at a time make up the configured root |
| RootSpec.RootLeaves | packages/devextreme/js/__internal/ui/m_responsive_box.ts:306-325 | the leaves of the root are exactly the items the cells of the grid hold, and each item appears once per primary cell holding it (an item placed at two locations gets two leaves, none is shown twice); the root runs in the column direction unless it is a single item |
| ResponsiveBoxLayout.NewEmptyGrid | packages/devextreme/js/__internal/ui/m_responsive_box.ts:108-118 | the nested pushes build `rows` × `cols` empty cells |
| ResponsiveBoxLayout.ResponsiveBox.constructor | packages/devextreme/js/__internal/ui/m_responsive_box.ts:23-37 | the options are stored; the layout state starts empty |
| ResponsiveBoxLayout.ResponsiveBox.PrepareSingleColumnScreenItems | packages/devextreme/js/__internal/ui/m_responsive_box.ts:158-166 | when the comparator is consistent (every item sets a row or none does, and likewise a column), the i-th item of the stable sort gets row i, column 0 and a 1×1 span |
| ResponsiveBoxLayout.ResponsiveBox.PrepareRowsAndCols | packages/devextreme/js/__internal/ui/m_responsive_box.ts:142-151 | single-column mode: re-flowed items, one default row per item whose `shrink` comes from the matching kept row, and one default column; otherwise the rows and columns kept for the screen |
| ResponsiveBoxLayout.ResponsiveBox.PrepareGrid | packages/devextreme/js/__internal/ui/m_responsive_box.ts:104-119 | one empty, well-formed row of cells per row configuration, one cell per column configuration, over the prepared rows and columns (in single-column mode: one row per item with its `shrink`, one default column) |
| ResponsiveBoxLayout.ResponsiveBox.LoopOverSpanning | packages/devextreme/js/__internal/ui/m_responsive_box.ts:268-283 | the location is clipped to the grid; the callback visits each cell of the clipped rectangle except the origin exactly once, in row-major order |
| ResponsiveBoxLayout.ResponsiveBox.IsItemCellOccupied | packages/devextreme/js/__internal/ui/m_responsive_box.ts:256-266 | occupied iff some cell of the clipped rectangle holds an item; the location is clipped exactly when the origin is free |
| ResponsiveBoxLayout.ResponsiveBox.AnyItemAt | packages/devextreme/js/__internal/ui/m_responsive_box.ts:262-264 | the callback's `result` is true iff some visited cell holds an item |
| ResponsiveBoxLayout.ResponsiveBox.MarkSpanningCell | packages/devextreme/js/__internal/ui/m_responsive_box.ts:285-292 | every other cell of the clipped rectangle takes the item and a reference to the origin; all other cells are unchanged |
| ResponsiveBoxLayout.ResponsiveBox.ItemCellAt | packages/devextreme/js/__internal/ui/m_responsive_box.ts:221-226 | `row && row[itemCol]` is a cell exactly when both indices name a grid cell |
| ResponsiveBoxLayout.ResponsiveBox.OccupyCells | packages/devextreme/js/__internal/ui/m_responsive_box.ts:247-254 | the grid becomes `Occupy` of the old grid (unchanged on rejection), stays well formed, and the item's location is kept or clipped |
| ResponsiveBoxLayout.ResponsiveBox.PlaceItem | packages/devextreme/js/__internal/ui/m_responsive_box.ts:250-252 | the grid becomes the grid with the item placed on its free clipped rectangle, and stays well formed |
| ResponsiveBoxLayout.ResponsiveBox.SpreadItems | packages/devextreme/js/__internal/ui/m_responsive_box.ts:219-229 | the grid becomes `Spread` of the old grid over the screen items, in order, and stays well formed; each item's location is kept or clipped |
| ResponsiveBoxLayout.ResponsiveBox.CellByDirection | packages/devextreme/js/__internal/ui/m_responsive_box.ts:454-458 | the cell at `index` on the direction's axis and `crossIndex` on the cross axis |
| ResponsiveBoxLayout.ResponsiveBox.NextBlock | packages/devextreme/js/__internal/ui/m_responsive_box.ts:422-452 | the loop with its growing bound computes exactly the least closed block of `NextBlockSpec` |
| ResponsiveBoxLayout.ResponsiveBox.BlockSize | packages/devextreme/js/__internal/ui/m_responsive_box.ts:460-483 | the accumulator loop computes `BlockSizeSpec`: sums of ratio, baseSize, minSize and maxSize over the block's lines, zero min and max sizes replaced by their defaults, "auto" baseSize in single-column mode, and the last shrink set |
| ResponsiveBoxLayout.ResponsiveBox.IsSingleItem | packages/devextreme/js/__internal/ui/m_responsive_box.ts:364-370 | true iff the first cell's spans reach exactly the bounds' last row and column |
| ResponsiveBoxLayout.ResponsiveBox.ItemByCell | packages/devextreme/js/__internal/ui/m_responsive_box.ts:372-375 | null for a secondary cell, otherwise the cell's item (or the empty object) |
| ResponsiveBoxLayout.ResponsiveBox.LayoutBlock | packages/devextreme/js/__internal/ui/m_responsive_box.ts:356-362 | the result is the partition `BlockLayout` of the bounds |
| ResponsiveBoxLayout.ResponsiveBox.LayoutDirection | packages/devextreme/js/__internal/ui/m_responsive_box.ts:377-408 | the while loop computes `DirectionLayout`; it terminates because the cross start strictly advances |
| ResponsiveBoxLayout.ResponsiveBox.LayoutChild | packages/devextreme/js/__internal/ui/m_responsive_box.ts:389-400 | one pass's child is `ChildLayout`: the block laid out in the cross direction, sized by `_blockSize` unless null |
| ResponsiveBoxLayout.ResponsiveBox.RootBoxConfig | packages/devextreme/js/__internal/ui/m_responsive_box.ts:327-330 | the `each` pass gives an "auto" base size to exactly the children that need one and changes nothing else |
| ResponsiveBoxLayout.ResponsiveBox.LayoutItems | packages/devextreme/js/__internal/ui/m_responsive_box.ts:306-325 | the root is `RootLayout` of the grid, with the corrected guard |
| ResponsiveBoxLayout.ResponsiveBox.RenderItems | packages/devextreme/js/__internal/ui/m_responsive_box.ts:67-76 | after the screen items, grid, spread and layout steps, the grid is well formed and the result is `RootLayout` of the grid |

## Left out

- DOM and rendering: the `$` renderer, the screen-size CSS classes (`_setScreenSize`, `_removeScreenSizeClass`), the creation of the `Box` component, `_linkNodeToItem` and `_itemOptionChanged`. They are calls into UI code whose behaviour is not visible here.
- `_prepareBoxConfig` and the presentation part of `_rootBoxConfig`: `crossAlign`, `onItemStateChanged`, `width`/`height`, `itemTemplate`, `itemHoldTimeout` and the item actions. They are option pass-through; the model keeps only the direction, the children and their sizes.
- Viewport and screen function: `_screenWidth`, `_getCurrentScreen` and the user's `screenByWidth`. The current screen class is a constructor parameter.
- Screen.ScreenRegExpTest: the class is taken literally. A class holding regular-expression metacharacters would change the pattern in the source. The `i` flag is modelled for ASCII letters only.
- Widget lifecycle: `_init`, `_optionChanged`, `_dimensionChanged`, `_update`, `_saveAssistantRoot`, `_cleanUnusedRoots`, `_dispose`, `_clearItemNodeTemplates`, `repaint`.
- Other repository files: mask.ts, module_columns_controller.ts and component-wrapper.js are not part of this model.
- Numbers: sizes and ratios are `real`, with no floating-point rounding. Raw size options are numbers; the string "auto" as an input size is not modelled.
- ResponsiveBoxLayout.ResponsiveBox.RenderItems: requires every explicit span of a location kept for the current screen to be at least 1. The source's loops and clipping take other spans without checking them.
- ResponsiveBoxLayout.ResponsiveBox.RenderItems: in single-column mode, requires the kept locations to set a row all or none, and a column all or none (the same requirement is on `PrepareSingleColumnScreenItems`, `PrepareRowsAndCols` and `PrepareGrid`). Locations without coordinates, as for items without a `location`, are covered and keep their order. Mixed inputs, where some locations set a coordinate that others leave out, can make the comparator inconsistent (`MixedComparatorCycle`), and the sort order is then implementation-defined; they are not modelled, including the mixed inputs whose comparator happens to be consistent.
- ResponsiveBoxLayout.ResponsiveBox.RenderItems: states the well-formed grid and the root. The grid's contents are stated by `PrepareGrid` and `SpreadItems`, which it calls.
- Item size fields: an item object's own `ratio`, `baseSize`, `minSize`, `maxSize` or `shrink` are not modelled. Inside the tree, `extend(item, _blockSize(...))` overwrites them. A single-item root is modelled with `ratio: 1` and the other fields unset (`RootLeafSize`).
- Shared item objects: the source writes sizes and the "auto" base size onto the item objects themselves. An item that appears at two locations therefore ends up with the size of the later block on both leaves. The model gives each leaf its own size.
- The `_loopOverSpanning` callback: it is modelled as the list of visited cells. The callers then run their callback body over that list.
- Order of allocation in `_prepareGrid`: the source pushes each row onto the grid before filling it. The model builds the same cells, and no code reads the grid in between.
- Identity of the spanning cell: `spanningCell` is the origin cell object in the source and the origin's coordinates here. A secondary cell only needs it to be truthy, and the coordinates identify the same cell.
- The TypeError the guard as written leads to (see Findings) is not modelled as an outcome. The model uses the corrected guard.

## Findings

| source | as written | input that shows it | evidently intended | confidence | as-written member | corrected member |
|---|---|---|---|---|---|---|
| packages/devextreme/js/__internal/ui/m_responsive_box.ts:310 | `if (!rowsCount && !colsCount) return;` skips the layout only when the grid has no row | options rows `[{}]`, cols `[{ screen: "lg" }]`, screen "xs", no single-column screen: one row survives the filter and no column does, so the grid is `[[]]`; the guard lets it through and `_isSingleItem` reads `_grid[0][0].location` of an undefined cell (TypeError) | `if (!rowsCount \|\| !colsCount) return;`, which skips any grid without cells | high (not executed) | RootSpec.SkipsLayoutAsWritten, RootSpec.GuardLetsEmptyRowThrough | RootSpec.SkipsLayout |
