# BoxPacker: a verified model of the skyline packer behind BoxGrid

`BoxPacker` (`src/BoxGrid/Packer.js`) lays out the items of a masonry grid.
It keeps one field, `columns`: for every grid column, the ordered list of its
free vertical slots `{startX, startY, endY}`, the last one open at the bottom
(`endY` null).

Coordinates are screen coordinates: `y` grows downward. "Above" and
"higher" mean a smaller `y`; "below" and "lower" mean a greater one. The
"shortest" column is the one whose open slot starts highest.

Placing an item that spans `colSpan` columns works as follows:

- `position` moves a threshold down through the distinct slot starts, the
  highest first.
- At each level it tries every slot starting there, in scan order
  (`findNextShortest`), and asks whether the `colSpan` columns from that slot's
  column on each have a slot with room for the item at that height
  (`findAvailableSlots`, `columnHasSlotAt`).
- When no start is left below the threshold, a fallback puts the item in
  column 0 at the tallest last slot of columns 1 .. colSpan-1.
- The used slots are then split around the item (`splitAllSlots`), and the
  item's top-left corner is returned.

The model is four modules:

- `Slots` (slots.dfy): one slot and one column. It defines what a well-formed
  column is:
  - every slot is at the column's left edge;
  - starts are non-negative;
  - every slot but the last is bounded and ends above the next one's start;
  - the last slot is open.

  It also defines the pieces that replace a split slot, and proves that a
  split keeps the column well formed and moves its open slot down past the
  item.
- `Search` (search.dfy): the read-only scans as functions of the columns.
  - `FirstFit` is `columnHasSlotAt`.
  - `Available` is the answer of `findAvailableSlots`.
  - `TallestLastStart` is the fallback's tallest item.
  - The predicate `Chosen` describes the placement the search settles on:
    the span fits there, nothing starting above it fits, and either no column
    to its left at the same level fits or it is the fallback.
  - The module also proves that the placement is unique.
- `Splitting` (splitting.dfy): `SplitAll` is the effect of `splitAllSlots`.
  The module proves that splitting keeps every column well formed, never
  moves an open slot up, only carves up free space, and leaves the placed
  item uncovered by every free slot of its columns. From these it proves
  that placed items never overlap: `Box` records an item's top, first
  column, span and height, `SlotsAvoid` says no free slot overlaps a placed
  item, and `ItemsApart` says no item overlaps one placed before it.
- `Packer` (packer.dfy): class `BoxPacker` with the fields `colConfig` and
  `columns: seq<seq<Slot>>`.
  - Each operation is a method with the source's loops, proved against the
    functions of `Search` and `Splitting`.
  - A ghost field `placed` records the items placed since `init`.
  - `Valid()` is kept by every method that changes state. It says there is
    one well-formed column per configured column, no free slot overlaps a
    placed item, and no placed item overlaps one placed before it.
  - `position` is `Position`. Its labelled `while (true)` loop is
    `SlotSearch`, whose rounds are `SearchLevel` (a level was found) and
    `SearchFallback` (none was). The candidate loop they share is
    `TryCandidates`, and the fallback's tallest-item loop is
    `TallestLastItem`.

How the search loop is shown to terminate:

- The measure is the set of distinct slot starts below the threshold.
- Each failed level removes at least its own start from that set.
- The invariant `SearchInvariant` says that column 0's open slot either
  still starts below the threshold or starts at or above the fallback's top.
  So once no start is left, the fallback's single candidate always fits, and
  the source's fallback can never fail and move the threshold back up.
- In reachable states the fallback's offset below column 0's open slot is
  never negative, even though the scan for the tallest item skips column 0.

`position` reads the first used slot before `splitAllSlots` splices it away.
`Position` keeps that order: it captures the slot, splits, and then builds
`{top, left}` from the captured slot.

## Model

| member | source | states |
|---|---|---|
| Packer.BoxPacker.constructor | src/BoxGrid/Packer.js:15-17 | A packer that has not been initialised has no columns, has placed nothing, and is valid. |
| Packer.BoxPacker.Init | src/BoxGrid/Packer.js:19-31 | Discards the previous state, placed items included. Leaves exactly `colCount` columns; column `i` is the single open slot starting at 0 at `itemWidth * i`. Keeps `Valid()`. |
| Packer.BoxPacker.SplitAllSlots | src/BoxGrid/Packer.js:36-69 | Splitting every used slot in turn leaves exactly `SplitAll(old columns, used, height)`. The configuration and the placed items are unchanged; every column stays well formed and no free slot comes to overlap a placed item. |
| Packer.BoxPacker.SlotsToInsert | src/BoxGrid/Packer.js:44-64 | The slots built to replace one used slot are `Replacement(slot, offset, height)`. |
| Packer.BoxPacker.FindNextShortest | src/BoxGrid/Packer.js:71-91 | Returns exactly the slots whose start is the least start greater than the threshold, each once and in column-then-slot order. Returns nothing iff no slot starts below the threshold. |
| Packer.BoxPacker.ColumnHasSlotAt | src/BoxGrid/Packer.js:93-102 | The answer is `FirstFit`: the first slot with room, or None when no slot has room. |
| Packer.BoxPacker.FindAvailableSlots | src/BoxGrid/Packer.js:104-122 | Empty when the span runs past the last column, even when the slot index names no slot; otherwise `Available` over the span. The answer has at least `colSpan` entries (and at least one) iff every column of the span has room. |
| Packer.BoxPacker.TallestLastItem | src/BoxGrid/Packer.js:138-145 | Fails exactly when `colSpan > 1` and the scan reaches a missing column (the source's TypeError). Otherwise returns `TallestLastStart`. |
| Packer.BoxPacker.TryCandidates | src/BoxGrid/Packer.js:156-162 | Returns the first candidate in order whose span fits at the candidate's start plus the offset, with that span's `Available` slots. Every earlier candidate does not fit. When none is found, no candidate fits. |
| Packer.BoxPacker.SearchLevel | src/BoxGrid/Packer.js:156-166 | Either the placement found is `Chosen` and its used slots are `Available` there, or the level becomes the new threshold: the search invariant holds there and fewer distinct starts are left below it. |
| Packer.BoxPacker.SearchFallback | src/BoxGrid/Packer.js:137-162 | Fails exactly when the span is wider than the grid. Otherwise the item goes to column 0 at the tallest last start, which is the `Chosen` placement, at or below the start of column 0's open slot. |
| Packer.BoxPacker.SlotSearch | src/BoxGrid/Packer.js:126-167 | The loop ends (decreasing set of starts), fails exactly when `colSpan` exceeds the column count, and otherwise yields the `Chosen` placement with the `Available` slots of its span. |
| Packer.BoxPacker.Position | src/BoxGrid/Packer.js:124-180 | On success the placement is `Chosen` for the old columns, and `left == itemWidth * col` with `col + colSpan <= colCount`. Exactly `colSpan` slots are used, and the new columns are their split. Columns only grow: no open slot moves up, and in each of the item's columns the open slot starts below the item's bottom edge. The item is appended to `placed`, and `Valid()` is kept, so it overlaps no earlier item and no free slot overlaps it. On failure (span wider than the grid) nothing changes. |
| Packer.SearchInvariantAtStart | src/BoxGrid/Packer.js:126 | The initial threshold -1 is above every slot start, so the search invariant holds before the first round. |
| Packer.FallbackFits | src/BoxGrid/Packer.js:137-154 | Once no start is left below the threshold, column 0's open slot starts at or above the fallback's top, and the span from column 0 fits at that top. |
| Packer.ScanStep | src/BoxGrid/Packer.js:77-87 | One inner-loop step of `findNextShortest` keeps the scan invariant: the least start seen below the threshold, and every scanned slot with that start, in order. |
| Packer.ScanSkip | src/BoxGrid/Packer.js:78-81 | A slot at or above the threshold, or below the least start so far, leaves the scan state valid one slot further on. |
| Packer.ScanRestart | src/BoxGrid/Packer.js:82-86 | A slot below the threshold and strictly above the least start so far makes the least start and the collection restart with just that slot. |
| Packer.ScanJoin | src/BoxGrid/Packer.js:78-86 | A slot at the least start so far is appended to the collection. |
| Packer.ScanNextColumn | src/BoxGrid/Packer.js:75-89 | Finishing a column is the same scan state as starting the next. |
| Packer.ScanDone | src/BoxGrid/Packer.js:71-91 | The scan invariant after the last column is `IsNextShortest`. |
| Packer.FallbackIsChosen | src/BoxGrid/Packer.js:137-154 | When every start is at or above a threshold up to which nothing fits, the fallback's column 0 at the tallest last start is `Chosen`. |
| Packer.LevelIsChosen | src/BoxGrid/Packer.js:156-162 | The first candidate of the next level whose span fits, in scan order, is `Chosen`. |
| Packer.LevelExhausted | src/BoxGrid/Packer.js:164-166 | When no candidate of a level fits, that level is a valid new threshold: nothing up to it fits, the fallback guarantee still holds, and the set of starts below it shrinks. |
| Packer.ShortestOpenColumnChosen | src/BoxGrid/Packer.js:124-167 | While every column is one open slot, a one-column item goes to the leftmost shortest column, at its start. |
| Packer.OpenColumnSplit | src/BoxGrid/Packer.js:44-67 | Placing an item at the start of a lone open slot leaves one open slot starting one unit below the item. |
| Packer.PlaceInShortestColumn | src/BoxGrid/Packer.js:124-180 | On all-open columns, `position` returns the leftmost shortest column's start and left edge, and moves that column's slot below the item. |
| Packer.FirstItemAtOrigin | src/BoxGrid/Packer.js:19-31 | On a freshly initialised packer with `colSpan <= colCount`, the first item lands at `{top: 0, left: 0}`. |
| Packer.OffsetSpanChosen | src/BoxGrid/Packer.js:124-167 | For columns whose open slots start at 80 and 50, a two-column item 40 high is `Chosen` at top 80 in column 0: at 50 column 1 has no neighbour to its right. |
| Packer.OffsetSpanSplit | src/BoxGrid/Packer.js:36-69 | Placing that item uses column 1's slot at offset 30. The split leaves `[Slot(0,121,open)]` and `[Slot(100,50,80), Slot(100,121,open)]`. |
| Packer.OffsetSpanScenario | src/BoxGrid/Packer.js:124-180 | Two columns 100 wide, items 79 and 49 high at `{0,0}` and `{0,100}`, then a two-column item 40 high at `{80,0}`. Column 1 keeps a bounded slot from 50 to 80, and a one-column item 30 high then goes to `{50,100}`, ending where the wide item starts. |
| Packer.TouchingAboveChosen | src/BoxGrid/Packer.js:124-167 | In the columns left by the wide item, a one-column item 30 high is `Chosen` at top 50 in column 1: the bounded slot from 50 to 80 holds it, so it ends at 80, the wide item's top edge, with no unit between them. |
| Packer.ThreeColumnScenario | src/BoxGrid/Packer.js:124-180 | Three columns 100 wide, four one-column items 50 high: `{0,0}`, `{0,100}`, `{0,200}`, then `{51,0}`. |
| Slots.Replacement | src/BoxGrid/Packer.js:44-64 | At most two pieces, all at the slot's `startX`. Splitting an open slot leaves an open last piece starting at `startY + offset + height + 1`. |
| Slots.ReplacementInside | src/BoxGrid/Packer.js:44-64 | When the slot holds the item, each piece is a non-empty region inside the slot. Each ends at or above the item's top or starts one unit below its bottom, and two pieces are ordered and separated. |
| Slots.ColumnSorted | src/BoxGrid/Packer.js:44-67 | A well-formed column is sorted by strictly increasing start, and its only open slot is the last. |
| Slots.StartsIncrease | src/BoxGrid/Packer.js:44-67 | In a chained column every slot ends above the start of every later slot. |
| Slots.SplitColumnInPlace | src/BoxGrid/Packer.js:67 | The splice is in place: slots before the index keep their places, the pieces take the slot's place, and later slots follow, shifted by one less than the number of pieces. |
| Slots.SpliceKeepsChain | src/BoxGrid/Packer.js:67 | Splicing an ordered run of pieces that lie inside a slot into its place keeps the column chained. |
| Slots.SplitKeepsColumnWellFormed | src/BoxGrid/Packer.js:36-69 | Splitting a slot that holds the item keeps its column well formed: sorted, at its left edge, with its last slot open. |
| Slots.SplitPushesOpenSlotDown | src/BoxGrid/Packer.js:44-67 | Splitting a slot that holds the item never moves the column's open slot up, and leaves it starting below the item's bottom edge. |
| Slots.SplitUncoversItem | src/BoxGrid/Packer.js:44-67 | After the split no free slot of the column overlaps the placed item. |
| Slots.SplitColumnInside | src/BoxGrid/Packer.js:44-67 | A split only carves up free space: every slot of the split column lies within some slot of the column before it. |
| Search.FirstFit | src/BoxGrid/Packer.js:93-102 | The index found has room, and no earlier slot has room. None means no slot of the column has room. |
| Search.OpenColumnHasRoom | src/BoxGrid/Packer.js:96-97 | A column whose open slot starts at or above `y` has room at `y` for any height. |
| Search.Available | src/BoxGrid/Packer.js:114-120 | The answer is never longer than the span. |
| Search.AvailableEntry | src/BoxGrid/Packer.js:114-120 | When every column of the span has room, entry `t` is column `lo + t`, names an existing slot there, and carries the offset of `y` below that slot's start. |
| Search.AvailableEntries | src/BoxGrid/Packer.js:114-120 | Every entry names the first slot with room of a column of the span, at the item's offset below its start. |
| Search.AvailableOrdered | src/BoxGrid/Packer.js:114-120 | The entries are for columns of the span, in strictly increasing column order. |
| Search.AvailableCovers | src/BoxGrid/Packer.js:114-120 | Every column of the span with room has an entry. |
| Search.AvailableLength | src/BoxGrid/Packer.js:114-120 | The answer is as long as the span iff every column of the span has room; then entry `t` is column `lo + t`. |
| Search.AvailableSpec | src/BoxGrid/Packer.js:114-120 | Exactly one entry per column of the span with room, and no other: the entries' columns are inside the span and strictly increasing, each names that column's first slot with room at offset `y - startY >= 0`, and every column with room has an entry. The answer is as long as the span iff every column has room, and then entry `t` is column `lo + t`. |
| Search.AvailableFits | src/BoxGrid/Packer.js:114-120 | The source's test `length > 0 && length >= colSpan` holds iff the span fits. |
| Search.TallestLastStart | src/BoxGrid/Packer.js:138-145 | Non-negative; at least the last start of each of columns `1 .. hi-1`; either 0 or one of those starts. Column 0 is not scanned. |
| Search.WindowFitsBelowOpenSlots | src/BoxGrid/Packer.js:137-154 | At any `y` at or below both the start of column 0's open slot and the tallest last start, the span from column 0 fits. |
| Search.StartsBelowShrinks | src/BoxGrid/Packer.js:164-166 | Moving the threshold down to a slot start below it strictly shrinks the set of starts below the threshold. |
| Search.ChosenIsUnique | src/BoxGrid/Packer.js:124-167 | At most one placement is `Chosen`: the search is deterministic. |
| Search.FirstPlacementIsTopLeft | src/BoxGrid/Packer.js:124-167 | On freshly initialised columns the `Chosen` placement is top 0 in column 0. |
| Splitting.UsedRefsAfterFirst | src/BoxGrid/Packer.js:37-67 | After the first used slot is split, the remaining used slots still name existing slots of the new columns, in increasing columns. |
| Splitting.SplitAll | src/BoxGrid/Packer.js:36-69 | Splitting keeps the number of columns. |
| Splitting.SplitAllColumns | src/BoxGrid/Packer.js:36-69 | Each used slot is replaced at its own index in its own column. Every column not used is unchanged, so no splice shifts another used slot. |
| Splitting.SplitAllKeepsWellFormed | src/BoxGrid/Packer.js:36-69 | Splitting slots that hold the item keeps every column well formed. |
| Splitting.SplitAllPushesOpenSlotsDown | src/BoxGrid/Packer.js:36-69 | Splitting slots that hold the item moves no column's open slot up. Every column with a used slot ends with its open slot below the item placed there. |
| Splitting.SpanSplitPushesOpenSlotsDown | src/BoxGrid/Packer.js:36-69 | When the used slots cover the span's columns in order, all at one top, the open slots of those columns start below the item's bottom edge and no other moves up. |
| Splitting.PlacementPushesOpenSlotsDown | src/BoxGrid/Packer.js:169-179 | When the span fits, splitting its `Available` slots moves no open slot up, and the span's open slots start below the item's bottom edge. |
| Splitting.FoundPlacement | src/BoxGrid/Packer.js:169-179 | When the span fits, `findAvailableSlots` gives `colSpan` used slots that all hold the item. The first is in the placement's column, and its start plus offset is the top and its `startX` the left. |
| Splitting.AvailableSlotsFit | src/BoxGrid/Packer.js:114-120 | The answer of `findAvailableSlots` names existing slots in strictly increasing columns, each holding the item at its offset. |
| Splitting.SplitColumnClear | src/BoxGrid/Packer.js:44-67 | Splitting the slot an item is put in leaves no slot of that column overlapping the item. |
| Splitting.SpanColumnUncovered | src/BoxGrid/Packer.js:169-179 | After the placement no free slot of one of the item's columns overlaps the item. |
| Splitting.PlacementLeavesItemUncovered | src/BoxGrid/Packer.js:169-179 | After the placement no free slot of the item's columns overlaps the item. |
| Splitting.SplitAllColumnInside | src/BoxGrid/Packer.js:36-69 | Splitting the used slots only carves up free space: every slot of a column afterwards lies within some slot of that column before. |
| Splitting.SplitAllKeepsSlotsAvoid | src/BoxGrid/Packer.js:36-69 | Splitting keeps every earlier item clear of the free slots. |
| Splitting.FitKeepsItemsApart | src/BoxGrid/Packer.js:156-179 | An item put where its span fits overlaps no item placed before it: in every shared column it ends at or above the earlier item's top or starts below its bottom. |
| Splitting.PlacementKeepsItemsApart | src/BoxGrid/Packer.js:169-179 | Placing an item where its span fits and splitting its `Available` slots keeps both invariants: no free slot overlaps a placed item, the new one included, and no item overlaps one placed before it. |

## Left out

- `width` of `position` has no effect in the source and is accepted and ignored.
- Coordinates and heights are integers. The source uses JavaScript numbers, so fractional pixel values are not modelled.
- Packer.BoxPacker.Position: requires `colSpan >= 1`. With `colSpan` 0 the source's test `usedSlots.length > 0` never passes, so its loop never ends.
- Packer.BoxPacker.Position: requires `height >= 0`. With a negative height, splits can produce overlapping or reversed slots, and the model's column invariant does not hold.
- Packer.BoxPacker.SlotSearch: a span wider than the grid makes the source throw a TypeError in the fallback. With no columns and `colSpan` 1 it comes from line 149, which reads the length of the missing column 0; otherwise from line 141, when the scan of lines 139-145 reaches a missing column. The model returns `Err(MissingColumn)` at that point, with nothing changed.
- Packer.BoxPacker.ColumnHasSlotAt: the model's column-range requirement stands for the source's TypeError on a missing column (line 94); `position` never passes one.
- Packer.BoxPacker.FindAvailableSlots: the model requires an existing column, standing for the source's TypeError at line 106. It also requires an existing slot unless the span is too wide. A missing slot with a span that fits makes the source throw at line 115. With a too-wide span the source returns `[]` without error (lines 106-112), and the model does the same. `position` passes neither case.
- Packer.BoxPacker.Position: non-overlap is proved with the item's extent closed below and open above. A later item may end exactly at an earlier item's top edge (`TouchingAboveChosen`, and the fourth item of `OffsetSpanScenario`), because the leftover slot above an item ends at the item's top (line 53). The one-unit gap of line 44 (`+ 1`) separates only an item from the space below it. So `Follows` allows `b.top + b.height <= a.top` above an earlier item, but requires `a.top + a.height < b.top` below it.
- Packer.BoxPacker.SplitAllSlots: requires that the used slots name existing slots in increasing columns and hold the item. Those are the only arguments `position` passes; the source on other arguments is not modelled.
- Splitting.SplitAll passes over a used slot that names no slot. The source would throw, but that case is unreachable from `position`.
- `init`'s `this.columns[i] || []` always takes `[]`, because the columns were just reset; the model starts each column empty.
- Calling `position` before `init`: the source throws on undefined columns. The model's constructor starts with no columns, so `Position` returns `Err(MissingColumn)`.
- The labelled `break slotSearch` is modelled as a return from `SlotSearch` and its two round methods, with the same order of tries.
- The React demo containers (random sizes, timers, window events) and the documentation card are not part of this model.
- Flow type annotations and eslint directives carry no behaviour.
