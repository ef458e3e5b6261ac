/** The incremental skyline packer behind the masonry grid: a fixed number of
    equal-width columns, each a list of free slots, into which items are put
    one at a time. */
module Packer {
  import opened Slots
  import opened Search
  import opened Splitting

  /** The column configuration: how many columns, and how wide each is. */
  datatype ColConfig = ColConfig(colCount: nat, itemWidth: int)

  /** The top-left corner assigned to an item. */
  datatype Placement = Placement(top: int, left: int)

  /** The one way position fails: the fallback reads a column that does not
      exist, which happens exactly when the item spans more columns than
      there are. */
  datatype PackError = MissingColumn

  datatype Result<T> = Ok(value: T) | Err(error: PackError)

  class BoxPacker {
    var colConfig: ColConfig
    var columns: Columns
    /** The items placed since the last `Init`, in order. */
    ghost var placed: seq<Box>

    /** The packer's invariant: one well-formed column per configured column,
        no free slot overlapping a placed item, and no placed item
        overlapping one placed before it. */
    ghost predicate Valid()
      reads this
    {
      && |columns| == colConfig.colCount && ColumnsWellFormed(columns, colConfig.itemWidth)
      && SlotsAvoid(columns, placed) && ItemsApart(placed)
    }

    /** A packer that has not been initialised has no columns. */
    constructor ()
      ensures Valid() && columns == [] && placed == []
    {
      colConfig := ColConfig(0, 0);
      columns := [];
      placed := [];
    }

    /** Discards any previous state and gives every column one open slot
        starting at 0, at the column's left edge. */
    method Init(config: ColConfig)
      modifies this
      ensures Valid() && colConfig == config && placed == []
      ensures |columns| == config.colCount
      ensures forall i :: 0 <= i < |columns| ==> columns[i] == [Slot(config.itemWidth * i, 0, None)]
    {
      colConfig := config;
      columns := [];
      placed := [];
      var i := 0;
      while i < colConfig.colCount
        invariant 0 <= i <= colConfig.colCount && colConfig == config && placed == []
        invariant |columns| == i
        invariant forall c :: 0 <= c < i ==> columns[c] == [Slot(config.itemWidth * c, 0, None)]
      {
        columns := columns + [[Slot(colConfig.itemWidth * i, 0, None)]];
        i := i + 1;
      }
      forall c | 0 <= c < |columns| ensures WellFormedColumn(columns[c], config.itemWidth * c) {
        assert columns[c] == [Slot(config.itemWidth * c, 0, None)];
      }
    }

    /** The slots that replace `thisSlot` once an item of
        `insertedItemHeight` is put `slotItemOffset` below its start. */
    static method SlotsToInsert(thisSlot: Slot, slotItemOffset: int, insertedItemHeight: int)
      returns (itemsToInsert: seq<Slot>)
      ensures itemsToInsert == Replacement(thisSlot, slotItemOffset, insertedItemHeight)
    {
      var currSlotEndY := thisSlot.endY;
      var newSlotEndY := thisSlot.startY + insertedItemHeight + slotItemOffset + 1;
      itemsToInsert := [];
      // a leftover slot above the item when it sits below the slot's start
      if slotItemOffset > 0 {
        itemsToInsert := itemsToInsert + [Slot(thisSlot.startX, thisSlot.startY, Some(thisSlot.startY + slotItemOffset))];
      }
      // a leftover slot below the item when there is still room
      if currSlotEndY.None? || currSlotEndY.value > newSlotEndY {
        itemsToInsert := itemsToInsert + [Slot(thisSlot.startX, newSlotEndY, currSlotEndY)];
      }
    }

    /** Splits every used slot, in order, after an item of
        `insertedItemHeight` has been put into them. */
    method SplitAllSlots(usedSlots: seq<UsedSlot>, insertedItemHeight: int)
      requires Valid()
      requires UsedSlotsFit(columns, usedSlots, insertedItemHeight) && insertedItemHeight >= 0
      modifies this
      ensures Valid() && colConfig == old(colConfig) && placed == old(placed)
      ensures columns == SplitAll(old(columns), usedSlots, insertedItemHeight)
    {
      ghost var cols0 := columns;
      assert usedSlots[0..] == usedSlots;
      var i := 0;
      while i < |usedSlots|
        invariant 0 <= i <= |usedSlots|
        invariant colConfig == old(colConfig) && placed == old(placed)
        invariant UsedRefsOk(columns, usedSlots[i..])
        invariant SplitAll(columns, usedSlots[i..], insertedItemHeight) == SplitAll(cols0, usedSlots, insertedItemHeight)
      {
        var u := usedSlots[i];
        assert usedSlots[i..][0] == u && usedSlots[i..][1..] == usedSlots[i + 1..];
        UsedRefsAfterFirst(columns, usedSlots[i..], insertedItemHeight);
        var itemsToInsert := SlotsToInsert(columns[u.col][u.idx], u.offset, insertedItemHeight);
        columns := columns[u.col := columns[u.col][..u.idx] + itemsToInsert + columns[u.col][u.idx + 1..]];
        i := i + 1;
      }
      assert usedSlots[|usedSlots|..] == [];
      SplitAllKeepsWellFormed(cols0, colConfig.itemWidth, usedSlots, insertedItemHeight);
      SplitAllKeepsSlotsAvoid(cols0, usedSlots, insertedItemHeight, placed);
    }

    /** Every slot whose start is the least start greater than
        `searchFromHeight`, in scan order. */
    method FindNextShortest(searchFromHeight: int) returns (lowestItems: seq<SlotRef>)
      ensures IsNextShortest(columns, searchFromHeight, lowestItems)
    {
      var cols := columns;
      var currLowestItem: Option<Slot> := None;
      lowestItems := [];
      var i := 0;
      while i < |cols|
        invariant 0 <= i <= |cols|
        invariant ScanSoFar(cols, searchFromHeight, i, 0, currLowestItem, lowestItems)
      {
        var j := 0;
        while j < |cols[i]|
          invariant 0 <= j <= |cols[i]|
          invariant ScanSoFar(cols, searchFromHeight, i, j, currLowestItem, lowestItems)
        {
          var currItem := cols[i][j];
          ghost var lowest0, items0 := currLowestItem, lowestItems;
          if currItem.startY > searchFromHeight &&
             (|lowestItems| == 0 || (currLowestItem.Some? && currItem.startY <= currLowestItem.value.startY))
          {
            if currLowestItem.None? || currItem.startY < currLowestItem.value.startY {
              currLowestItem := Some(currItem);
              lowestItems := [];
            }
            lowestItems := lowestItems + [SlotRef(i, j)];
          }
          ScanStep(cols, searchFromHeight, i, j, lowest0, items0, currLowestItem, lowestItems);
          j := j + 1;
        }
        ScanNextColumn(cols, searchFromHeight, i, currLowestItem, lowestItems);
        i := i + 1;
      }
      ScanDone(cols, searchFromHeight, currLowestItem, lowestItems);
    }

    /** The index of the first slot of column `colIdx` with room for an item
        of `requiredHeight` at `startFrom`, or None. */
    method ColumnHasSlotAt(colIdx: nat, startFrom: int, requiredHeight: int) returns (r: Option<nat>)
      requires colIdx < |columns|
      ensures r == FirstFit(columns[colIdx], startFrom, requiredHeight)
    {
      var i := 0;
      while i < |columns[colIdx]|
        invariant 0 <= i <= |columns[colIdx]|
        invariant forall k :: 0 <= k < i ==> !Holds(columns[colIdx][k], startFrom, requiredHeight)
      {
        var item := columns[colIdx][i];
        if item.startY <= startFrom && (item.endY.None? || item.endY.value >= startFrom + requiredHeight) {
          return Some(i);
        }
        i := i + 1;
      }
      return None;
    }

    /** The slots that would take an item of `itemHeight` whose top edge is
        `itemSlotOffset` below the start of slot `[columnIdx, itemIdx]`,
        one per column of the span that has room; nothing when the span runs
        past the last column. */
    method FindAvailableSlots(columnIdx: nat, itemIdx: nat, colSpan: nat, itemHeight: int, itemSlotOffset: int)
      returns (availableSlots: seq<UsedSlot>)
      requires columnIdx < |columns|
      requires columnIdx + colSpan > |columns| || itemIdx < |columns[columnIdx]|
      ensures columnIdx + colSpan > |columns| ==> availableSlots == []
      ensures columnIdx + colSpan <= |columns| ==>
        var y := columns[columnIdx][itemIdx].startY + itemSlotOffset;
        availableSlots == Available(columns, columnIdx, columnIdx + colSpan, y, itemHeight)
      ensures colSpan >= 1 && itemIdx < |columns[columnIdx]| ==>
        var y := columns[columnIdx][itemIdx].startY + itemSlotOffset;
        (|availableSlots| > 0 && |availableSlots| >= colSpan <==> Fits(columns, columnIdx, y, colSpan, itemHeight))
    {
      availableSlots := [];
      if columnIdx + colSpan > |columns| {
        return;
      }
      // read after the width test: the source reads it before, but a missing
      // slot there is only an unused undefined value
      var item := columns[columnIdx][itemIdx];
      var y := item.startY + itemSlotOffset;
      var i := columnIdx;
      while i < columnIdx + colSpan
        invariant columnIdx <= i <= columnIdx + colSpan
        invariant availableSlots == Available(columns, columnIdx, i, y, itemHeight)
      {
        var itemSlotIdx := ColumnHasSlotAt(i, item.startY + itemSlotOffset, itemHeight);
        if itemSlotIdx.Some? {
          var nextItem := columns[i][itemSlotIdx.value];
          availableSlots := availableSlots + [UsedSlot(i, itemSlotIdx.value, (item.startY + itemSlotOffset) - nextItem.startY)];
        }
        i := i + 1;
      }
      if colSpan >= 1 {
        AvailableFits(columns, columnIdx, y, colSpan, itemHeight);
      }
    }

    /** The fallback's tallest item: the greatest start of the last slot of
        columns 1 .. colSpan-1, or 0. Reading a column past the last one
        fails. */
    method TallestLastItem(colSpan: nat) returns (r: Result<int>)
      requires Valid() && colSpan >= 1
      ensures r.Err? <==> colSpan > 1 && colSpan > |columns|
      ensures r.Ok? ==> r.value == TallestLastStart(columns, colSpan)
    {
      var tallestItem := 0;
      var i := 1;
      while i < colSpan
        invariant 1 <= i <= colSpan
        invariant i == 1 || i <= |columns|
        invariant tallestItem == TallestLastStart(columns, i)
      {
        if i >= |columns| {
          return Err(MissingColumn);
        }
        var column := columns[i];
        assert ColumnOk(columns, colConfig.itemWidth, i);
        var lastItem := column[|column| - 1];
        if lastItem.startY > tallestItem {
          tallestItem := lastItem.startY;
        }
        i := i + 1;
      }
      return Ok(tallestItem);
    }

    /** The loop over the candidates of one level in position: the first
        candidate, in order, whose span of columns has room for the item at
        `itemSlotOffset` below the candidate's start, with its used slots. */
    method TryCandidates(lowestItems: seq<SlotRef>, colSpan: nat, height: int, itemSlotOffset: int)
      returns (usedSlots: seq<UsedSlot>, found: bool, ghost k: nat)
      requires colSpan >= 1
      requires forall t :: 0 <= t < |lowestItems| ==> IsRef(columns, lowestItems[t])
      ensures found ==> k < |lowestItems|
      ensures found ==>
        var y := StartOf(columns, lowestItems[k]) + itemSlotOffset;
        && Fits(columns, lowestItems[k].col, y, colSpan, height)
        && usedSlots == Available(columns, lowestItems[k].col, lowestItems[k].col + colSpan, y, height)
      ensures forall t :: 0 <= t < (if found then k else |lowestItems|) ==>
        !Fits(columns, lowestItems[t].col, StartOf(columns, lowestItems[t]) + itemSlotOffset, colSpan, height)
    {
      usedSlots, found, k := [], false, 0;
      var i := 0;
      while i < |lowestItems|
        invariant 0 <= i <= |lowestItems|
        invariant forall t :: 0 <= t < i ==>
          !Fits(columns, lowestItems[t].col, StartOf(columns, lowestItems[t]) + itemSlotOffset, colSpan, height)
      {
        var cand := lowestItems[i];
        usedSlots := FindAvailableSlots(cand.col, cand.idx, colSpan, height, itemSlotOffset);
        if |usedSlots| > 0 && |usedSlots| >= colSpan {
          return usedSlots, true, i;
        }
        i := i + 1;
      }
    }

    /** One round of the `slotSearch` loop of position when the scan found a
        level: tries the slots starting there in scan order (with no
        offset). Either one fits, and its placement is the one Chosen
        describes, or none does, and the level becomes the new threshold
        with the search's invariant kept and fewer starts left below it. */
    method SearchLevel(searchFromHeight: int, lowestItems: seq<SlotRef>, colSpan: nat, height: int)
      returns (usedSlots: seq<UsedSlot>, found: bool, ghost top: int, ghost col: nat)
      requires Valid()
      requires height >= 0 && colSpan >= 1
      requires IsNextShortest(columns, searchFromHeight, lowestItems) && |lowestItems| > 0
      requires SearchInvariant(columns, searchFromHeight, colSpan, height)
      ensures found ==>
        && col + colSpan <= |columns|
        && Chosen(columns, colSpan, height, top, col)
        && usedSlots == Available(columns, col, col + colSpan, top, height)
      ensures !found ==>
        var next := StartOf(columns, lowestItems[0]);
        && SearchInvariant(columns, next, colSpan, height)
        && StartsBelow(columns, next) < StartsBelow(columns, searchFromHeight)
    {
      ghost var k;
      usedSlots, found, k := TryCandidates(lowestItems, colSpan, height, 0);
      if found {
        col := lowestItems[k].col;
        top := StartOf(columns, lowestItems[k]);
        LevelIsChosen(columns, colSpan, height, searchFromHeight, lowestItems, k);
      } else {
        top, col := 0, 0;
        LevelExhausted(columns, colConfig.itemWidth, colSpan, height, searchFromHeight, lowestItems);
      }
    }

    /** The round of the `slotSearch` loop of position when no slot start is
        left below the threshold: the item goes to column 0, at the tallest
        last slot of columns 1 .. colSpan-1, where its span always has room.
        Fails exactly when the span reaches past the last column. */
    method SearchFallback(searchFromHeight: int, colSpan: nat, height: int)
      returns (r: Result<seq<UsedSlot>>, ghost top: int)
      requires Valid()
      requires height >= 0 && colSpan >= 1
      requires IsNextShortest(columns, searchFromHeight, [])
      requires SearchInvariant(columns, searchFromHeight, colSpan, height)
      ensures r.Err? <==> colSpan > |columns|
      ensures r.Ok? ==>
        && Chosen(columns, colSpan, height, top, 0)
        && r.value == Available(columns, 0, colSpan, top, height)
      // the offset below column 0's open slot is never negative
      ensures r.Ok? ==> |columns| > 0 && LastStart(columns[0]) <= top
    {
      top := 0;
      var tallestItem := TallestLastItem(colSpan);
      if tallestItem.Err? || |columns| == 0 {
        return Err(MissingColumn), top;
      }
      var columnIdx := 0;
      var itemIdx := |columns[0]| - 1;
      var lowestItems := [SlotRef(columnIdx, itemIdx)];
      var itemSlotOffset := tallestItem.value - columns[columnIdx][itemIdx].startY;
      top := tallestItem.value;
      FallbackFits(columns, colConfig.itemWidth, colSpan, height, searchFromHeight);
      assert Fits(columns, lowestItems[0].col, StartOf(columns, lowestItems[0]) + itemSlotOffset, colSpan, height);

      var usedSlots, found; ghost var k;
      usedSlots, found, k := TryCandidates(lowestItems, colSpan, height, itemSlotOffset);
      if !found {
        // the fallback's one candidate always fits
        assert false;
      }
      assert k == 0 && StartOf(columns, lowestItems[0]) + itemSlotOffset == top;
      FallbackIsChosen(columns, colSpan, height, searchFromHeight, top);
      r := Ok(usedSlots);
    }

    /** The labelled `slotSearch` loop of position: moves a threshold down
        through the distinct slot starts, trying at each level every slot
        that starts there, in scan order, and stops at the first whose span
        of columns has room; when no start is left it falls back to column 0
        at the tallest last slot of columns 1 .. colSpan-1. Answers the used
        slots of the placement found, which is the one Chosen describes. */
    method SlotSearch(height: int, colSpan: nat) returns (r: Result<seq<UsedSlot>>, ghost top: int, ghost col: nat)
      requires Valid()
      requires height >= 0 && colSpan >= 1
      ensures r.Err? <==> colSpan > |columns|
      ensures r.Ok? ==>
        && Chosen(columns, colSpan, height, top, col)
        && r.value == Available(columns, col, col + colSpan, top, height)
    {
      var searchFromHeight := -1;
      SearchInvariantAtStart(columns, colConfig.itemWidth, colSpan, height);
      while true
        invariant SearchInvariant(columns, searchFromHeight, colSpan, height)
        decreases StartsBelow(columns, searchFromHeight)
      {
        var lowestItems := FindNextShortest(searchFromHeight);
        if |lowestItems| == 0 {
          r, top := SearchFallback(searchFromHeight, colSpan, height);
          col := 0;
          return;
        }
        var usedSlots, found;
        usedSlots, found, top, col := SearchLevel(searchFromHeight, lowestItems, colSpan, height);
        if found {
          return Ok(usedSlots), top, col;
        }
        // Every slot starting at this level failed: search from just below it.
        searchFromHeight := columns[lowestItems[0].col][lowestItems[0].idx].startY;
      }
    }

    /** Places an item of `height` spanning `colSpan` columns at the
        placement the search settles on, splits the slots it uses, and
        returns its top-left corner, read from the first used slot before the
        split. `width` has no effect. */
    method Position(width: int, height: int, colSpan: nat) returns (r: Result<Placement>, ghost col: nat)
      requires Valid()
      requires height >= 0 && colSpan >= 1
      modifies this
      ensures Valid() && colConfig == old(colConfig)
      ensures r.Err? <==> colSpan > |old(columns)|
      ensures r.Err? ==> columns == old(columns) && placed == old(placed)
      ensures r.Ok? ==> placed == old(placed) + [Box(r.value.top, col, colSpan, height)]
      ensures r.Ok? ==>
        && Chosen(old(columns), colSpan, height, r.value.top, col)
        && r.value.left == colConfig.itemWidth * col && col + colSpan <= colConfig.colCount
        && |Available(old(columns), col, col + colSpan, r.value.top, height)| == colSpan
        // columns only grow, and the item's columns grow past its bottom edge
        && OpenSlotsPushedDown(old(columns), columns, col, colSpan, r.value.top + height)
        && columns == SplitAll(old(columns), Available(old(columns), col, col + colSpan, r.value.top, height), height)
    {
      var found, top, c := SlotSearch(height, colSpan);
      col := c;
      if found.Err? {
        return Err(MissingColumn), col;
      }
      var usedSlots := found.value;
      FoundPlacement(columns, colConfig.itemWidth, colSpan, height, top, col);
      PlacementPushesOpenSlotsDown(columns, colConfig.itemWidth, colSpan, height, top, col);

      // The item is at the top left of the first slot, read before the split.
      var first := usedSlots[0];
      var firstSlot := columns[first.col][first.idx];
      PlacementKeepsItemsApart(columns, colConfig.itemWidth, colSpan, height, top, col, placed);
      SplitAllSlots(usedSlots, height);
      r := Ok(Placement(firstSlot.startY + first.offset, firstSlot.startX));
      placed := placed + [Box(top, col, colSpan, height)];
    }
  }

  /** What the search of position keeps about its threshold `y`: nothing
      starting at or above it fits, and column 0's open slot is either still
      below it or at or above the fallback's top, so that the fallback's
      one candidate always fits. */
  ghost predicate SearchInvariant(cols: Columns, y: int, colSpan: nat, height: int)
    requires colSpan >= 1 && forall c :: 0 <= c < |cols| ==> |cols[c]| > 0
  {
    && NoFitUpTo(cols, y, colSpan, height)
    && (colSpan <= |cols| ==> y < LastStart(cols[0]) || LastStart(cols[0]) <= TallestLastStart(cols, colSpan))
  }

  /** The search starts above every slot: no start is at or above -1, so
      nothing is ruled out yet and column 0's open slot is below it. */
  lemma SearchInvariantAtStart(cols: Columns, itemWidth: int, colSpan: nat, height: int)
    requires ColumnsWellFormed(cols, itemWidth) && colSpan >= 1
    ensures SearchInvariant(cols, -1, colSpan, height)
  {
    forall c, k | 0 <= c < |cols| && 0 <= k < |cols[c]|
      ensures cols[c][k].startY > -1
    {
      assert ColumnOk(cols, itemWidth, c);
    }
  }

  /** Once no slot starts below the threshold, column 0's open slot starts
      at or above the fallback's top, so the fallback's span fits there. */
  lemma FallbackFits(cols: Columns, itemWidth: int, colSpan: nat, height: int, searchFrom: int)
    requires ColumnsWellFormed(cols, itemWidth) && 1 <= colSpan <= |cols|
    requires IsNextShortest(cols, searchFrom, [])
    requires SearchInvariant(cols, searchFrom, colSpan, height)
    ensures LastStart(cols[0]) <= TallestLastStart(cols, colSpan)
    ensures Fits(cols, 0, TallestLastStart(cols, colSpan), colSpan, height)
  {
    // every start is at or above the threshold, column 0's open slot included
    assert cols[0][|cols[0]| - 1].startY <= searchFrom;
    WindowFitsBelowOpenSlots(cols, itemWidth, colSpan, height, TallestLastStart(cols, colSpan));
  }

  /** Scan of `findNextShortest` done up to slot `j` of column `i`:
      `lowest` is None exactly when nothing is collected yet, and otherwise
      the least start seen greater than `h`; `items` holds the scanned
      slots that start there, in scan order. */
  ghost predicate ScanSoFar(cols: Columns, h: int, i: nat, j: nat, lowest: Option<Slot>, items: seq<SlotRef>) {
    && (lowest.None? <==> |items| == 0)
    && (forall t :: 0 <= t < |items| ==> IsRef(cols, items[t]) && ScanBefore(items[t], SlotRef(i, j)))
    && (forall a, b :: 0 <= a < b < |items| ==> ScanBefore(items[a], items[b]))
    && (lowest.None? ==>
          forall p :: ScanBefore(p, SlotRef(i, j)) && IsRef(cols, p) ==> StartOf(cols, p) <= h)
    && (lowest.Some? ==>
          && lowest.value.startY > h
          && (forall t :: 0 <= t < |items| ==> StartOf(cols, items[t]) == lowest.value.startY)
          && (forall p :: ScanBefore(p, SlotRef(i, j)) && IsRef(cols, p) && StartOf(cols, p) > h ==>
                lowest.value.startY <= StartOf(cols, p))
          && (forall p :: ScanBefore(p, SlotRef(i, j)) && IsRef(cols, p) && StartOf(cols, p) == lowest.value.startY ==>
                p in items))
  }

  /** One slot of the scan: a slot below the threshold and above the least
      start so far starts a new collection, one at the least start so far
      joins it, and any other slot leaves it as it is. */
  lemma ScanStep(cols: Columns, h: int, i: nat, j: nat, lowest: Option<Slot>, items: seq<SlotRef>,
                 lowest': Option<Slot>, items': seq<SlotRef>)
    requires i < |cols| && j < |cols[i]|
    requires ScanSoFar(cols, h, i, j, lowest, items)
    requires var s := cols[i][j];
      var take := s.startY > h && (|items| == 0 || (lowest.Some? && s.startY <= lowest.value.startY));
      var reset := lowest.None? || s.startY < lowest.value.startY;
      && lowest' == (if take && reset then Some(s) else lowest)
      && items' == (if take then (if reset then [] else items) + [SlotRef(i, j)] else items)
    ensures ScanSoFar(cols, h, i, j + 1, lowest', items')
  {
    var s := cols[i][j];
    var take := s.startY > h && (|items| == 0 || (lowest.Some? && s.startY <= lowest.value.startY));
    var reset := lowest.None? || s.startY < lowest.value.startY;
    if !take {
      ScanSkip(cols, h, i, j, lowest, items);
    } else if reset {
      ScanRestart(cols, h, i, j, lowest, items);
    } else {
      ScanJoin(cols, h, i, j, lowest, items);
    }
  }

  /** Scan order: the slots before `[i, j+1]` are those before `[i, j]`
      and `[i, j]` itself. */
  lemma ScanBeforeNext(i: nat, j: nat)
    ensures forall p :: ScanBefore(p, SlotRef(i, j + 1)) <==> ScanBefore(p, SlotRef(i, j)) || p == SlotRef(i, j)
  {
  }

  /** A slot at or above the threshold, or below the least start so far,
      leaves the collection as it is. */
  lemma ScanSkip(cols: Columns, h: int, i: nat, j: nat, lowest: Option<Slot>, items: seq<SlotRef>)
    requires i < |cols| && j < |cols[i]|
    requires ScanSoFar(cols, h, i, j, lowest, items)
    requires !(cols[i][j].startY > h && (|items| == 0 || (lowest.Some? && cols[i][j].startY <= lowest.value.startY)))
    ensures ScanSoFar(cols, h, i, j + 1, lowest, items)
  {
    ScanBeforeNext(i, j);
  }

  /** A slot below the threshold and above the least start so far starts a
      new collection. */
  lemma ScanRestart(cols: Columns, h: int, i: nat, j: nat, lowest: Option<Slot>, items: seq<SlotRef>)
    requires i < |cols| && j < |cols[i]|
    requires ScanSoFar(cols, h, i, j, lowest, items)
    requires cols[i][j].startY > h && (|items| == 0 || (lowest.Some? && cols[i][j].startY <= lowest.value.startY))
    requires lowest.None? || cols[i][j].startY < lowest.value.startY
    ensures ScanSoFar(cols, h, i, j + 1, Some(cols[i][j]), [SlotRef(i, j)])
  {
    ScanBeforeNext(i, j);
  }

  /** A slot at the least start so far joins the collection. */
  lemma ScanJoin(cols: Columns, h: int, i: nat, j: nat, lowest: Option<Slot>, items: seq<SlotRef>)
    requires i < |cols| && j < |cols[i]|
    requires ScanSoFar(cols, h, i, j, lowest, items)
    requires lowest.Some? && cols[i][j].startY > h && cols[i][j].startY == lowest.value.startY
    ensures ScanSoFar(cols, h, i, j + 1, lowest, items + [SlotRef(i, j)])
  {
    ScanBeforeNext(i, j);
  }

  /** The scan of every column collects the next shortest slots. */
  lemma ScanDone(cols: Columns, h: int, lowest: Option<Slot>, items: seq<SlotRef>)
    requires ScanSoFar(cols, h, |cols|, 0, lowest, items)
    ensures IsNextShortest(cols, h, items)
  {
    var all := SlotRef(|cols|, 0);
    if |items| == 0 {
      forall c, k | 0 <= c < |cols| && 0 <= k < |cols[c]| ensures cols[c][k].startY <= h {
        assert StartOf(cols, SlotRef(c, k)) <= h by { assert ScanBefore(SlotRef(c, k), all); }
      }
    } else {
      var m := lowest.value.startY;
      forall c, k | 0 <= c < |cols| && 0 <= k < |cols[c]| && cols[c][k].startY > h
        ensures m <= cols[c][k].startY
      {
        assert ScanBefore(SlotRef(c, k), all) && StartOf(cols, SlotRef(c, k)) > h;
      }
      forall c, k | 0 <= c < |cols| && 0 <= k < |cols[c]| && cols[c][k].startY == m
        ensures SlotRef(c, k) in items
      {
        assert ScanBefore(SlotRef(c, k), all) && StartOf(cols, SlotRef(c, k)) == m;
      }
      assert StartOf(cols, items[0]) == m;
    }
  }

  /** Having scanned all of column `i` is having scanned up to column `i + 1`. */
  lemma ScanNextColumn(cols: Columns, h: int, i: nat, lowest: Option<Slot>, items: seq<SlotRef>)
    requires i < |cols|
    requires ScanSoFar(cols, h, i, |cols[i]|, lowest, items)
    ensures ScanSoFar(cols, h, i + 1, 0, lowest, items)
  {
    forall p | IsRef(cols, p)
      ensures ScanBefore(p, SlotRef(i + 1, 0)) <==> ScanBefore(p, SlotRef(i, |cols[i]|))
    {
    }
  }

  /** When every slot start is at or above a threshold up to which nothing
      fits, the fallback's top in column 0 is the placement Chosen describes. */
  lemma FallbackIsChosen(cols: Columns, colSpan: nat, height: int, searchFrom: int, top: int)
    requires NoFitUpTo(cols, searchFrom, colSpan, height)
    requires forall c, j :: 0 <= c < |cols| && 0 <= j < |cols[c]| ==> cols[c][j].startY <= searchFrom
    requires colSpan <= 1 || (colSpan <= |cols| && forall i :: 1 <= i < colSpan ==> |cols[i]| > 0)
    requires top == TallestLastStart(cols, colSpan)
    requires Fits(cols, 0, top, colSpan, height)
    ensures Chosen(cols, colSpan, height, top, 0)
  {
    assert FallbackPlacement(cols, top, 0, colSpan, height);
  }

  /** The first slot of the next level, in scan order, whose span fits is
      the placement Chosen describes. */
  lemma LevelIsChosen(cols: Columns, colSpan: nat, height: int, searchFrom: int,
                      lowestItems: seq<SlotRef>, k: nat)
    requires k < |lowestItems|
    requires NoFitUpTo(cols, searchFrom, colSpan, height)
    requires IsNextShortest(cols, searchFrom, lowestItems)
    requires forall t :: 0 <= t < k ==>
      !Fits(cols, lowestItems[t].col, StartOf(cols, lowestItems[t]) + 0, colSpan, height)
    requires Fits(cols, lowestItems[k].col, StartOf(cols, lowestItems[k]) + 0, colSpan, height)
    ensures Chosen(cols, colSpan, height, StartOf(cols, lowestItems[k]), lowestItems[k].col)
  {
    var cand := lowestItems[k];
    var top := StartOf(cols, cand);
    assert NoFitAbove(cols, top, colSpan, height) by {
      forall c, j | 0 <= c < |cols| && 0 <= j < |cols[c]| && cols[c][j].startY < top
        ensures !Fits(cols, c, cols[c][j].startY, colSpan, height)
      {
        assert cols[c][j].startY <= searchFrom;
      }
    }
    forall c, j | 0 <= c < cand.col && 0 <= j < |cols[c]| && cols[c][j].startY == top
      ensures !Fits(cols, c, top, colSpan, height)
    {
      assert SlotRef(c, j) in lowestItems;
      var t :| 0 <= t < |lowestItems| && lowestItems[t] == SlotRef(c, j);
      assert lowestItems[t].col < cand.col;
      assert t < k;
    }
    assert cols[cand.col][cand.idx].startY == top;
    assert FirstAtLevel(cols, top, cand.col, colSpan, height);
  }

  /** When every slot starting at the level found failed, the level can be
      the new threshold: nothing up to it fits, the fallback's guarantee still
      holds, and fewer starts are left below it. */
  lemma LevelExhausted(cols: Columns, itemWidth: int, colSpan: nat, height: int, searchFrom: int,
                       lowestItems: seq<SlotRef>)
    requires ColumnsWellFormed(cols, itemWidth) && colSpan >= 1
    requires IsNextShortest(cols, searchFrom, lowestItems) && |lowestItems| > 0
    requires NoFitUpTo(cols, searchFrom, colSpan, height)
    requires colSpan <= |cols| ==>
      searchFrom < LastStart(cols[0]) || LastStart(cols[0]) <= TallestLastStart(cols, colSpan)
    requires forall t :: 0 <= t < |lowestItems| ==>
      !Fits(cols, lowestItems[t].col, StartOf(cols, lowestItems[t]) + 0, colSpan, height)
    ensures var m := StartOf(cols, lowestItems[0]);
      && NoFitUpTo(cols, m, colSpan, height)
      && (colSpan <= |cols| ==> m < LastStart(cols[0]) || LastStart(cols[0]) <= TallestLastStart(cols, colSpan))
      && StartsBelow(cols, m) < StartsBelow(cols, searchFrom)
  {
    var m := StartOf(cols, lowestItems[0]);
    forall c, j | 0 <= c < |cols| && 0 <= j < |cols[c]| && cols[c][j].startY <= m
      ensures !Fits(cols, c, cols[c][j].startY, colSpan, height)
    {
      if cols[c][j].startY > searchFrom {
        assert SlotRef(c, j) in lowestItems;
      }
    }
    if colSpan <= |cols| && LastStart(cols[0]) > TallestLastStart(cols, colSpan) {
      // column 0's own level fits, so the search stops there at the latest
      var last0: nat := |cols[0]| - 1;
      var ref0 := SlotRef(0, last0);
      assert cols[0][last0].startY > searchFrom;
      WindowFitsBelowOpenSlots(cols, itemWidth, colSpan, height, LastStart(cols[0]));
      assert m == LastStart(cols[0]) ==> ref0 in lowestItems;
    }
    StartsBelowShrinks(cols, searchFrom, lowestItems[0]);
  }

  /** Every column is a single slot, open at the bottom. */
  ghost predicate AllOpen(cols: Columns) {
    forall i :: 0 <= i < |cols| ==> |cols[i]| == 1 && cols[i][0].endY.None?
  }

  /** While every column is a single open slot, an item one column wide
      goes to the leftmost of the shortest columns, whose slots start
      highest, at that column's start. */
  lemma ShortestOpenColumnChosen(cols: Columns, height: int, col: nat)
    requires AllOpen(cols) && col < |cols|
    requires forall i :: 0 <= i < |cols| ==> cols[col][0].startY <= cols[i][0].startY
    requires forall i :: 0 <= i < col ==> cols[col][0].startY < cols[i][0].startY
    ensures Chosen(cols, 1, height, cols[col][0].startY, col)
  {
    var y := cols[col][0].startY;
    assert Holds(cols[col][0], y, height);
    assert FirstFit(cols[col], y, height).Some?;
    assert Fits(cols, col, y, 1, height);
    assert FirstAtLevel(cols, y, col, 1, height);
  }

  /** Placing an item at the start of a single open slot leaves one open
      slot in that column, one unit below the item's bottom edge. */
  lemma OpenColumnSplit(cols: Columns, height: int, col: nat)
    requires AllOpen(cols) && col < |cols| && height >= 0
    ensures var s := cols[col][0];
      SplitAll(cols, Available(cols, col, col + 1, s.startY, height), height)
        == cols[col := [Slot(s.startX, s.startY + height + 1, None)]]
  {
    var s := cols[col][0];
    assert FirstFit(cols[col], s.startY, height) == Some(0);
    assert Available(cols, col, col + 1, s.startY, height) == [UsedSlot(col, 0, 0)];
    assert SplitColumn(cols[col], 0, 0, height) == [Slot(s.startX, s.startY + height + 1, None)];
  }

  /** On a freshly initialised packer whose span fits, the first item lands
      at the top-left corner, whatever its height. */
  method FirstItemAtOrigin(config: ColConfig, height: int, colSpan: nat) returns (r: Result<Placement>)
    requires 1 <= colSpan <= config.colCount && height >= 0
    ensures r == Ok(Placement(0, 0))
  {
    var packer := new BoxPacker();
    packer.Init(config);
    ghost var cols := packer.columns;
    ghost var col;
    r, col := packer.Position(config.itemWidth, height, colSpan);
    FirstPlacementIsTopLeft(cols, config.itemWidth, colSpan, height);
    ChosenIsUnique(cols, colSpan, height, r.value.top, col, 0, 0);
  }

  /** While every column is a single open slot, an item one column wide
      goes to the leftmost of the shortest columns, at its start, and that
      column's slot moves down past the item. */
  method PlaceInShortestColumn(packer: BoxPacker, height: int, col: nat) returns (p: Result<Placement>)
    requires packer.Valid() && AllOpen(packer.columns) && height >= 0
    requires col < |packer.columns|
    requires forall i :: 0 <= i < |packer.columns| ==> packer.columns[col][0].startY <= packer.columns[i][0].startY
    requires forall i :: 0 <= i < col ==> packer.columns[col][0].startY < packer.columns[i][0].startY
    modifies packer
    ensures packer.Valid() && packer.colConfig == old(packer.colConfig)
    ensures p == Ok(Placement(old(packer.columns[col][0].startY), packer.colConfig.itemWidth * col))
    ensures packer.columns ==
      old(packer.columns[col := [Slot(packer.colConfig.itemWidth * col, packer.columns[col][0].startY + height + 1, None)]])
  {
    ghost var cols := packer.columns;
    assert ColumnOk(cols, packer.colConfig.itemWidth, col);
    ghost var c;
    p, c := packer.Position(packer.colConfig.itemWidth, height, 1);
    ShortestOpenColumnChosen(cols, height, col);
    ChosenIsUnique(cols, 1, height, p.value.top, c, cols[col][0].startY, col);
    OpenColumnSplit(cols, height, col);
  }

  /** Three columns 100 wide, four items 50 high and one column wide: each
      item goes to the shortest column, leftmost first, so the second and third
      fill columns 1 and 2 and only the fourth stacks under the first, one
      unit below its bottom edge. */
  method ThreeColumnScenario() returns (p1: Result<Placement>, p2: Result<Placement>,
                                        p3: Result<Placement>, p4: Result<Placement>)
    ensures p1 == Ok(Placement(0, 0)) && p2 == Ok(Placement(0, 100))
    ensures p3 == Ok(Placement(0, 200)) && p4 == Ok(Placement(51, 0))
  {
    var packer := new BoxPacker();
    packer.Init(ColConfig(3, 100));
    p1 := PlaceInShortestColumn(packer, 50, 0);
    assert packer.columns == [[Slot(0, 51, None)], [Slot(100, 0, None)], [Slot(200, 0, None)]];
    p2 := PlaceInShortestColumn(packer, 50, 1);
    assert packer.columns == [[Slot(0, 51, None)], [Slot(100, 51, None)], [Slot(200, 0, None)]];
    p3 := PlaceInShortestColumn(packer, 50, 2);
    assert packer.columns == [[Slot(0, 51, None)], [Slot(100, 51, None)], [Slot(200, 51, None)]];
    p4 := PlaceInShortestColumn(packer, 50, 0);
  }

  /** Two columns whose open slots start at 80 and 50: an item two columns
      wide cannot start at 50, where column 1 has no neighbour to its right,
      so it goes to column 0 at 80. */
  lemma OffsetSpanChosen()
    ensures Chosen([[Slot(0, 80, None)], [Slot(100, 50, None)]], 2, 40, 80, 0)
  {
    var cols := [[Slot(0, 80, None)], [Slot(100, 50, None)]];
    assert FirstFit(cols[0], 80, 40) == Some(0);
    assert FirstFit(cols[1], 80, 40) == Some(0);
    assert Fits(cols, 0, 80, 2, 40);
    assert !Fits(cols, 1, cols[1][0].startY, 2, 40);
    assert NoFitAbove(cols, 80, 2, 40);
    assert FirstAtLevel(cols, 80, 0, 2, 40);
  }

  /** Placing that item uses column 1's open slot 30 units below its start:
      the split keeps the gap above the item as a bounded slot from 50 to 80,
      and both columns open again one unit below the item's bottom edge. */
  lemma OffsetSpanSplit()
    ensures var cols := [[Slot(0, 80, None)], [Slot(100, 50, None)]];
      SplitAll(cols, Available(cols, 0, 2, 80, 40), 40)
        == [[Slot(0, 121, None)], [Slot(100, 50, Some(80)), Slot(100, 121, None)]]
  {
    var cols := [[Slot(0, 80, None)], [Slot(100, 50, None)]];
    assert FirstFit(cols[0], 80, 40) == Some(0);
    assert FirstFit(cols[1], 80, 40) == Some(0);
    assert Available(cols, 0, 2, 80, 40) == [UsedSlot(0, 0, 0), UsedSlot(1, 0, 30)];
    var after0 := cols[0 := SplitColumn(cols[0], 0, 0, 40)];
    assert SplitColumn(cols[0], 0, 0, 40) == [Slot(0, 121, None)];
    var after1 := after0[1 := SplitColumn(after0[1], 0, 30, 40)];
    assert SplitColumn(after0[1], 0, 30, 40) == [Slot(100, 50, Some(80)), Slot(100, 121, None)];
    var used := [UsedSlot(0, 0, 0), UsedSlot(1, 0, 30)];
    assert SplitAll(cols, used, 40) == SplitAll(after0, used[1..], 40);
    assert SplitAll(after0, used[1..], 40) == SplitAll(after1, [], 40) == after1;
  }

  /** In the columns `OffsetSpanScenario` ends with, an item one column wide
      and 30 high is put at 50 in column 1, in the bounded slot left above the
      wide item: it ends at 80, exactly where that item starts, with no unit
      between them. */
  lemma TouchingAboveChosen()
    ensures Chosen([[Slot(0, 121, None)], [Slot(100, 50, Some(80)), Slot(100, 121, None)]], 1, 30, 50, 1)
  {
    var cols := [[Slot(0, 121, None)], [Slot(100, 50, Some(80)), Slot(100, 121, None)]];
    assert FirstFit(cols[1], 50, 30) == Some(0);
    assert Fits(cols, 1, 50, 1, 30);
    assert NoFitAbove(cols, 50, 1, 30);
    assert FirstAtLevel(cols, 50, 1, 1, 30);
  }

  /** Two columns 100 wide: items 79 and 49 high leave the open slots at 80
      and 50, and an item two columns wide and 40 high then lands at 80 in
      column 0, leaving column 1 a bounded slot from 50 to 80 above it. An
      item 30 high then fills that slot: it is put at 50 in column 1 and its
      bottom edge meets the wide item's top edge. */
  method OffsetSpanScenario() returns (p1: Result<Placement>, p2: Result<Placement>,
                                       p3: Result<Placement>, cols: Columns, p4: Result<Placement>)
    ensures p1 == Ok(Placement(0, 0)) && p2 == Ok(Placement(0, 100)) && p3 == Ok(Placement(80, 0))
    ensures cols == [[Slot(0, 121, None)], [Slot(100, 50, Some(80)), Slot(100, 121, None)]]
    ensures p4 == Ok(Placement(50, 100))
  {
    var packer := new BoxPacker();
    packer.Init(ColConfig(2, 100));
    p1 := PlaceInShortestColumn(packer, 79, 0);
    assert packer.columns == [[Slot(0, 80, None)], [Slot(100, 0, None)]];
    p2 := PlaceInShortestColumn(packer, 49, 1);
    assert packer.columns == [[Slot(0, 80, None)], [Slot(100, 50, None)]];
    ghost var before := packer.columns;
    ghost var col;
    p3, col := packer.Position(200, 40, 2);
    OffsetSpanChosen();
    ChosenIsUnique(before, 2, 40, p3.value.top, col, 80, 0);
    OffsetSpanSplit();
    cols := packer.columns;
    p4, col := packer.Position(100, 30, 1);
    TouchingAboveChosen();
    ChosenIsUnique(cols, 1, 30, p4.value.top, col, 50, 1);
  }
}
