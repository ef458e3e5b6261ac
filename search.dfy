/** The read-only scans of the packer stated as functions of the column
    state, and the placement the skyline search settles on. */
module Search {
  import opened Slots

  type Columns = seq<Column>

  /** A `[column, slot]` pair naming one free slot. */
  datatype SlotRef = SlotRef(col: nat, idx: nat)

  /** A slot chosen for the item: its column, its index in that column and
      how far below the slot's start the item's top edge lies. */
  datatype UsedSlot = UsedSlot(col: nat, idx: nat, offset: int)

  /** Column `c` sits at `itemWidth * c` and is well formed. */
  ghost predicate ColumnsWellFormed(cols: Columns, itemWidth: int) {
    && (forall c :: 0 <= c < |cols| ==> |cols[c]| > 0)
    && (forall c {:trigger ColumnOk(cols, itemWidth, c)} :: 0 <= c < |cols| ==> ColumnOk(cols, itemWidth, c))
  }

  /** Column `c` is well formed at its left edge. */
  ghost predicate ColumnOk(cols: Columns, itemWidth: int, c: nat)
    requires c < |cols|
  {
    WellFormedColumn(cols[c], itemWidth * c)
  }

  predicate IsRef(cols: Columns, p: SlotRef) {
    p.col < |cols| && p.idx < |cols[p.col]|
  }

  function StartOf(cols: Columns, p: SlotRef): int
    requires IsRef(cols, p)
  {
    cols[p.col][p.idx].startY
  }

  /** `p` comes before `q` when scanning column by column, slot by slot. */
  predicate ScanBefore(p: SlotRef, q: SlotRef) {
    p.col < q.col || (p.col == q.col && p.idx < q.idx)
  }

  // ---------------------------------------------------------------------
  // findNextShortest

  /** `r` is the answer to "which slots start at the first level below
      `searchFrom`": every slot whose start is the least start greater than
      `searchFrom`, each once and in scan order, and nothing when no slot
      starts below `searchFrom`. */
  ghost predicate IsNextShortest(cols: Columns, searchFrom: int, r: seq<SlotRef>) {
    && (forall t :: 0 <= t < |r| ==> IsRef(cols, r[t]))
    && (forall a, b :: 0 <= a < b < |r| ==> ScanBefore(r[a], r[b]))
    && (|r| == 0 <==>
          forall c, k :: 0 <= c < |cols| && 0 <= k < |cols[c]| ==> cols[c][k].startY <= searchFrom)
    && (|r| > 0 ==>
          && StartOf(cols, r[0]) > searchFrom
          && (forall t :: 0 <= t < |r| ==> StartOf(cols, r[t]) == StartOf(cols, r[0]))
          && (forall c, k :: 0 <= c < |cols| && 0 <= k < |cols[c]| && cols[c][k].startY > searchFrom ==>
                StartOf(cols, r[0]) <= cols[c][k].startY)
          && (forall c, k :: 0 <= c < |cols| && 0 <= k < |cols[c]| && cols[c][k].startY == StartOf(cols, r[0]) ==>
                SlotRef(c, k) in r))
  }

  /** The distinct slot starts greater than `h`, that is below it; it
      shrinks with every failed round of the search. */
  ghost function StartsBelow(cols: Columns, h: int): set<int> {
    set c, k | 0 <= c < |cols| && 0 <= k < |cols[c]| && cols[c][k].startY > h :: cols[c][k].startY
  }

  /** Moving the threshold down to the start of a slot below it drops at
      least that start from the set. */
  lemma StartsBelowShrinks(cols: Columns, h: int, p: SlotRef)
    requires IsRef(cols, p) && StartOf(cols, p) > h
    ensures StartsBelow(cols, StartOf(cols, p)) < StartsBelow(cols, h)
  {
    var m := StartOf(cols, p);
    assert cols[p.col][p.idx].startY == m;
    assert m in StartsBelow(cols, h);
    assert m !in StartsBelow(cols, m);
  }

  // ---------------------------------------------------------------------
  // columnHasSlotAt

  /** The first slot of `col` that holds an item of `height` with its top
      edge at `y`, if any. */
  function FirstFit(col: Column, y: int, height: int): (r: Option<nat>)
    ensures r.Some? ==> r.value < |col| && Holds(col[r.value], y, height)
    ensures r.Some? ==> forall k :: 0 <= k < r.value ==> !Holds(col[k], y, height)
    ensures r.None? ==> forall k :: 0 <= k < |col| ==> !Holds(col[k], y, height)
  {
    if |col| == 0 then None
    else if Holds(col[0], y, height) then Some(0)
    else match FirstFit(col[1..], y, height)
      case None => None
      case Some(k) => Some(k + 1)
  }

  /** An open slot starting at or above `y` holds any item at `y`, so a
      well-formed column whose last slot starts there has room. */
  lemma OpenColumnHasRoom(col: Column, x: int, y: int, height: int)
    requires WellFormedColumn(col, x) && LastStart(col) <= y
    ensures FirstFit(col, y, height).Some?
  {
    assert Holds(col[|col| - 1], y, height);
  }

  // ---------------------------------------------------------------------
  // findAvailableSlots

  /** The slots found in columns `lo .. hi-1` for an item whose top edge is
      at `y`: for each column that has room, that column's first slot with
      room and the item's offset below its start. */
  function Available(cols: Columns, lo: nat, hi: nat, y: int, height: int): (r: seq<UsedSlot>)
    requires lo <= hi <= |cols|
    ensures |r| <= hi - lo
    decreases hi
  {
    if hi == lo then []
    else
      var prefix := Available(cols, lo, hi - 1, y, height);
      match FirstFit(cols[hi - 1], y, height)
      case None => prefix
      case Some(k) => prefix + [UsedSlot(hi - 1, k, y - cols[hi - 1][k].startY)]
  }

  /** Each entry of `r` names the first slot with room of a column in
      `lo .. hi-1`, at the item's offset below its start. */
  ghost predicate EntriesInWindow(cols: Columns, r: seq<UsedSlot>, lo: nat, hi: nat, y: int, height: int) {
    && hi <= |cols|
    && (forall t :: 0 <= t < |r| ==>
          && lo <= r[t].col < hi
          && FirstFit(cols[r[t].col], y, height) == Some(r[t].idx)
          && r[t].idx < |cols[r[t].col]|
          && r[t].offset == y - cols[r[t].col][r[t].idx].startY)
  }

  /** The entries of `r` are for columns in `lo .. hi-1`, in strictly
      increasing order. */
  predicate OrderedInWindow(r: seq<UsedSlot>, lo: nat, hi: nat) {
    && (forall t :: 0 <= t < |r| ==> lo <= r[t].col < hi)
    && (forall a, b :: 0 <= a < b < |r| ==> r[a].col < r[b].col)
  }

  /** Available's entries are the first slots with room of the window's
      columns. */
  lemma {:induction false} AvailableEntries(cols: Columns, lo: nat, hi: nat, y: int, height: int)
    requires lo <= hi <= |cols|
    ensures EntriesInWindow(cols, Available(cols, lo, hi, y, height), lo, hi, y, height)
    decreases hi
  {
    if hi > lo {
      AvailableEntries(cols, lo, hi - 1, y, height);
      var prefix := Available(cols, lo, hi - 1, y, height);
      var r := Available(cols, lo, hi, y, height);
      if FirstFit(cols[hi - 1], y, height).Some? {
        var k := FirstFit(cols[hi - 1], y, height).value;
        assert r == prefix + [UsedSlot(hi - 1, k, y - cols[hi - 1][k].startY)];
        assert forall t :: 0 <= t < |prefix| ==> r[t] == prefix[t];
      }
    }
  }

  /** Available's entries are in column order, inside the window. */
  lemma {:induction false} AvailableOrdered(cols: Columns, lo: nat, hi: nat, y: int, height: int)
    requires lo <= hi <= |cols|
    ensures OrderedInWindow(Available(cols, lo, hi, y, height), lo, hi)
    decreases hi
  {
    if hi > lo {
      AvailableOrdered(cols, lo, hi - 1, y, height);
      var prefix := Available(cols, lo, hi - 1, y, height);
      var r := Available(cols, lo, hi, y, height);
      if FirstFit(cols[hi - 1], y, height).Some? {
        var k := FirstFit(cols[hi - 1], y, height).value;
        assert r == prefix + [UsedSlot(hi - 1, k, y - cols[hi - 1][k].startY)];
        assert forall t :: 0 <= t < |prefix| ==> r[t] == prefix[t];
      }
    }
  }

  /** Some entry of `r` is for column `i`. */
  ghost predicate HasEntryFor(r: seq<UsedSlot>, i: nat) {
    exists t :: 0 <= t < |r| && r[t].col == i
  }

  /** Every column of `lo .. hi-1` with room for the item at `y` has an
      entry in `r`. */
  ghost predicate CoversWindow(cols: Columns, r: seq<UsedSlot>, lo: nat, hi: nat, y: int, height: int) {
    && hi <= |cols|
    && forall i :: lo <= i < hi && FirstFit(cols[i], y, height).Some? ==> HasEntryFor(r, i)
  }

  /** No column of the window with room is missing from Available. */
  lemma {:induction false} AvailableCovers(cols: Columns, lo: nat, hi: nat, y: int, height: int)
    requires lo <= hi <= |cols|
    ensures CoversWindow(cols, Available(cols, lo, hi, y, height), lo, hi, y, height)
    decreases hi
  {
    if hi > lo {
      AvailableCovers(cols, lo, hi - 1, y, height);
      var prefix := Available(cols, lo, hi - 1, y, height);
      var r := Available(cols, lo, hi, y, height);
      if FirstFit(cols[hi - 1], y, height).Some? {
        var k := FirstFit(cols[hi - 1], y, height).value;
        assert r == prefix + [UsedSlot(hi - 1, k, y - cols[hi - 1][k].startY)];
        forall i | lo <= i < hi && FirstFit(cols[i], y, height).Some? ensures HasEntryFor(r, i) {
          if i == hi - 1 {
            assert r[|prefix|].col == i;
          } else {
            var t :| 0 <= t < |prefix| && prefix[t].col == i;
            assert r[t] == prefix[t];
          }
        }
      } else {
        assert r == prefix;
      }
    }
  }

  /** Available is as long as the window exactly when every column of the
      window has room, and then entry `t` is for column `lo + t`. */
  lemma {:induction false} AvailableLength(cols: Columns, lo: nat, hi: nat, y: int, height: int)
    requires lo <= hi <= |cols|
    ensures var r := Available(cols, lo, hi, y, height);
      && (|r| == hi - lo <==> forall i :: lo <= i < hi ==> FirstFit(cols[i], y, height).Some?)
      && (|r| == hi - lo ==> forall t :: 0 <= t < |r| ==> r[t].col == lo + t)
    decreases hi
  {
    if hi > lo {
      AvailableLength(cols, lo, hi - 1, y, height);
      var prefix := Available(cols, lo, hi - 1, y, height);
      if FirstFit(cols[hi - 1], y, height).None? {
        assert |prefix| < hi - lo;
      }
    }
  }

  /** Available has one entry per column that has room, in column order,
      and no other: each names the column's first slot with room, which
      holds the item at a non-negative offset below its start, and every
      column of the window with room has an entry. It is as long as the
      window exactly when every column of the window has room, and then
      entry `t` is for column `lo + t`. */
  lemma AvailableSpec(cols: Columns, lo: nat, hi: nat, y: int, height: int)
    requires lo <= hi <= |cols|
    ensures var r := Available(cols, lo, hi, y, height);
      && (forall t :: 0 <= t < |r| ==>
            && lo <= r[t].col < hi
            && FirstFit(cols[r[t].col], y, height) == Some(r[t].idx)
            && r[t].idx < |cols[r[t].col]|
            && r[t].offset == y - cols[r[t].col][r[t].idx].startY
            && r[t].offset >= 0
            && Holds(cols[r[t].col][r[t].idx], y, height))
      && (forall a, b :: 0 <= a < b < |r| ==> r[a].col < r[b].col)
      && UsedRefsOk(cols, r)
      && (|r| == hi - lo <==> forall i :: lo <= i < hi ==> FirstFit(cols[i], y, height).Some?)
      && (|r| == hi - lo ==> forall t :: 0 <= t < |r| ==> r[t].col == lo + t)
      && (forall i :: lo <= i < hi && FirstFit(cols[i], y, height).Some? ==>
            exists t :: 0 <= t < |r| && r[t].col == i)
  {
    AvailableEntries(cols, lo, hi, y, height);
    AvailableOrdered(cols, lo, hi, y, height);
    AvailableLength(cols, lo, hi, y, height);
    AvailableCovers(cols, lo, hi, y, height);
  }

  /** When every column of the window has room, entry `t` of the answer is
      column `lo + t`'s first slot with room, at the item's offset below
      its start. */
  lemma AvailableEntry(cols: Columns, lo: nat, hi: nat, y: int, height: int, t: nat)
    requires lo <= hi <= |cols| && t < hi - lo
    requires forall i :: lo <= i < hi ==> FirstFit(cols[i], y, height).Some?
    ensures var r := Available(cols, lo, hi, y, height);
      && |r| == hi - lo && r[t].col == lo + t && r[t].idx < |cols[lo + t]|
      && r[t].offset == y - cols[lo + t][r[t].idx].startY
  {
    AvailableSpec(cols, lo, hi, y, height);
  }

  /** The `colSpan` columns from `c` on each have room for the item at `y`. */
  predicate Fits(cols: Columns, c: nat, y: int, colSpan: nat, height: int) {
    c + colSpan <= |cols| && forall i {:trigger FirstFit(cols[i], y, height)} :: c <= i < c + colSpan ==> FirstFit(cols[i], y, height).Some?
  }

  /** A span of columns fits exactly when every one of its columns yields a
      slot, that is, when findAvailableSlots' answer is as long as the span. */
  lemma AvailableFits(cols: Columns, c: nat, y: int, colSpan: nat, height: int)
    requires c + colSpan <= |cols| && colSpan >= 1
    ensures var r := Available(cols, c, c + colSpan, y, height);
      |r| > 0 && |r| >= colSpan <==> Fits(cols, c, y, colSpan, height)
  {
    AvailableLength(cols, c, c + colSpan, y, height);
  }

  // ---------------------------------------------------------------------
  // the fallback of position

  /** The fallback's `tallestItem`: the greatest start of the last slot of
      columns 1 .. hi-1, and 0 when that is greater. Column 0 is not scanned. */
  function TallestLastStart(cols: Columns, hi: nat): (r: int)
    requires hi <= 1 || (hi <= |cols| && forall i :: 1 <= i < hi ==> |cols[i]| > 0)
    ensures r >= 0
    ensures forall i {:trigger LastStart(cols[i])} :: 1 <= i < hi ==> LastStart(cols[i]) <= r
    ensures r == 0 || exists i {:trigger LastStart(cols[i])} :: 1 <= i < hi && LastStart(cols[i]) == r
  {
    if hi <= 1 then 0
    else
      var prev := TallestLastStart(cols, hi - 1);
      if LastStart(cols[hi - 1]) > prev then LastStart(cols[hi - 1]) else prev
  }

  /** Columns 0 .. colSpan-1 all have room at any `y` at or below the start
      of column 0's open slot and of the fallback's tallest item. */
  lemma WindowFitsBelowOpenSlots(cols: Columns, itemWidth: int, colSpan: nat, height: int, y: int)
    requires ColumnsWellFormed(cols, itemWidth)
    requires 1 <= colSpan <= |cols|
    requires LastStart(cols[0]) <= y && TallestLastStart(cols, colSpan) <= y
    ensures Fits(cols, 0, y, colSpan, height)
  {
    forall i | 0 <= i < colSpan ensures FirstFit(cols[i], y, height).Some? {
      assert ColumnOk(cols, itemWidth, i);
      OpenColumnHasRoom(cols[i], itemWidth * i, y, height);
    }
  }

  // ---------------------------------------------------------------------
  // the used slots findAvailableSlots answers

  /** The used slots name existing slots in strictly increasing columns. */
  predicate UsedRefsOk(cols: Columns, used: seq<UsedSlot>) {
    && (forall t :: 0 <= t < |used| ==> used[t].col < |cols| && used[t].idx < |cols[used[t].col]|)
    && (forall a, b :: 0 <= a < b < |used| ==> used[a].col < used[b].col)
  }

  // ---------------------------------------------------------------------
  // the placement position settles on

  /** No slot starting at or above `y` is the start of a level at which its
      column and the `colSpan - 1` columns right of it have room. */
  ghost predicate NoFitUpTo(cols: Columns, y: int, colSpan: nat, height: int) {
    forall c, k {:trigger Fits(cols, c, cols[c][k].startY, colSpan, height)} ::
      0 <= c < |cols| && 0 <= k < |cols[c]| && cols[c][k].startY <= y ==>
      !Fits(cols, c, cols[c][k].startY, colSpan, height)
  }

  ghost predicate NoFitAbove(cols: Columns, y: int, colSpan: nat, height: int) {
    forall c, k {:trigger Fits(cols, c, cols[c][k].startY, colSpan, height)} ::
      0 <= c < |cols| && 0 <= k < |cols[c]| && cols[c][k].startY < y ==>
      !Fits(cols, c, cols[c][k].startY, colSpan, height)
  }

  /** Column `col` has a slot starting at `y`, and no column left of it with
      a slot starting at `y` fits the item there. */
  ghost predicate FirstAtLevel(cols: Columns, y: int, col: nat, colSpan: nat, height: int) {
    && col < |cols|
    && (exists k :: 0 <= k < |cols[col]| && cols[col][k].startY == y)
    && (forall c, k :: 0 <= c < col && 0 <= k < |cols[c]| && cols[c][k].startY == y ==>
          !Fits(cols, c, y, colSpan, height))
  }

  /** The fallback: no slot start is a level that fits, so the item goes to
      column 0 at the fallback's tallest item. */
  ghost predicate FallbackPlacement(cols: Columns, top: int, col: nat, colSpan: nat, height: int) {
    && col == 0
    && (colSpan <= 1 || (colSpan <= |cols| && forall i :: 1 <= i < colSpan ==> |cols[i]| > 0))
    && top == TallestLastStart(cols, colSpan)
    && (forall c, k {:trigger Fits(cols, c, cols[c][k].startY, colSpan, height)} ::
          0 <= c < |cols| && 0 <= k < |cols[c]| ==> !Fits(cols, c, cols[c][k].startY, colSpan, height))
  }

  /** Where position puts the item: at `top` in columns `col .. col+colSpan-1`,
      which have room there. Either `top` is the highest slot start that fits
      and `col` the leftmost column with a slot starting there that fits, or
      no slot start fits and the fallback applies. */
  ghost predicate Chosen(cols: Columns, colSpan: nat, height: int, top: int, col: nat) {
    && Fits(cols, col, top, colSpan, height)
    && NoFitAbove(cols, top, colSpan, height)
    && (FirstAtLevel(cols, top, col, colSpan, height) || FallbackPlacement(cols, top, col, colSpan, height))
  }

  /** The search is deterministic: one column state admits one placement. */
  lemma ChosenIsUnique(cols: Columns, colSpan: nat, height: int, top1: int, col1: nat, top2: int, col2: nat)
    requires Chosen(cols, colSpan, height, top1, col1)
    requires Chosen(cols, colSpan, height, top2, col2)
    ensures top1 == top2 && col1 == col2
  {
    if FirstAtLevel(cols, top1, col1, colSpan, height) {
      var k1 :| 0 <= k1 < |cols[col1]| && cols[col1][k1].startY == top1;
      // a level that fits is neither below the other placement nor passed over by its fallback
      assert top1 < top2 ==> !Fits(cols, col1, top1, colSpan, height);
      assert FallbackPlacement(cols, top2, col2, colSpan, height) ==>
        !Fits(cols, col1, top1, colSpan, height);
      assert top1 == top2 && col1 < col2 && FirstAtLevel(cols, top2, col2, colSpan, height) ==>
        !Fits(cols, col1, top2, colSpan, height);
    }
    if FirstAtLevel(cols, top2, col2, colSpan, height) {
      var k2 :| 0 <= k2 < |cols[col2]| && cols[col2][k2].startY == top2;
      assert top2 < top1 ==> !Fits(cols, col2, top2, colSpan, height);
      assert FallbackPlacement(cols, top1, col1, colSpan, height) ==>
        !Fits(cols, col2, top2, colSpan, height);
      assert top1 == top2 && col2 < col1 && FirstAtLevel(cols, top1, col1, colSpan, height) ==>
        !Fits(cols, col2, top1, colSpan, height);
    }
  }

  /** On freshly initialised columns the first item goes to the top-left
      corner, whatever its height. */
  lemma FirstPlacementIsTopLeft(cols: Columns, itemWidth: int, colSpan: nat, height: int)
    requires 1 <= colSpan <= |cols|
    requires forall i :: 0 <= i < |cols| ==> cols[i] == [Slot(itemWidth * i, 0, None)]
    ensures Chosen(cols, colSpan, height, 0, 0)
  {
    forall i | 0 <= i < colSpan ensures FirstFit(cols[i], 0, height).Some? {
      assert Holds(cols[i][0], 0, height);
    }
    assert cols[0][0].startY == 0;
  }
}
