/** The splitting of every used slot once an item is placed: the effect of
    `splitAllSlots` as a function of the columns, and what it keeps. */
module Splitting {
  import opened Slots
  import opened Search

  predicate UsesColumn(used: seq<UsedSlot>, c: nat) {
    exists t :: 0 <= t < |used| && used[t].col == c
  }

  /** The used slots name existing slots in strictly increasing columns,
      and each of them holds the item at its offset. */
  ghost predicate UsedSlotsFit(cols: Columns, used: seq<UsedSlot>, height: int) {
    && UsedRefsOk(cols, used)
    && forall t :: 0 <= t < |used| ==>
         used[t].offset >= 0 &&
         Holds(cols[used[t].col][used[t].idx], cols[used[t].col][used[t].idx].startY + used[t].offset, height)
  }

  /** Once the first used slot is split, the others still name the slots
      they named, since they lie in columns right of it. */
  lemma UsedRefsAfterFirst(cols: Columns, used: seq<UsedSlot>, height: int)
    requires UsedRefsOk(cols, used) && |used| > 0
    ensures var u := used[0];
      UsedRefsOk(cols[u.col := SplitColumn(cols[u.col], u.idx, u.offset, height)], used[1..])
  {
    forall t | 1 <= t < |used| ensures used[t].col != used[0].col {
      assert used[0].col < used[t].col;
    }
  }

  /** The columns once every used slot has been split in turn, first to
      last. A used slot that names no slot is passed over; the ones
      position hands over always name one. */
  function SplitAll(cols: Columns, used: seq<UsedSlot>, height: int): (r: Columns)
    ensures |r| == |cols|
    decreases |used|
  {
    if |used| == 0 then cols
    else
      var u := used[0];
      var next :=
        if u.col < |cols| && u.idx < |cols[u.col]| then cols[u.col := SplitColumn(cols[u.col], u.idx, u.offset, height)]
        else cols;
      SplitAll(next, used[1..], height)
  }

  /** Each used slot is replaced at its own index of its own column, and
      every column no used slot is in is unchanged: the columns are
      distinct, so no split moves another used slot. */
  lemma {:induction false} SplitAllColumns(cols: Columns, used: seq<UsedSlot>, height: int)
    requires UsedRefsOk(cols, used)
    ensures var r := SplitAll(cols, used, height);
      && (forall c :: 0 <= c < |cols| && !UsesColumn(used, c) ==> r[c] == cols[c])
      && (forall t :: 0 <= t < |used| ==>
            r[used[t].col] == SplitColumn(cols[used[t].col], used[t].idx, used[t].offset, height))
    decreases |used|
  {
    if |used| > 0 {
      var u := used[0];
      var next := cols[u.col := SplitColumn(cols[u.col], u.idx, u.offset, height)];
      var rest := used[1..];
      UsedRefsAfterFirst(cols, used, height);
      SplitAllColumns(next, rest, height);
      var r := SplitAll(cols, used, height);
      assert r == SplitAll(next, rest, height);
      assert !UsesColumn(rest, u.col) by {
        forall t | 0 <= t < |rest| ensures rest[t].col != u.col {
          assert rest[t] == used[t + 1];
        }
      }
      forall c | 0 <= c < |cols| && !UsesColumn(used, c) ensures r[c] == cols[c] {
        assert c != u.col;
        assert !UsesColumn(rest, c) by {
          forall t | 0 <= t < |rest| ensures rest[t].col != c {
            assert rest[t] == used[t + 1];
          }
        }
      }
      forall t | 0 <= t < |used|
        ensures r[used[t].col] == SplitColumn(cols[used[t].col], used[t].idx, used[t].offset, height)
      {
        if t > 0 {
          assert used[t] == rest[t - 1];
          assert used[t].col != u.col;
        }
      }
    }
  }

  /** Splitting slots that hold the item keeps every column well formed. */
  lemma SplitAllKeepsWellFormed(cols: Columns, itemWidth: int, used: seq<UsedSlot>, height: int)
    requires ColumnsWellFormed(cols, itemWidth)
    requires UsedSlotsFit(cols, used, height) && height >= 0
    ensures ColumnsWellFormed(SplitAll(cols, used, height), itemWidth)
  {
    var r := SplitAll(cols, used, height);
    SplitAllColumns(cols, used, height);
    forall c | 0 <= c < |r| ensures WellFormedColumn(r[c], itemWidth * c) {
      assert ColumnOk(cols, itemWidth, c);
      if UsesColumn(used, c) {
        var t :| 0 <= t < |used| && used[t].col == c;
        SplitKeepsColumnWellFormed(cols[c], itemWidth * c, used[t].idx, used[t].offset, height);
      }
    }
  }

  /** Columns only grow: no column's open slot moves up, and every column
      a used slot is in ends with its open slot below the item put there. */
  lemma SplitAllPushesOpenSlotsDown(cols: Columns, itemWidth: int, used: seq<UsedSlot>, height: int)
    requires ColumnsWellFormed(cols, itemWidth)
    requires UsedSlotsFit(cols, used, height) && height >= 0
    ensures var r := SplitAll(cols, used, height);
      && (forall c :: 0 <= c < |cols| ==> |r[c]| > 0 && LastStart(cols[c]) <= LastStart(r[c]))
      && (forall t :: 0 <= t < |used| ==>
            cols[used[t].col][used[t].idx].startY + used[t].offset + height < LastStart(r[used[t].col]))
  {
    var r := SplitAll(cols, used, height);
    SplitAllColumns(cols, used, height);
    forall c | 0 <= c < |cols| ensures |r[c]| > 0 && LastStart(cols[c]) <= LastStart(r[c]) {
      assert ColumnOk(cols, itemWidth, c);
      if UsesColumn(used, c) {
        var t :| 0 <= t < |used| && used[t].col == c;
        SplitPushesOpenSlotDown(cols[c], itemWidth * c, used[t].idx, used[t].offset, height);
      }
    }
    forall t | 0 <= t < |used|
      ensures cols[used[t].col][used[t].idx].startY + used[t].offset + height < LastStart(r[used[t].col])
    {
      var u := used[t];
      assert ColumnOk(cols, itemWidth, u.col);
      SplitPushesOpenSlotDown(cols[u.col], itemWidth * u.col, u.idx, u.offset, height);
    }
  }

  // ---------------------------------------------------------------------
  // the placement and its split

  /** findAvailableSlots' answer names existing slots in strictly increasing
      columns, each holding the item at its offset. */
  lemma AvailableSlotsFit(cols: Columns, lo: nat, hi: nat, y: int, height: int)
    requires lo <= hi <= |cols|
    ensures UsedSlotsFit(cols, Available(cols, lo, hi, y, height), height)
  {
    AvailableEntries(cols, lo, hi, y, height);
    AvailableOrdered(cols, lo, hi, y, height);
  }

  /** When the span from `col` fits at `top`, findAvailableSlots' answer
      holds the item in every one of its slots, its first entry is column
      `col`'s, and the item's corner read from that entry is `top` and the
      column's left edge. */
  lemma FoundPlacement(cols: Columns, itemWidth: int, colSpan: nat, height: int, top: int, col: nat)
    requires ColumnsWellFormed(cols, itemWidth) && colSpan >= 1
    requires Fits(cols, col, top, colSpan, height)
    ensures var used := Available(cols, col, col + colSpan, top, height);
      && UsedSlotsFit(cols, used, height)
      && |used| == colSpan && used[0].col == col && used[0].idx < |cols[col]|
      && cols[col][used[0].idx].startY + used[0].offset == top
      && cols[col][used[0].idx].startX == itemWidth * col
  {
    var used := Available(cols, col, col + colSpan, top, height);
    AvailableSlotsFit(cols, col, col + colSpan, top, height);
    AvailableEntries(cols, col, col + colSpan, top, height);
    AvailableLength(cols, col, col + colSpan, top, height);
    assert ColumnOk(cols, itemWidth, col);
  }

  /** After the placement no free slot of column `i`, one of the item's
      columns, overlaps the item. */
  lemma SpanColumnUncovered(cols: Columns, itemWidth: int, colSpan: nat, height: int, top: int, col: nat, i: nat)
    requires ColumnsWellFormed(cols, itemWidth) && height >= 0
    requires Fits(cols, col, top, colSpan, height) && col <= i < col + colSpan
    ensures ColumnClear(SplitAll(cols, Available(cols, col, col + colSpan, top, height), height)[i],
                        Box(top, col, colSpan, height))
  {
    var used := Available(cols, col, col + colSpan, top, height);
    AvailableSlotsFit(cols, col, col + colSpan, top, height);
    AvailableEntries(cols, col, col + colSpan, top, height);
    AvailableLength(cols, col, col + colSpan, top, height);
    var t := i - col;
    assert used[t].col == i;
    var u := used[t];
    SplitAllColumns(cols, used, height);
    assert SplitAll(cols, used, height)[i] == SplitColumn(cols[i], u.idx, u.offset, height);
    assert ColumnOk(cols, itemWidth, i);
    SplitColumnClear(cols[i], itemWidth * i, u.idx, u.offset, Box(top, col, colSpan, height));
  }

  /** Splitting the slot an item is put in leaves no slot of the column
      overlapping the item. */
  lemma SplitColumnClear(column: Column, x: int, idx: nat, offset: int, b: Box)
    requires WellFormedColumn(column, x)
    requires idx < |column| && offset >= 0 && b.height >= 0
    requires b.top == column[idx].startY + offset && Holds(column[idx], b.top, b.height)
    ensures ColumnClear(SplitColumn(column, idx, offset, b.height), b)
  {
    SplitUncoversItem(column, x, idx, offset, b.height);
  }

  /** After the placement no free slot of the item's columns overlaps it. */
  lemma PlacementLeavesItemUncovered(cols: Columns, itemWidth: int, colSpan: nat, height: int, top: int, col: nat)
    requires ColumnsWellFormed(cols, itemWidth) && height >= 0
    requires Fits(cols, col, top, colSpan, height)
    ensures var after: Columns := SplitAll(cols, Available(cols, col, col + colSpan, top, height), height);
      forall i, k :: col <= i < col + colSpan && 0 <= k < |after[i]| ==>
        (after[i][k].endY.Some? && after[i][k].endY.value <= top) || after[i][k].startY > top + height
  {
    var after: Columns := SplitAll(cols, Available(cols, col, col + colSpan, top, height), height);
    forall i | col <= i < col + colSpan
      ensures forall k :: 0 <= k < |after[i]| ==>
        (after[i][k].endY.Some? && after[i][k].endY.value <= top) || after[i][k].startY > top + height
    {
      SpanColumnUncovered(cols, itemWidth, colSpan, height, top, col, i);
      assert ColumnClear(after[i], Box(top, col, colSpan, height));
    }
  }

  /** Columns only grow from `before` to `after`: no column's open slot
      moves up, and in columns `col .. col+colSpan-1` it starts below
      `bottom`. */
  ghost predicate OpenSlotsPushedDown(before: Columns, after: Columns, col: nat, colSpan: nat, bottom: int) {
    && |after| == |before|
    && (forall c :: 0 <= c < |before| ==>
          |before[c]| > 0 && |after[c]| > 0 && LastStart(before[c]) <= LastStart(after[c]))
    && (forall c :: col <= c < col + colSpan && c < |after| ==> |after[c]| > 0 && bottom < LastStart(after[c]))
  }

  /** Used slots that cover columns `col .. col+colSpan-1` in order and
      all hold the item with its top edge at `top`: once they are split,
      columns only grow, and the item's columns grow past its bottom edge. */
  lemma SpanSplitPushesOpenSlotsDown(cols: Columns, itemWidth: int, used: seq<UsedSlot>, height: int,
                                     top: int, col: nat, colSpan: nat)
    requires ColumnsWellFormed(cols, itemWidth)
    requires UsedSlotsFit(cols, used, height) && height >= 0
    requires |used| == colSpan
    requires forall t :: 0 <= t < |used| ==>
      used[t].col == col + t && cols[used[t].col][used[t].idx].startY + used[t].offset == top
    ensures OpenSlotsPushedDown(cols, SplitAll(cols, used, height), col, colSpan, top + height)
  {
    SplitAllPushesOpenSlotsDown(cols, itemWidth, used, height);
    var after := SplitAll(cols, used, height);
    forall c | col <= c < col + colSpan && c < |after|
      ensures |after[c]| > 0 && top + height < LastStart(after[c])
    {
      assert used[c - col].col == c;
    }
  }

  /** After the placement every column's open slot is where it was or
      lower, and in the item's columns it starts below the item's bottom
      edge. */
  lemma PlacementPushesOpenSlotsDown(cols: Columns, itemWidth: int, colSpan: nat, height: int, top: int, col: nat)
    requires ColumnsWellFormed(cols, itemWidth) && colSpan >= 1 && height >= 0
    requires Fits(cols, col, top, colSpan, height)
    ensures OpenSlotsPushedDown(cols, SplitAll(cols, Available(cols, col, col + colSpan, top, height), height),
                                col, colSpan, top + height)
  {
    var used := Available(cols, col, col + colSpan, top, height);
    FoundPlacement(cols, itemWidth, colSpan, height, top, col);
    forall t | 0 <= t < |used|
      ensures used[t].col == col + t && cols[used[t].col][used[t].idx].startY + used[t].offset == top
    {
      AvailableEntry(cols, col, col + colSpan, top, height, t);
    }
    SpanSplitPushesOpenSlotsDown(cols, itemWidth, used, height, top, col, colSpan);
  }

  // ---------------------------------------------------------------------
  // placed items never overlap

  /** Splitting the used slots only carves up free space: every slot of a
      column afterwards lies within some slot of that column before. */
  lemma SplitAllColumnInside(cols: Columns, used: seq<UsedSlot>, height: int, c: nat)
    requires UsedSlotsFit(cols, used, height) && height >= 0 && c < |cols|
    ensures var r := SplitAll(cols, used, height);
      forall k :: 0 <= k < |r[c]| ==> WithinSome(r[c][k], cols[c])
  {
    var r := SplitAll(cols, used, height);
    SplitAllColumns(cols, used, height);
    if UsesColumn(used, c) {
      var t :| 0 <= t < |used| && used[t].col == c;
      var u := used[t];
      assert r[c] == SplitColumn(cols[c], u.idx, u.offset, height);
      SplitColumnInside(cols[c], u.idx, u.offset, height);
    } else {
      var rc := r[c];
      assert rc == cols[c];
      forall k | 0 <= k < |rc| ensures WithinSome(rc[k], cols[c]) {
        assert Within(rc[k], cols[c][k]);
      }
    }
  }

  /** An item placed by position: its top edge, its first column, how many
      columns it spans and its height. */
  datatype Box = Box(top: int, col: nat, colSpan: nat, height: int)

  /** Slot `s` does not overlap item `b`: it ends at or above the item's top
      edge, or starts below its bottom edge. */
  predicate Clear(s: Slot, b: Box) {
    (s.endY.Some? && s.endY.value <= b.top) || s.startY > b.top + b.height
  }

  /** Column `c` is one of the columns item `b` spans. */
  predicate InSpan(b: Box, c: int) {
    b.col <= c < b.col + b.colSpan
  }

  /** No slot of `column` overlaps item `b`. */
  predicate ColumnClear(column: Column, b: Box) {
    forall k :: 0 <= k < |column| ==> Clear(column[k], b)
  }

  /** No free slot of an item's columns overlaps the item. */
  ghost predicate SlotsAvoid(cols: Columns, placed: seq<Box>) {
    forall i, c, k :: 0 <= i < |placed| && InSpan(placed[i], c) && c < |cols| && 0 <= k < |cols[c]| ==>
      Clear(cols[c][k], placed[i])
  }

  /** Item `b`, placed after item `a`, does not overlap it: in every column
      they share, `b` ends at or above `a`'s top edge or starts below `a`'s
      bottom edge. */
  ghost predicate Follows(a: Box, b: Box) {
    forall c :: InSpan(a, c) && InSpan(b, c) ==> b.top + b.height <= a.top || a.top + a.height < b.top
  }

  /** Every item placed is clear of every item placed before it. */
  ghost predicate ItemsApart(placed: seq<Box>) {
    forall i, j :: 0 <= i < j < |placed| ==> Follows(placed[i], placed[j])
  }

  /** A slot within a slot that avoids an item avoids it too. */
  lemma WithinKeepsClear(a: Slot, s: Slot, b: Box)
    requires Within(a, s) && Clear(s, b)
    ensures Clear(a, b)
  {
  }

  /** Splitting keeps every earlier item clear of the free slots. */
  lemma SplitAllKeepsSlotsAvoid(cols: Columns, used: seq<UsedSlot>, height: int, placed: seq<Box>)
    requires UsedSlotsFit(cols, used, height) && height >= 0
    requires SlotsAvoid(cols, placed)
    ensures SlotsAvoid(SplitAll(cols, used, height), placed)
  {
    var r := SplitAll(cols, used, height);
    forall i, c, k | 0 <= i < |placed| && InSpan(placed[i], c) && c < |r| && 0 <= k < |r[c]|
      ensures Clear(r[c][k], placed[i])
    {
      SplitAllColumnInside(cols, used, height, c);
      var j :| 0 <= j < |cols[c]| && Within(r[c][k], cols[c][j]);
      WithinKeepsClear(r[c][k], cols[c][j], placed[i]);
    }
  }

  /** An item put where its span fits is clear of every item placed before,
      since each of its columns holds it in a free slot, which avoids them. */
  lemma FitKeepsItemsApart(cols: Columns, colSpan: nat, height: int, top: int, col: nat, placed: seq<Box>)
    requires Fits(cols, col, top, colSpan, height)
    requires SlotsAvoid(cols, placed)
    ensures forall i :: 0 <= i < |placed| ==> Follows(placed[i], Box(top, col, colSpan, height))
  {
    var b := Box(top, col, colSpan, height);
    forall i | 0 <= i < |placed| ensures Follows(placed[i], b) {
      var a := placed[i];
      forall c | InSpan(a, c) && InSpan(b, c) ensures b.top + b.height <= a.top || a.top + a.height < b.top {
        assert FirstFit(cols[c], top, height).Some?;
        var k := FirstFit(cols[c], top, height).value;
        assert Clear(cols[c][k], a);
      }
    }
  }

  /** Placing an item where its span fits and splitting its used slots
      keeps both facts: no free slot overlaps a placed item, the new one
      included, and no item overlaps one placed before it. */
  lemma PlacementKeepsItemsApart(cols: Columns, itemWidth: int, colSpan: nat, height: int, top: int, col: nat,
                                 placed: seq<Box>)
    requires ColumnsWellFormed(cols, itemWidth) && colSpan >= 1 && height >= 0
    requires Fits(cols, col, top, colSpan, height)
    requires SlotsAvoid(cols, placed) && ItemsApart(placed)
    ensures var after := SplitAll(cols, Available(cols, col, col + colSpan, top, height), height);
      var placed' := placed + [Box(top, col, colSpan, height)];
      SlotsAvoid(after, placed') && ItemsApart(placed')
  {
    var used := Available(cols, col, col + colSpan, top, height);
    var after: Columns := SplitAll(cols, used, height);
    var b := Box(top, col, colSpan, height);
    var placed' := placed + [b];
    FoundPlacement(cols, itemWidth, colSpan, height, top, col);
    SplitAllKeepsSlotsAvoid(cols, used, height, placed);
    FitKeepsItemsApart(cols, colSpan, height, top, col, placed);
    forall i: int, c: int, k: int | 0 <= i < |placed'| && InSpan(placed'[i], c) && c < |after| && 0 <= k < |after[c]|
      ensures Clear(after[c][k], placed'[i])
    {
      if i < |placed| {
        assert placed'[i] == placed[i];
      } else {
        assert placed'[i] == b && col <= c < col + colSpan;
        SpanColumnUncovered(cols, itemWidth, colSpan, height, top, col, c);
        assert ColumnClear(after[c], b);
      }
    }
    forall i, j | 0 <= i < j < |placed'| ensures Follows(placed'[i], placed'[j]) {
      assert placed'[i] == placed[i];
    }
  }
}
