/** Free slots of the skyline packer: one column is an ordered list of free
    vertical regions, and placing an item splits one of them.
    Coordinates are screen coordinates: `y` grows downward, so "above" and
    "higher" mean a smaller `y`, "below" and "lower" a greater one. */
module Slots {

  datatype Option<T> = None | Some(value: T)

  /** A free region of one column. It starts at `startY` and ends at `endY`,
      or is open at the bottom when `endY` is None. `startX` is the column's
      left edge. Coordinates are integers (the source uses JS numbers). */
  datatype Slot = Slot(startX: int, startY: int, endY: Option<int>)

  type Column = seq<Slot>

  /** The slot has room for an item of `height` whose top edge is at `y`. */
  predicate Holds(s: Slot, y: int, height: int) {
    s.startY <= y && (s.endY.None? || s.endY.value >= y + height)
  }

  /** The shape every column keeps: at least one slot, every slot at the
      column's left edge `x` and at or below 0, every slot but the last
      bounded and ending above the next one's start, and the last one open. */
  ghost predicate WellFormedColumn(col: Column, x: int) {
    && |col| > 0
    && col[|col| - 1].endY.None?
    && InColumn(col, x)
    && Chain(col)
  }

  ghost predicate InColumn(col: Column, x: int) {
    forall k :: 0 <= k < |col| ==> col[k].startX == x && col[k].startY >= 0
  }

  /** Slot `a` is bounded, not empty, and ends above the start of slot `b`. */
  ghost predicate Above(a: Slot, b: Slot) {
    a.endY.Some? && a.startY < a.endY.value < b.startY
  }

  ghost predicate SeparatedAt(col: Column, k: nat)
    requires k + 1 < |col|
  {
    Above(col[k], col[k + 1])
  }

  /** Every slot is above the next one. */
  ghost predicate Chain(col: Column) {
    forall k :: 0 <= k < |col| - 1 ==> SeparatedAt(col, k)
  }

  function LastStart(col: Column): int
    requires |col| > 0
  {
    col[|col| - 1].startY
  }

  /** The slots that take the place of slot `s` once an item of `height` is
      put `offset` below its start: a leftover slot above the item when the
      offset is positive, then a leftover slot below it, one unit under the
      item's bottom edge, when there is still room there. */
  function Replacement(s: Slot, offset: int, height: int): (r: seq<Slot>)
    ensures |r| <= 2
    ensures forall t :: 0 <= t < |r| ==> r[t].startX == s.startX
    // splitting an open slot leaves an open slot at the end
    ensures s.endY.None? ==>
      |r| > 0 && r[|r| - 1] == Slot(s.startX, s.startY + offset + height + 1, None)
  {
    var below := s.startY + height + offset + 1;
    var upper := if offset > 0 then [Slot(s.startX, s.startY, Some(s.startY + offset))] else [];
    var lower := if s.endY.None? || s.endY.value > below then [Slot(s.startX, below, s.endY)] else [];
    upper + lower
  }

  /** When the slot holds the item, each replacement piece is a non-empty
      region inside the split slot and outside the item; when there are two,
      the upper one ends above the lower one. */
  lemma ReplacementInside(s: Slot, offset: int, height: int)
    requires offset >= 0 && height >= 0 && Holds(s, s.startY + offset, height)
    ensures var r := Replacement(s, offset, height);
      && (forall t :: 0 <= t < |r| ==>
          && s.startY <= r[t].startY
          && (s.endY.Some? ==> r[t].endY.Some? && r[t].endY.value <= s.endY.value)
          && (r[t].endY.Some? ==> r[t].startY < r[t].endY.value)
          && ((r[t].endY.Some? && r[t].endY.value <= s.startY + offset)
              || r[t].startY == s.startY + offset + height + 1))
      && (|r| == 2 ==> r[0].endY.Some? && r[0].endY.value < r[1].startY)
  {
  }

  /** Column `col` with its slot `idx` spliced out and replaced by the
      pieces `Replacement` gives. */
  function SplitColumn(col: Column, idx: nat, offset: int, height: int): Column
    requires idx < |col|
  {
    col[..idx] + Replacement(col[idx], offset, height) + col[idx + 1..]
  }

  /** The splice is in place: the slots before `idx` keep their places, the
      replacement pieces take the place of slot `idx`, and the slots after
      it follow, shifted by one less than the number of pieces. */
  lemma SplitColumnInPlace(col: Column, idx: nat, offset: int, height: int)
    requires idx < |col|
    ensures var r := SplitColumn(col, idx, offset, height);
      var rep := Replacement(col[idx], offset, height);
      && |r| == |col| - 1 + |rep|
      && (forall k :: 0 <= k < idx ==> r[k] == col[k])
      && (forall t :: 0 <= t < |rep| ==> r[idx + t] == rep[t])
      && (forall k :: idx < k < |col| ==> r[k - 1 + |rep|] == col[k])
  {
  }

  lemma {:induction false} StartsIncrease(col: Column, a: nat, b: nat)
    requires Chain(col)
    requires a < b < |col|
    ensures col[a].startY < col[b].startY
    ensures col[a].endY.Some? && col[a].endY.value < col[b].startY
    decreases b - a
  {
    assert SeparatedAt(col, a);
    if a + 1 < b {
      StartsIncrease(col, a + 1, b);
    }
  }

  /** A well-formed column is sorted by strictly increasing start, and its
      only open slot is the last one. */
  lemma ColumnSorted(col: Column, x: int)
    requires WellFormedColumn(col, x)
    ensures forall a, b :: 0 <= a < b < |col| ==> col[a].startY < col[b].startY
    ensures forall k :: 0 <= k < |col| && col[k].endY.None? ==> k == |col| - 1
  {
    forall k | 0 <= k < |col| - 1 ensures col[k].endY.Some? {
      assert SeparatedAt(col, k);
    }
    forall a, b | 0 <= a < b < |col| ensures col[a].startY < col[b].startY {
      StartsIncrease(col, a, b);
    }
  }

  lemma ChainSlice(col: Column, i: nat, j: nat)
    requires Chain(col) && i <= j <= |col|
    ensures Chain(col[i..j])
  {
    var c := col[i..j];
    forall k | 0 <= k < |c| - 1 ensures SeparatedAt(c, k) {
      assert SeparatedAt(col, i + k);
    }
  }

  lemma ChainConcat(a: Column, b: Column)
    requires Chain(a) && Chain(b)
    requires |a| > 0 && |b| > 0 ==> Above(a[|a| - 1], b[0])
    ensures Chain(a + b)
  {
    var c := a + b;
    forall k | 0 <= k < |c| - 1 ensures SeparatedAt(c, k) {
      if k < |a| - 1 {
        assert SeparatedAt(a, k);
      } else if k >= |a| {
        assert SeparatedAt(b, k - |a|);
      }
    }
  }

  /** The pieces `rep` lie inside slot `s`: none starts above it, each is
      bounded no lower than `s` is, and none is empty. */
  ghost predicate InsideSlot(rep: seq<Slot>, s: Slot) {
    forall t :: 0 <= t < |rep| ==>
      && s.startY <= rep[t].startY
      && (s.endY.Some? ==> rep[t].endY.Some? && rep[t].endY.value <= s.endY.value)
      && (rep[t].endY.Some? ==> rep[t].startY < rep[t].endY.value)
  }

  /** Putting in the place of one slot a chain of pieces that lie inside it
      keeps the column a chain. */
  lemma SpliceKeepsChain(col: Column, idx: nat, rep: seq<Slot>)
    requires Chain(col) && idx < |col|
    requires Chain(rep) && InsideSlot(rep, col[idx])
    ensures Chain(col[..idx] + rep + col[idx + 1..])
  {
    var pre, post := col[..idx], col[idx + 1..];
    ChainSlice(col, 0, idx);
    ChainSlice(col, idx + 1, |col|);
    assert col[idx + 1..|col|] == post && col[0..idx] == pre;
    if idx > 0 && |rep| > 0 {
      assert SeparatedAt(col, idx - 1);
      assert pre[|pre| - 1] == col[idx - 1];
      assert rep[0].startY >= col[idx].startY;
    }
    ChainConcat(pre, rep);
    var mid := pre + rep;
    if |mid| > 0 && |post| > 0 {
      if |rep| > 0 {
        assert SeparatedAt(col, idx);
        assert mid[|mid| - 1] == rep[|rep| - 1];
        assert post[0] == col[idx + 1];
      } else {
        StartsIncrease(col, idx - 1, idx + 1);
        assert SeparatedAt(col, idx - 1);
        assert mid[|mid| - 1] == col[idx - 1];
        assert post[0] == col[idx + 1];
      }
    }
    ChainConcat(mid, post);
  }

  /** Splitting a slot that holds the item keeps the column well formed. */
  lemma SplitKeepsColumnWellFormed(col: Column, x: int, idx: nat, offset: int, height: int)
    requires WellFormedColumn(col, x)
    requires idx < |col| && offset >= 0 && height >= 0
    requires Holds(col[idx], col[idx].startY + offset, height)
    ensures WellFormedColumn(SplitColumn(col, idx, offset, height), x)
  {
    var s := col[idx];
    var rep := Replacement(s, offset, height);
    ReplacementInside(s, offset, height);
    if |rep| == 2 {
      assert SeparatedAt(rep, 0);
    }
    assert Chain(rep);
    SpliceKeepsChain(col, idx, rep);
    var r := SplitColumn(col, idx, offset, height);
    assert idx == |col| - 1 ==> r[|r| - 1] == rep[|rep| - 1];
    assert idx < |col| - 1 ==> r[|r| - 1] == col[|col| - 1];
    assert InColumn(r, x);
  }

  /** The split never moves a column's open slot up, and afterwards the open
      slot starts below the placed item's bottom edge: either the split slot
      was the open one, whose lower piece starts one unit under the item, or
      the open slot was already below the split slot's end. */
  lemma SplitPushesOpenSlotDown(col: Column, x: int, idx: nat, offset: int, height: int)
    requires WellFormedColumn(col, x)
    requires idx < |col| && offset >= 0 && height >= 0
    requires Holds(col[idx], col[idx].startY + offset, height)
    ensures var r := SplitColumn(col, idx, offset, height);
      && |r| > 0
      && LastStart(col) <= LastStart(r)
      && col[idx].startY + offset + height < LastStart(r)
  {
    SplitKeepsColumnWellFormed(col, x, idx, offset, height);
    var rep := Replacement(col[idx], offset, height);
    var r := SplitColumn(col, idx, offset, height);
    if idx == |col| - 1 {
      assert r[|r| - 1] == rep[|rep| - 1];
    } else {
      assert r[|r| - 1] == col[|col| - 1];
      StartsIncrease(col, idx, |col| - 1);
    }
  }

  /** Slot `a` lies within slot `b`: it starts no higher, and it is bounded
      no lower than `b` is. */
  predicate Within(a: Slot, b: Slot) {
    && b.startY <= a.startY
    && (b.endY.Some? ==> a.endY.Some? && a.endY.value <= b.endY.value)
  }

  /** Slot `s` lies within some slot of column `col`. */
  ghost predicate WithinSome(s: Slot, col: Column) {
    exists j :: 0 <= j < |col| && Within(s, col[j])
  }

  /** A split only carves up free space: every slot of the split column lies
      within some slot of the column before it. */
  lemma SplitColumnInside(col: Column, idx: nat, offset: int, height: int)
    requires idx < |col| && offset >= 0 && height >= 0
    requires Holds(col[idx], col[idx].startY + offset, height)
    ensures var r := SplitColumn(col, idx, offset, height);
      forall k :: 0 <= k < |r| ==> WithinSome(r[k], col)
  {
    var rep := Replacement(col[idx], offset, height);
    var r := SplitColumn(col, idx, offset, height);
    SplitColumnInPlace(col, idx, offset, height);
    ReplacementInside(col[idx], offset, height);
    forall k | 0 <= k < |r| ensures WithinSome(r[k], col) {
      if k < idx {
        assert Within(r[k], col[k]);
      } else if k < idx + |rep| {
        assert r[k] == rep[k - idx];
        assert Within(r[k], col[idx]);
      } else {
        assert r[k] == col[k - |rep| + 1];
        assert Within(r[k], col[k - |rep| + 1]);
      }
    }
  }

  /** After the split no free slot of the column overlaps the placed item:
      each ends at or above its top edge or starts below its bottom edge. */
  lemma SplitUncoversItem(col: Column, x: int, idx: nat, offset: int, height: int)
    requires WellFormedColumn(col, x)
    requires idx < |col| && offset >= 0 && height >= 0
    requires Holds(col[idx], col[idx].startY + offset, height)
    ensures var r := SplitColumn(col, idx, offset, height);
            var y := col[idx].startY + offset;
            forall k :: 0 <= k < |r| ==>
              (r[k].endY.Some? && r[k].endY.value <= y) || r[k].startY > y + height
  {
    var s := col[idx];
    var rep := Replacement(s, offset, height);
    var r := SplitColumn(col, idx, offset, height);
    var y := s.startY + offset;
    ReplacementInside(s, offset, height);
    assert |r| == |col| - 1 + |rep|;
    forall k | 0 <= k < |r|
      ensures (r[k].endY.Some? && r[k].endY.value <= y) || r[k].startY > y + height
    {
      if k < idx {
        assert r[k] == col[k];
        StartsIncrease(col, k, idx);
      } else if k < idx + |rep| {
        assert r[k] == rep[k - idx];
      } else {
        assert r[k] == col[k - |rep| + 1];
        StartsIncrease(col, idx, k - |rep| + 1);
      }
    }
  }
}
