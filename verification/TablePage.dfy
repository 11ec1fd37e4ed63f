/** Operations of the slotted table page and what they do to its visible contents. */
module TablePageOps {
  import opened Bytes
  import opened PageLayout

  // ---- Capacity.

  lemma CapacityFacts(s: nat)
    ensures Capacity(s) * (s + 8) + Remainder(s) == LOAD_DATA_SPACE && Remainder(s) < s + 8
    ensures Times(s, Capacity(s)) + 8 * Capacity(s) + Remainder(s) == LOAD_DATA_SPACE
  {
    assert Capacity(s) * (s + 8) == s * Capacity(s) + 8 * Capacity(s);
  }

  /** What a full page has left is too small for a record, but not for a tuple. */
  ghost predicate Spills(s: nat) {
    s <= Remainder(s) < TUPLE_RECORD_SZ
  }

  /** Exactly tuples of 1, 2, 3, 4 and 7 bytes do so. */
  lemma SpillingSizes(s: nat)
    requires s > 0
    ensures Spills(s) <==> s == 1 || s == 2 || s == 3 || s == 4 || s == 7
  {
    if s < 8 {
      assert s == 1 ==> Remainder(s) == 1;
      assert s == 2 ==> Remainder(s) == 2;
      assert s == 3 ==> Remainder(s) == 3;
      assert s == 4 ==> Remainder(s) == 4;
      assert s == 5 ==> Remainder(s) == 0;
      assert s == 6 ==> Remainder(s) == 4;
      assert s == 7 ==> Remainder(s) == 7;
    }
  }

  /** The first slot without a tuple. */
  function FirstEmpty(recs: seq<Rec>): (i: nat)
    ensures i <= |recs| && (i < |recs| ==> !Live(recs[i]))
    ensures forall j :: 0 <= j < i ==> Live(recs[j])
  {
    if recs == [] || !Live(recs[0]) then 0 else 1 + FirstEmpty(recs[1..])
  }

  /** The number of slots after the search for an empty one. */
  function SlotsAfterSearch(recs: seq<Rec>, fsp: int): nat {
    if FirstEmpty(recs) < |recs| || fsp - RecPos(|recs|) < TUPLE_RECORD_SZ then |recs| else |recs| + 1
  }

  lemma AllLiveCount(recs: seq<Rec>)
    ensures FirstEmpty(recs) == |recs| <==> LiveCount(recs) == |recs|
  {
    LiveCountBound(recs);
  }

  /** There is room for a tuple exactly below the capacity, or when the left-over of a full page spills. */
  lemma RoomIff(recs: seq<Rec>, fsp: int, s: nat)
    requires Packed(recs, fsp, s) && s > 0
    ensures LiveCount(recs) <= Capacity(s)
    ensures fsp - RecPos(SlotsAfterSearch(recs, fsp)) >= s <==> LiveCount(recs) < Capacity(s) || Spills(s)
    ensures LiveCount(recs) < Capacity(s) ==> FirstEmpty(recs) < SlotsAfterSearch(recs, fsp)
    ensures LiveCount(recs) == Capacity(s) && Spills(s) ==> FirstEmpty(recs) == |recs| && SlotsAfterSearch(recs, fsp) == |recs|
    ensures SlotsAfterSearch(recs, fsp) <= Capacity(s) ||
      (SlotsAfterSearch(recs, fsp) == Capacity(s) + 1 && Remainder(s) >= TUPLE_RECORD_SZ)
  {
    hide Capacity, Remainder, Times, Extents, LiveCount;
    var n, c := LiveCount(recs), Capacity(s);
    CapacityFacts(s);
    LiveCountBound(recs);
    AllLiveCount(recs);
    if n > c {
      TimesMonotone(s, c + 1, n);
      TimesNext(s, c);
    } else if n < c {
      TimesMonotone(s, n + 1, c);
      TimesNext(s, n);
    }
  }

  // ---- One more slot.

  lemma SlotAdded(recs: seq<Rec>, fsp: int, s: nat)
    requires Packed(recs, fsp, s) && s > 0
    requires FirstEmpty(recs) == |recs| && fsp - RecPos(|recs|) >= TUPLE_RECORD_SZ
    ensures Packed(recs + [Rec(0, 0)], fsp, s)
    ensures RecPos(|recs| + 1) <= PAGE_SIZE - Times(s, |recs|)
  {
    hide Capacity, Remainder, Times, LiveCount;
    RoomIff(recs, fsp, s);
    AllLiveCount(recs);
    LiveCountAppend(recs, Rec(0, 0));
  }

  lemma GrowSlots(d: Mem, d': Mem, s: nat)
    requires Inv(d, s) && s > 0
    requires FirstEmpty(Recs(d)) == |Recs(d)| && FreePtr(d) - RecPos(Count(d)) >= TUPLE_RECORD_SZ
    requires d' == PutInt(d, TUPLE_CNT_OFFSET, Count(d) + 1)
    ensures Inv(d', s) && Recs(d') == Recs(d) + [Rec(0, 0)] && FreePtr(d') == FreePtr(d)
    ensures Contents(d', s) == Contents(d, s)
  {
    hide Packed, Times, Decode;
    var recs, n := Recs(d), Count(d);
    SlotAdded(recs, FreePtr(d), s);
    WriteCount(d, d');
    ZeroInt(d, RecPos(n));
    ZeroInt(d, RecPos(n) + 4);
    SameInt(d, d', FREE_SPACE_PTR_OFFSET);
    ShrinkGap(n, s);
    ExtentsAbove(recs, FreePtr(d), s);
    SameCells(d, d', recs, recs + [Rec(0, 0)], s);
  }

  lemma ShrinkGap(n: nat, s: nat)
    ensures RecPos(n) <= RecPos(n + 1) && Times(s, n) <= Times(s, n + 1)
  {
    TimesNext(s, n);
  }

  lemma ExtentsAbove(recs: seq<Rec>, fsp: int, s: nat)
    requires Packed(recs, fsp, s)
    ensures RecPos(|recs|) <= fsp <= PAGE_SIZE
    ensures InArea(recs, fsp, s) && InArea(recs, RecPos(|recs|), s) && InArea(recs, 0, s)
  {
  }

  /** Tuples whose record and bytes stay the same are the same; added records are empty. */
  lemma SameCells(d: Mem, d': Mem, recs: seq<Rec>, recs': seq<Rec>, s: nat)
    requires |d| == |d'| == PAGE_SIZE && recs <= recs'
    requires InArea(recs, RecPos(|recs|), s)
    requires forall i :: |recs| <= i < |recs'| ==> !Live(recs'[i])
    requires forall k :: RecPos(|recs|) <= k < PAGE_SIZE ==> d'[k] == d[k]
    ensures InArea(recs', 0, s) && InArea(recs, 0, s)
    ensures Cells(d', recs', s) == Cells(d, recs, s)
  {
    assert forall i :: 0 <= i < |recs| ==> recs'[i] == recs[i];
    forall i: nat | i < |recs| && Live(recs[i]) ensures d'[recs[i].off..recs[i].off + s] == d[recs[i].off..recs[i].off + s] {
    }
  }

  // ---- Filling an empty slot.

  lemma SlotFilled(recs: seq<Rec>, fsp: int, s: nat, slot: nat)
    requires Packed(recs, fsp, s) && s > 0 && s < TWO_31
    requires slot < |recs| && !Live(recs[slot]) && fsp - s >= RecPos(|recs|)
    ensures Packed(recs[slot := Rec(fsp - s, s)], fsp - s, s)
    ensures fsp - s >= PAGE_SIZE - Times(s, |recs|)
  {
    hide Capacity, Remainder, Times, LiveCount;
    var recs' := recs[slot := Rec(fsp - s, s)];
    LiveCountUpdate(recs, slot, Rec(fsp - s, s));
    LiveCountBound(recs);
    TimesMonotone(s, LiveCount(recs) + 1, |recs|);
    TimesNext(s, LiveCount(recs));
  }

  lemma FillSlot(d: Mem, d': Mem, s: nat, slot: nat, t: Mem)
    requires Inv(d, s) && 0 < s == |t|
    requires slot < Count(d) && !Live(Recs(d)[slot]) && FreePtr(d) - s >= RecPos(Count(d))
    requires |d'| == PAGE_SIZE && FreePtr(d') == FreePtr(d) - s && RecAt(d', slot) == Rec(FreePtr(d) - s, s)
    requires forall k :: TUPLE_CNT_OFFSET <= k < PAGE_SIZE && !(RecPos(slot) <= k < RecPos(slot + 1)) && !(FreePtr(d) - s <= k < FreePtr(d)) ==> d'[k] == d[k]
    requires FreePtr(d) <= PAGE_SIZE && d'[FreePtr(d) - s..FreePtr(d)] == t
    ensures Inv(d', s)
    ensures Contents(d', s) == Contents(d, s)[slot := Cell(t, false)]
  {
    hide Packed, RecAt, Times;
    var recs, fsp := Recs(d), FreePtr(d);
    SlotFilled(recs, fsp, s, slot);
    WriteRec(d, d', slot, Rec(fsp - s, s));
    ExtentsAbove(recs, fsp, s);
    FilledCells(d, d', recs, fsp, s, slot, t);
  }

  lemma FilledCells(d: Mem, d': Mem, recs: seq<Rec>, fsp: int, s: nat, slot: nat, t: Mem)
    requires |d| == |d'| == PAGE_SIZE && slot < |recs| && !Live(recs[slot]) && 0 < fsp - s < fsp <= PAGE_SIZE && s == |t|
    requires InArea(recs, fsp, s)
    requires forall k :: fsp <= k < PAGE_SIZE ==> d'[k] == d[k]
    requires d'[fsp - s..fsp] == t
    ensures InArea(recs, 0, s) && InArea(recs[slot := Rec(fsp - s, s)], 0, s)
    ensures Cells(d', recs[slot := Rec(fsp - s, s)], s) == Cells(d, recs, s)[slot := Cell(t, false)]
  {
    var recs' := recs[slot := Rec(fsp - s, s)];
    forall i: nat | i < |recs| && Live(recs[i]) ensures d'[recs[i].off..recs[i].off + s] == d[recs[i].off..recs[i].off + s] {
    }
    var a, b := Cells(d', recs', s), Cells(d, recs, s)[slot := Cell(t, false)];
    forall i | i in a ensures i in b && a[i] == b[i] {
      if i == slot {
        assert recs'[i] == Rec(fsp - s, s);
      }
    }
    forall i | i in b ensures i in a {
    }
  }

  // ---- Emptying a slot: tuples below it move up by one tuple size.

  function Patched(r: Rec, x: Rec, s: nat): Rec {
    if Live(r) && r.off < x.off then Rec(r.off + s, r.size) else r
  }

  /** The records after the deletion of slot x. */
  function PatchedRecs(recs: seq<Rec>, x: nat, s: nat): (r: seq<Rec>)
    requires x < |recs|
    ensures |r| == |recs|
    ensures forall i :: 0 <= i < |recs| ==> r[i] == if i == x then Rec(0, 0) else Patched(recs[i], recs[x], s)
  {
    seq(|recs|, i requires 0 <= i < |recs| => if i == x then Rec(0, 0) else Patched(recs[i], recs[x], s))
  }

  lemma SlotEmptied(recs: seq<Rec>, fsp: int, s: nat, x: nat)
    requires Packed(recs, fsp, s) && s > 0 && x < |recs| && Live(recs[x])
    ensures Packed(PatchedRecs(recs, x, s), fsp + s, s)
    ensures fsp >= PAGE_SIZE - Times(s, |recs|)
  {
    hide Capacity, Remainder, Times, LiveCount, Extents;
    var recs' := PatchedRecs(recs, x, s);
    LiveCountUpdate(recs, x, Rec(0, 0));
    EmptiedExtents(recs, fsp, s, x);
    LiveCountSame(recs[x := Rec(0, 0)], recs');
    LiveCountBound(recs);
    TimesMonotone(s, LiveCount(recs), |recs|);
    TimesNext(s, LiveCount(recs'));
  }

  lemma EmptiedExtents(recs: seq<Rec>, fsp: int, s: nat, x: nat)
    requires Extents(recs, fsp, s) && fsp > 0 && x < |recs| && Live(recs[x])
    ensures Extents(PatchedRecs(recs, x, s), fsp + s, s)
    ensures forall i :: 0 <= i < |recs| ==> (Live(PatchedRecs(recs, x, s)[i]) <==> i != x && Live(recs[i]))
  {
    var recs' := PatchedRecs(recs, x, s);
    forall i | 0 <= i < |recs| && Live(recs'[i]) ensures Live(recs[i]) && i != x && Extent(recs'[i], fsp + s, s) {
      assert Apart(recs[i], recs[x], s);
    }
    forall i, j | 0 <= i < |recs| && 0 <= j < |recs| && i != j && Live(recs'[i]) && Live(recs'[j]) ensures Apart(recs'[i], recs'[j], s) {
      assert Apart(recs[i], recs[x], s) && Apart(recs[j], recs[x], s) && Apart(recs[i], recs[j], s);
    }
  }

  /** Memory with the bytes from fsp up to the deleted tuple at x moved up by its size. */
  function MovedUp(d: Mem, fsp: nat, x: nat, s: nat): Mem
    requires fsp <= x && x + s <= |d|
  {
    PutBytes(d, fsp + s, d[fsp..x])
  }

  /** The memory after the deletion of slot x. */
  ghost predicate Compacted(d: Mem, d': Mem, x: nat, s: nat)
    requires Readable(d) && x < Count(d)
  {
    var fsp, off := FreePtr(d), Recs(d)[x].off;
    && 0 <= fsp <= off <= PAGE_SIZE - s
    && |d'| == PAGE_SIZE && FreePtr(d') == fsp + s
    && Readable(d') && Recs(d') == PatchedRecs(Recs(d), x, s)
    && d'[RecPos(Count(d))..] == MovedUp(d, fsp, off, s)[RecPos(Count(d))..]
  }

  lemma EmptySlot(d: Mem, d': Mem, s: nat, x: nat)
    requires Inv(d, s) && s > 0 && x < Count(d) && Live(Recs(d)[x]) && Compacted(d, d', x, s)
    ensures Inv(d', s)
    ensures x in Contents(d, s) && Contents(d', s) == Contents(d, s) - {x}
  {
    hide Packed, Times, Decode, MovedUp, ZeroGap, InArea, CellAt, Extents;
    var recs, fsp := Recs(d), FreePtr(d);
    SlotEmptied(recs, fsp, s, x);
    ExtentsAbove(recs, fsp, s);
    ExtentsAbove(PatchedRecs(recs, x, s), fsp + s, s);
    PackedApart(recs, fsp, s, x);
    EmptiedCells(d, d', recs, fsp, s, x);
    EmptiedGap(d, d', recs[x].off, fsp, s, RecPos(Count(d)), Count(d));
  }

  lemma EmptiedGap(d: Mem, d': Mem, x: nat, fsp: nat, s: nat, lo: nat, n: nat)
    requires |d| == |d'| == PAGE_SIZE && lo == RecPos(n) <= fsp <= x <= PAGE_SIZE - s
    requires d'[lo..] == MovedUp(d, fsp, x, s)[lo..] && ZeroGap(d, n, s) && fsp >= PAGE_SIZE - Times(s, n)
    ensures ZeroGap(d', n, s)
  {
    hide Times;
    forall k | RecPos(n) <= k < PAGE_SIZE - Times(s, n) ensures d'[k] == 0 {
      assert d'[k] == d'[lo..][k - lo] == MovedUp(d, fsp, x, s)[lo..][k - lo];
    }
  }

  lemma PackedApart(recs: seq<Rec>, fsp: int, s: nat, x: nat)
    requires Packed(recs, fsp, s) && x < |recs| && Live(recs[x])
    ensures forall i :: 0 <= i < |recs| && i != x && Live(recs[i]) ==> recs[i].off + s <= recs[x].off || recs[x].off + s <= recs[i].off
  {
    assert forall i :: 0 <= i < |recs| && i != x && Live(recs[i]) ==> Apart(recs[i], recs[x], s);
  }

  lemma MovedByte(d: Mem, fsp: nat, x: nat, s: nat, k: nat)
    requires fsp <= k && fsp <= x && x + s <= |d| && (k < x || x + s <= k < |d|)
    ensures MovedUp(d, fsp, x, s)[if k < x then k + s else k] == d[k]
  {
    var area := d[fsp..x];
    if k < x {
      assert area[k - fsp] == d[k];
    }
  }

  lemma MovedTuple(d: Mem, d': Mem, o: int, x: int, fsp: int, s: nat, lo: nat)
    requires |d| == |d'| == PAGE_SIZE && lo <= fsp <= o <= PAGE_SIZE - s && fsp <= x <= PAGE_SIZE - s && s > 0
    requires o + s <= x || x + s <= o
    requires d'[lo..] == MovedUp(d, fsp, x, s)[lo..]
    ensures var o' := if o < x then o + s else o;
      o' <= PAGE_SIZE - s && d'[o'..o' + s] == d[o..o + s]
  {
    var o', m := if o < x then o + s else o, MovedUp(d, fsp, x, s);
    var a, b := d'[o'..o' + s], d[o..o + s];
    forall k | 0 <= k < s ensures a[k] == b[k] {
      assert d'[o' + k] == d'[lo..][o' + k - lo] == m[lo..][o' + k - lo] == m[o' + k];
      assert m[o' + k] == d[o + k] by {
        MovedByte(d, fsp, x, s, o + k);
      }
    }
  }

  lemma EmptiedCells(d: Mem, d': Mem, recs: seq<Rec>, fsp: int, s: nat, x: nat)
    requires |d| == |d'| == PAGE_SIZE && x < |recs| && Live(recs[x]) && RecPos(|recs|) <= fsp && s > 0
    requires InArea(recs, fsp, s)
    requires forall i :: 0 <= i < |recs| && i != x && Live(recs[i]) ==> recs[i].off + s <= recs[x].off || recs[x].off + s <= recs[i].off
    requires d'[RecPos(|recs|)..] == MovedUp(d, fsp, recs[x].off, s)[RecPos(|recs|)..]
    ensures InArea(recs, 0, s) && InArea(PatchedRecs(recs, x, s), 0, s)
    ensures Cells(d', PatchedRecs(recs, x, s), s) == Cells(d, recs, s) - {x}
  {
    hide MovedUp;
    var recs' := PatchedRecs(recs, x, s);
    forall i: nat | i < |recs| && i != x && Live(recs[i])
      ensures Live(recs'[i]) && 0 <= recs'[i].off <= PAGE_SIZE - s && CellAt(d', recs'[i], s) == CellAt(d, recs[i], s)
    {
      MovedTuple(d, d', recs[i].off, recs[x].off, fsp, s, RecPos(|recs|));
    }
    OneLess(d, d', recs, recs', s, x);
  }

  lemma OneLess(d: Mem, d': Mem, recs: seq<Rec>, recs': seq<Rec>, s: nat, x: nat)
    requires |d| == |d'| == PAGE_SIZE && |recs'| == |recs| && InArea(recs, 0, s) && x < |recs| && !Live(recs'[x])
    requires forall i :: 0 <= i < |recs| && i != x ==> (Live(recs'[i]) <==> Live(recs[i]))
    requires forall i :: 0 <= i < |recs| && i != x && Live(recs[i]) ==>
      0 <= recs'[i].off <= PAGE_SIZE - s && CellAt(d', recs'[i], s) == CellAt(d, recs[i], s)
    ensures InArea(recs', 0, s) && Cells(d', recs', s) == Cells(d, recs, s) - {x}
  {
    hide CellAt;
    var a, b := Cells(d', recs', s), Cells(d, recs, s) - {x};
    assert a.Keys == b.Keys;
  }

  // ---- Overwriting a tuple, and the delete mask.

  lemma ReplaceTuple(d: Mem, d': Mem, s: nat, slot: nat, t: Mem)
    requires Inv(d, s) && s == |t| && slot < Count(d) && Live(Recs(d)[slot])
    requires var off := Recs(d)[slot].off; 0 <= off <= PAGE_SIZE - s && d' == PutBytes(d, off, t)
    ensures Inv(d', s)
    ensures Contents(d', s) == Contents(d, s)[slot := Cell(t, IsMasked(Recs(d)[slot].size))]
  {
    hide Packed, Times, Decode;
    var recs, fsp := Recs(d), FreePtr(d);
    ExtentsAbove(recs, fsp, s);
    SameRecs(d, d');
    SameInt(d, d', FREE_SPACE_PTR_OFFSET);
    PackedApart(recs, fsp, s, slot);
    SlotEmptiedGap(recs, fsp, s);
    ReplacedCells(d, d', recs, fsp, s, slot, t);
  }

  lemma SlotEmptiedGap(recs: seq<Rec>, fsp: int, s: nat)
    requires Packed(recs, fsp, s)
    ensures fsp >= PAGE_SIZE - Times(s, |recs|)
  {
    LiveCountBound(recs);
    TimesMonotone(s, LiveCount(recs), |recs|);
  }

  lemma ReplacedCells(d: Mem, d': Mem, recs: seq<Rec>, fsp: int, s: nat, x: nat, t: Mem)
    requires |d| == |d'| == PAGE_SIZE && x < |recs| && Live(recs[x]) && 0 <= fsp && s == |t|
    requires InArea(recs, fsp, s)
    requires forall i :: 0 <= i < |recs| && i != x && Live(recs[i]) ==> recs[i].off + s <= recs[x].off || recs[x].off + s <= recs[i].off
    requires d' == PutBytes(d, recs[x].off, t)
    ensures InArea(recs, 0, s)
    ensures Cells(d', recs, s) == Cells(d, recs, s)[x := Cell(t, IsMasked(recs[x].size))]
  {
    hide PutBytes;
    forall i: nat | i < |recs| && Live(recs[i]) && i != x
      ensures d'[recs[i].off..recs[i].off + s] == d[recs[i].off..recs[i].off + s]
    {
    }
    assert d'[recs[x].off..recs[x].off + s] == t;
    var a, b := Cells(d', recs, s), Cells(d, recs, s)[x := Cell(t, IsMasked(recs[x].size))];
    forall i | i in a ensures i in b && a[i] == b[i] {
    }
    assert a.Keys == b.Keys;
  }

  lemma Remask(d: Mem, d': Mem, s: nat, slot: nat, size: int)
    requires Inv(d, s) && slot < Count(d) && Live(Recs(d)[slot]) && IsInt32(size)
    requires size == SetMask(Recs(d)[slot].size) || size == ClearMask(Recs(d)[slot].size)
    requires s < TWO_31 && d' == PutInt(d, RecPos(slot) + 4, size)
    ensures Inv(d', s)
    ensures slot in Contents(d, s)
    ensures Contents(d', s) == Contents(d, s)[slot := Contents(d, s)[slot].(marked := IsMasked(size))]
  {
    hide Packed, Times, Decode, PutInt;
    var recs, fsp := Recs(d), FreePtr(d);
    var r := Rec(recs[slot].off, size);
    SameInt(d, d', RecPos(slot));
    WriteRec(d, d', slot, r);
    SameInt(d, d', FREE_SPACE_PTR_OFFSET);
    ExtentsAbove(recs, fsp, s);
    RemaskPacked(recs, fsp, s, slot, size);
    RemaskedCells(d, d', recs, s, slot, size);
  }

  lemma RemaskedCells(d: Mem, d': Mem, recs: seq<Rec>, s: nat, slot: nat, size: int)
    requires |d| == |d'| == PAGE_SIZE && slot < |recs| && Live(recs[slot])
    requires InArea(recs, RecPos(|recs|), s)
    requires forall k :: RecPos(|recs|) <= k < PAGE_SIZE ==> d'[k] == d[k]
    ensures InArea(recs, 0, s) && InArea(recs[slot := Rec(recs[slot].off, size)], 0, s)
    ensures slot in Cells(d, recs, s)
    ensures Cells(d', recs[slot := Rec(recs[slot].off, size)], s)
         == Cells(d, recs, s)[slot := Cells(d, recs, s)[slot].(marked := IsMasked(size))]
  {
    forall i: nat | i < |recs| && Live(recs[i]) ensures d'[recs[i].off..recs[i].off + s] == d[recs[i].off..recs[i].off + s] {
    }
  }

  lemma RemaskPacked(recs: seq<Rec>, fsp: int, s: nat, slot: nat, size: int)
    requires Packed(recs, fsp, s) && slot < |recs| && Live(recs[slot]) && s < TWO_31
    requires size == SetMask(recs[slot].size) || size == ClearMask(recs[slot].size)
    ensures Packed(recs[slot := Rec(recs[slot].off, size)], fsp, s)
  {
    hide Capacity, Remainder, Times, LiveCount;
    var r := Rec(recs[slot].off, size);
    LiveCountUpdate(recs, slot, r);
    assert Extent(recs[slot], fsp, s);
  }
}
