/** The table page as an object over its page memory. */
module TablePages {
  import opened Bytes
  import opened PageLayout
  import opened TablePageOps

  const INVALID_SLOT_NUM := -1

  datatype Rid = Rid(pageId: int, slot: int)

  const NO_RID := Rid(INVALID_PAGE_ID, INVALID_SLOT_NUM)

  class TablePage {
    const data: array<byte>
    const pageId: int

    ghost predicate Valid(s: nat)
      reads data
    {
      data.Length == PAGE_SIZE && Inv(data[..], s)
    }

    ghost function Tuples(s: nat): map<nat, Cell>
      requires Valid(s)
      reads data
    {
      Contents(data[..], s)
    }

    constructor (pageId: int)
      ensures this.pageId == pageId && fresh(data) && data.Length == PAGE_SIZE
    {
      this.pageId := pageId;
      data := new byte[PAGE_SIZE](_ => 0);
    }

    /** An initialised page holds nothing and is ready for tuples of any size. */
    method Init(prevPgid: int, nextPgid: int)
      requires data.Length == PAGE_SIZE && IsInt32(prevPgid) && IsInt32(nextPgid)
      modifies data
      ensures forall s: nat :: s > 0 ==> Valid(s) && Tuples(s) == map[]
      ensures GetInt(data[..], PREV_PGID_OFFSET) == prevPgid && GetInt(data[..], NEXT_PGID_OFFSET) == nextPgid
      ensures data[..COM_PG_HEADER_SZ] == old(data[..COM_PG_HEADER_SZ])
    {
      hide PutInt, Decode;
      for k := COM_PG_HEADER_SZ to PAGE_SIZE
        invariant forall j :: COM_PG_HEADER_SZ <= j < k ==> data[j] == 0
        invariant forall j :: 0 <= j < COM_PG_HEADER_SZ ==> data[j] == old(data[j])
      {
        data[k] := 0;
      }
      WriteInt(data, PREV_PGID_OFFSET, prevPgid);
      WriteInt(data, NEXT_PGID_OFFSET, nextPgid);
      ghost var d := data[..];
      WriteInt(data, TUPLE_CNT_OFFSET, 0);
      ghost var d1 := data[..];
      WriteInt(data, FREE_SPACE_PTR_OFFSET, PAGE_SIZE);
      ghost var d2 := data[..];
      SameInt(d1, d2, TUPLE_CNT_OFFSET);
      SameInt(d1, d2, PREV_PGID_OFFSET);
      SameInt(d1, d2, NEXT_PGID_OFFSET);
      SameInt(d, d1, PREV_PGID_OFFSET);
      SameInt(d, d1, NEXT_PGID_OFFSET);
      assert forall j :: FIRST_TUPLE_OFFSET <= j < PAGE_SIZE ==> d2[j] == 0;
      forall s: nat | s > 0 ensures Inv(data[..], s) && Contents(data[..], s) == map[] {
        EmptyPage(d2, s);
      }
    }

    /** Finds a slot without a tuple, adding one if need be; -1 if there is no room for a record. */
    method GetEmptySlot() returns (slot: int)
      requires data.Length == PAGE_SIZE && Readable(data[..])
      modifies data
      ensures var d := old(data[..]); var recs, fsp := Recs(d), FreePtr(d);
        if FirstEmpty(recs) < |recs| then slot == FirstEmpty(recs) && data[..] == d
        else if fsp - RecPos(|recs|) < TUPLE_RECORD_SZ then slot == -1 && data[..] == d
        else slot == |recs| && data[..] == PutInt(d, TUPLE_CNT_OFFSET, |recs| + 1)
    {
      ghost var recs := Recs(data[..]);
      var tupleCount := ReadInt(data, TUPLE_CNT_OFFSET);
      for slotNum := 0 to tupleCount
        invariant data[..] == old(data[..])
        invariant forall j :: 0 <= j < slotNum ==> Live(recs[j])
      {
        var offset := ReadInt(data, RecPos(slotNum));
        assert recs[slotNum] == RecAt(data[..], slotNum);
        if offset == 0 {
          FirstEmptyIs(recs, slotNum);
          return slotNum;
        }
      }
      FirstEmptyIs(recs, tupleCount);
      var freePtr := ReadInt(data, FREE_SPACE_PTR_OFFSET);
      if freePtr - RecPos(tupleCount) < TUPLE_RECORD_SZ {
        return -1;
      }
      WriteInt(data, TUPLE_CNT_OFFSET, tupleCount + 1);
      return tupleCount;
    }

    /**
     * Succeeds exactly below the capacity, except that a page full of tuples of a spilling size
     * accepts one more and overwrites its tuple count with the tuple size.
     */
    method InsertTuple(tuple: Mem) returns (ok: bool, rid: Rid)
      requires |tuple| > 0 && Valid(|tuple|)
      modifies data
      ensures ok <==> |old(Tuples(|tuple|))| < Capacity(|tuple|) || Spills(|tuple|)
      ensures |old(Tuples(|tuple|))| < Capacity(|tuple|) ==>
        && Valid(|tuple|) && rid.pageId == pageId && rid.slot == FirstEmpty(Recs(old(data[..])))
        && Tuples(|tuple|) == old(Tuples(|tuple|))[rid.slot := Cell(tuple, false)]
      ensures |old(Tuples(|tuple|))| == Capacity(|tuple|) && !Spills(|tuple|) ==>
        Valid(|tuple|) && Tuples(|tuple|) == old(Tuples(|tuple|)) && rid == NO_RID
      ensures |old(Tuples(|tuple|))| == Capacity(|tuple|) && Spills(|tuple|) ==>
        rid.slot == -1 && data.Length == PAGE_SIZE && Count(data[..]) == |tuple|
      ensures |old(Tuples(|tuple|))| <= Capacity(|tuple|)
      ensures data[..FREE_SPACE_PTR_OFFSET] == old(data[..FREE_SPACE_PTR_OFFSET])
    {
      hide Inv, Contents, PutInt, PutBytes, Decode, WithTuple, Capacity, Remainder, Spills, FirstEmpty, RecAt, Live;
      ghost var d, s := data[..], |tuple|;
      InvReadable(d, s);
      var slot := GetEmptySlot();
      ghost var d1 := data[..];
      InsertCases(d, d1, s, slot);
      var tupleCount := ReadInt(data, TUPLE_CNT_OFFSET);
      var freePtr := ReadInt(data, FREE_SPACE_PTR_OFFSET);
      if freePtr - RecPos(tupleCount) < |tuple| {
        return false, NO_RID;
      }
      PutTuple(freePtr - |tuple|, slot, tuple);
      rid := Rid(pageId, slot);
      ok := true;
      if slot >= 0 {
        WrittenTuple(d1, data[..], s, slot, tuple);
      } else {
        SpilledCount(d1, freePtr - |tuple|, tuple);
      }
    }

    /** Removes exactly the given slot; every other tuple keeps its slot and its bytes. */
    method ApplyDelete(slot: nat, ghost s: nat)
      requires s > 0 && Valid(s) && slot in Tuples(s)
      modifies data
      ensures Valid(s) && Tuples(s) == old(Tuples(s)) - {slot}
      ensures data[..FREE_SPACE_PTR_OFFSET] == old(data[..FREE_SPACE_PTR_OFFSET])
    {
      hide Inv, Contents, Decode, MovedUp, PatchedRecs, PatchAll;
      ghost var d := data[..];
      InvReadable(d, s);
      LiveTuple(d, s, slot);
      var offset := ReadInt(data, RecPos(slot));
      var size := ReadInt(data, RecPos(slot) + 4);
      assert Recs(d)[slot] == Rec(offset, size);
      var freePtr := ReadInt(data, FREE_SPACE_PTR_OFFSET);
      size := ClearMask(size);
      ClearAndMove(slot, freePtr, offset, size);
      ghost var d1 := data[..];
      PatchOffsets(offset, size);
      AllPatched(d, d1, data[..], s, slot);
      EmptySlot(d, data[..], s, slot);
    }

    /** Clears the record and moves the data below the tuple up over it. */
    method ClearAndMove(slot: nat, freePtr: nat, offset: nat, size: nat)
      requires data.Length == PAGE_SIZE && Readable(data[..]) && slot < Count(data[..])
      requires RecPos(Count(data[..])) <= freePtr <= offset && offset + size <= PAGE_SIZE
      modifies data
      ensures HoleClosed(old(data[..]), data[..], slot, freePtr, offset, size)
    {
      hide Decode, PutInt, PutBytes, MovedUp;
      ghost var d := data[..];
      WriteBytes(data, RecPos(slot), [0, 0, 0, 0, 0, 0, 0, 0]);
      ghost var d1 := data[..];
      ClearedRec(d, d1, slot);
      MoveBytesUp(data, freePtr + size, freePtr, offset - freePtr);
      ghost var d2 := data[..];
      CompactedData(d, d1, d2, freePtr, offset, size, slot);
      WriteInt(data, FREE_SPACE_PTR_OFFSET, freePtr + size);
      FreePtrMoved(d2, data[..], Recs(d)[slot := Rec(0, 0)]);
    }

    /** Every tuple that lay below the deleted one has moved up by the deleted size. */
    method PatchOffsets(deleted: int, size: nat)
      requires data.Length == PAGE_SIZE && Readable(data[..]) && 0 <= deleted <= PAGE_SIZE && size <= PAGE_SIZE
      modifies data
      ensures Readable(data[..])
      ensures Recs(data[..]) == PatchAll(Recs(old(data[..])), deleted, size, |Recs(old(data[..]))|)
      ensures data[RecPos(Count(old(data[..])))..] == old(data[RecPos(Count(data[..]))..])
      ensures data[..TUPLE_CNT_OFFSET] == old(data[..TUPLE_CNT_OFFSET])
    {
      hide Decode, PutInt, PatchOne;
      ghost var d := data[..];
      ghost var recs := Recs(d);
      var tupleCount := ReadInt(data, TUPLE_CNT_OFFSET);
      PatchNone(recs, deleted, size);
      for i := 0 to tupleCount
        invariant Readable(data[..]) && Recs(data[..]) == PatchAll(recs, deleted, size, i)
        invariant data[RecPos(tupleCount)..] == d[RecPos(tupleCount)..]
        invariant data[..TUPLE_CNT_OFFSET] == d[..TUPLE_CNT_OFFSET]
      {
        ghost var d0 := data[..];
        var offset := ReadInt(data, RecPos(i));
        assert Recs(d0)[i] == recs[i] == RecAt(d0, i);
        PatchNext(recs, deleted, size, i);
        if offset != 0 && offset < deleted {
          WriteInt(data, RecPos(i), offset + size);
          PatchedSlot(d0, data[..], i, offset + size);
        }
      }
    }

    /** Overwrites a tuple in place; fails for an empty slot, another size, a marked tuple or a foreign page id. */
    method UpdateTuple(tuple: Mem, rid: Rid, ghost s: nat) returns (ok: bool)
      requires s > 0 && Valid(s) && 0 <= rid.slot && RecPos(rid.slot + 1) <= PAGE_SIZE
      modifies data
      ensures ok <==> rid.slot in old(Tuples(s)) && !old(Tuples(s))[rid.slot].marked && |tuple| == s && rid.pageId == pageId
      ensures Valid(s) && Tuples(s) == if ok then old(Tuples(s))[rid.slot := Cell(tuple, false)] else old(Tuples(s))
      ensures data[..FREE_SPACE_PTR_OFFSET] == old(data[..FREE_SPACE_PTR_OFFSET])
    {
      hide Inv, Contents, Decode, PutBytes;
      ghost var d := data[..];
      InvReadable(d, s);
      var offset := ReadInt(data, RecPos(rid.slot));
      var size := ReadInt(data, RecPos(rid.slot) + 4);
      var tupleCount := ReadInt(data, TUPLE_CNT_OFFSET);
      SlotMeaning(d, s, rid.slot);
      if rid.slot >= tupleCount || offset == 0 || size != |tuple| || rid.pageId != pageId {
        return false;
      }
      WriteBytes(data, offset, tuple);
      ReplaceTuple(d, data[..], s, rid.slot, tuple);
      ok := true;
    }

    /** Marks a tuple as deleted without removing it. */
    method MarkDelete(rid: Rid, ghost s: nat) returns (ok: bool)
      requires s > 0 && Valid(s) && 0 <= rid.slot && RecPos(rid.slot + 1) <= PAGE_SIZE
      modifies data
      ensures ok <==> rid.slot in old(Tuples(s)) && rid.pageId == pageId
      ensures Valid(s)
      ensures Tuples(s) == if ok then old(Tuples(s))[rid.slot := old(Tuples(s))[rid.slot].(marked := true)] else old(Tuples(s))
      ensures data[..FREE_SPACE_PTR_OFFSET] == old(data[..FREE_SPACE_PTR_OFFSET])
    {
      hide Inv, Contents, Decode, PutInt;
      ghost var d := data[..];
      InvReadable(d, s);
      var offset := ReadInt(data, RecPos(rid.slot));
      var tupleCount := ReadInt(data, TUPLE_CNT_OFFSET);
      SlotMeaning(d, s, rid.slot);
      if rid.slot >= tupleCount || offset == 0 || pageId != rid.pageId {
        return false;
      }
      var size := ReadInt(data, RecPos(rid.slot) + 4);
      WriteInt(data, RecPos(rid.slot) + 4, SetMask(size));
      HeaderKept(d, RecPos(rid.slot) + 4, SetMask(size));
      Remask(d, data[..], s, rid.slot, SetMask(size));
      ok := true;
    }

    /** Takes the mark back. */
    method RollbackDelete(rid: Rid, ghost s: nat)
      requires s > 0 && Valid(s) && 0 <= rid.slot && RecPos(rid.slot + 1) <= PAGE_SIZE
      modifies data
      ensures Valid(s)
      ensures Tuples(s) == if rid.slot in old(Tuples(s))
        then old(Tuples(s))[rid.slot := old(Tuples(s))[rid.slot].(marked := false)] else old(Tuples(s))
      ensures data[..FREE_SPACE_PTR_OFFSET] == old(data[..FREE_SPACE_PTR_OFFSET])
    {
      hide Inv, Contents, Decode, PutInt;
      ghost var d := data[..];
      InvReadable(d, s);
      var offset := ReadInt(data, RecPos(rid.slot));
      var tupleCount := ReadInt(data, TUPLE_CNT_OFFSET);
      SlotMeaning(d, s, rid.slot);
      if rid.slot >= tupleCount || offset == 0 {
        return;
      }
      var size := ReadInt(data, RecPos(rid.slot) + 4);
      WriteInt(data, RecPos(rid.slot) + 4, ClearMask(size));
      HeaderKept(d, RecPos(rid.slot) + 4, ClearMask(size));
      Remask(d, data[..], s, rid.slot, ClearMask(size));
    }

    /** Reads a tuple, marked or not. */
    method GetTuple(slot: nat, ghost s: nat) returns (ok: bool, tuple: Mem)
      requires s > 0 && Valid(s) && RecPos(slot + 1) <= PAGE_SIZE
      ensures ok <==> slot in Tuples(s)
      ensures ok ==> tuple == Tuples(s)[slot].bytes
    {
      hide Inv, Contents, Decode;
      InvReadable(data[..], s);
      SlotMeaning(data[..], s, slot);
      var offset := ReadInt(data, RecPos(slot));
      var size := ReadInt(data, RecPos(slot) + 4);
      if IsMasked(size) {
        size := ClearMask(size);
      }
      var tupleCount := ReadInt(data, TUPLE_CNT_OFFSET);
      if slot >= tupleCount || offset == 0 {
        return false, [];
      }
      return true, data[offset..offset + size];
    }

    /** The first tuple in slot order at or behind `from`. */
    method NextLive(from: nat) returns (slot: int)
      requires data.Length == PAGE_SIZE && Readable(data[..])
      ensures slot == NextSlot(Recs(data[..]), from)
    {
      ghost var recs := Recs(data[..]);
      var tupleCount := ReadInt(data, TUPLE_CNT_OFFSET);
      var i := from;
      while i < tupleCount
        invariant from <= i
        invariant NextSlot(recs, from) == NextSlot(recs, i)
      {
        var offset := ReadInt(data, RecPos(i));
        assert recs[i] == RecAt(data[..], i);
        if offset != 0 {
          return i;
        }
        i := i + 1;
      }
      return -1;
    }

    /** Copies the first tuple, which must not be marked: the size field is taken as it is. */
    method GetTheFirstTuple(ghost s: nat) returns (ok: bool, slot: int, tuple: Mem)
      requires s > 0 && Valid(s) && FirstUnmarked(data[..], s)
      ensures ok <==> Tuples(s) != map[]
      ensures ok ==> slot in Tuples(s) && tuple == Tuples(s)[slot].bytes && forall i :: i in Tuples(s) ==> slot <= i
    {
      hide Inv, Contents, Decode, NextSlot, Recs, FirstUnmarked;
      InvReadable(data[..], s);
      slot := NextLive(0);
      FirstStored(data[..], s);
      if slot < 0 {
        return false, slot, [];
      }
      FirstRecord(data[..], s, slot);
      var offset := ReadInt(data, RecPos(slot));
      var size := ReadInt(data, RecPos(slot) + 4);
      return true, slot, data[offset..offset + size];
    }

    /** The tuple behind the current one; the first tuple if there is no current one. */
    method GetNextTupleRid(cur: Rid) returns (ok: bool, next: Rid)
      requires data.Length == PAGE_SIZE && Readable(data[..]) && (cur.pageId != INVALID_PAGE_ID ==> cur.slot >= -1)
      ensures var n := NextSlot(Recs(data[..]), if cur.pageId == INVALID_PAGE_ID then 0 else cur.slot + 1);
        ok == (n >= 0) && next == if ok then Rid(pageId, n) else NO_RID
    {
      var n := NextLive(if cur.pageId == INVALID_PAGE_ID then 0 else cur.slot + 1);
      if n >= 0 {
        return true, Rid(pageId, n);
      }
      return false, NO_RID;
    }

    method GetStoredTupleCnt(ghost s: nat) returns (cnt: nat)
      requires Valid(s)
      ensures cnt == |Tuples(s)|
    {
      hide Inv, Contents, Decode, GetInt;
      InvReadable(data[..], s);
      ghost var recs := Recs(data[..]);
      var tupleCount := ReadInt(data, TUPLE_CNT_OFFSET);
      cnt := 0;
      for i := 0 to tupleCount
        invariant cnt == LiveCount(recs[..i])
      {
        var offset := ReadInt(data, RecPos(i));
        assert recs[i] == RecAt(data[..], i) && recs[..i + 1] == recs[..i] + [recs[i]];
        LiveCountAppend(recs[..i], recs[i]);
        if offset != 0 {
          cnt := cnt + 1;
        }
      }
      assert recs[..|recs|] == recs;
      TupleCount(data[..], s);
    }

    /** Writes a tuple, the free space pointer and the tuple's record. */
    method PutTuple(p: nat, slot: int, tuple: Mem)
      requires data.Length == PAGE_SIZE && p + |tuple| <= PAGE_SIZE && IsInt32(|tuple|)
      requires slot >= -1 && RecEnd(slot) <= PAGE_SIZE
      modifies data
      ensures data[..] == WithTuple(old(data[..]), p, slot, tuple)
    {
      hide PutInt, PutBytes;
      WriteBytes(data, p, tuple);
      WriteInt(data, FREE_SPACE_PTR_OFFSET, p);
      WriteInt(data, RecEnd(slot) - 8, p);
      WriteInt(data, RecEnd(slot) - 4, |tuple|);
    }
  }

  lemma HeaderKept(d: Mem, p: nat, x: int)
    requires FREE_SPACE_PTR_OFFSET <= p && p + 4 <= |d| && IsInt32(x)
    ensures PutInt(d, p, x)[..FREE_SPACE_PTR_OFFSET] == d[..FREE_SPACE_PTR_OFFSET]
  {
  }

  function RecEnd(slot: int): nat
    requires slot >= -1
  {
    FIRST_TUPLE_OFFSET + (slot + 1) * TUPLE_RECORD_SZ
  }

  function WithTuple(d: Mem, p: nat, slot: int, t: Mem): (r: Mem)
    requires |d| == PAGE_SIZE && p + |t| <= PAGE_SIZE && IsInt32(|t|) && slot >= -1 && RecEnd(slot) <= PAGE_SIZE
    ensures |r| == PAGE_SIZE
    ensures p >= FREE_SPACE_PTR_OFFSET ==> r[..FREE_SPACE_PTR_OFFSET] == d[..FREE_SPACE_PTR_OFFSET]
  {
    PutInt(PutInt(PutInt(PutBytes(d, p, t), FREE_SPACE_PTR_OFFSET, p), RecEnd(slot) - 8, p), RecEnd(slot) - 4, |t|)
  }

  /** The first live slot at or behind `from`, or -1. */
  function NextSlot(recs: seq<Rec>, from: nat): int
    decreases |recs| - from
  {
    if from >= |recs| then -1 else if Live(recs[from]) then from else NextSlot(recs, from + 1)
  }

  /** Walking with NextSlot visits the stored tuples in slot order and skips none. */
  lemma {:induction false} NextSlotExact(recs: seq<Rec>, from: nat)
    ensures var n := NextSlot(recs, from);
      && (n == -1 || (from <= n < |recs| && Live(recs[n])))
      && (forall i :: from <= i < |recs| && Live(recs[i]) ==> n != -1 && n <= i)
    decreases |recs| - from
  {
    if from < |recs| && !Live(recs[from]) {
      NextSlotExact(recs, from + 1);
    }
  }

  function PatchOne(r: Rec, deleted: int, size: nat): Rec {
    if r.off != 0 && r.off < deleted then Rec(r.off + size, r.size) else r
  }

  function PatchAll(recs: seq<Rec>, deleted: int, size: nat, n: nat): (r: seq<Rec>)
    requires n <= |recs|
    ensures |r| == |recs|
    ensures forall i :: 0 <= i < |recs| ==> r[i] == if i < n then PatchOne(recs[i], deleted, size) else recs[i]
  {
    seq(|recs|, i requires 0 <= i < |recs| => if i < n then PatchOne(recs[i], deleted, size) else recs[i])
  }

  lemma PatchNone(recs: seq<Rec>, deleted: int, size: nat)
    ensures PatchAll(recs, deleted, size, 0) == recs
  {
  }

  lemma PatchNext(recs: seq<Rec>, deleted: int, size: nat, i: nat)
    requires i < |recs|
    ensures PatchAll(recs, deleted, size, i + 1) ==
      PatchAll(recs, deleted, size, i)[i := if recs[i].off != 0 && recs[i].off < deleted then Rec(recs[i].off + size, recs[i].size) else recs[i]]
  {
  }

  lemma PatchedAll(recs: seq<Rec>, x: nat, s: nat)
    requires x < |recs|
    ensures PatchAll(recs[x := Rec(0, 0)], recs[x].off, s, |recs|) == PatchedRecs(recs, x, s)
  {
  }

  lemma PatchedSlot(d: Mem, d': Mem, i: nat, off: int)
    requires Readable(d) && i < Count(d) && IsInt32(off) && d' == PutInt(d, RecPos(i), off)
    ensures Readable(d') && Recs(d') == Recs(d)[i := Rec(off, Recs(d)[i].size)]
    ensures d'[RecPos(Count(d))..] == d[RecPos(Count(d))..] && d'[..TUPLE_CNT_OFFSET] == d[..TUPLE_CNT_OFFSET]
  {
    hide PutInt, Decode;
    SameInt(d, d', RecPos(i) + 4);
    WriteRec(d, d', i, Rec(off, Recs(d)[i].size));
  }

  lemma ClearedRec(d: Mem, d': Mem, i: nat)
    requires Readable(d) && i < Count(d) && d' == PutBytes(d, RecPos(i), [0, 0, 0, 0, 0, 0, 0, 0])
    ensures Readable(d') && Recs(d') == Recs(d)[i := Rec(0, 0)] && FreePtr(d') == FreePtr(d)
  {
    hide PutBytes, Decode;
    ZeroInt(d', RecPos(i));
    ZeroInt(d', RecPos(i) + 4);
    WriteRec(d, d', i, Rec(0, 0));
    SameInt(d, d', FREE_SPACE_PTR_OFFSET);
  }

  lemma CompactedData(d: Mem, d1: Mem, d2: Mem, fsp: nat, off: nat, s: nat, x: nat)
    requires Readable(d) && x < Count(d) && RecPos(Count(d)) <= fsp <= off && off + s <= PAGE_SIZE
    requires d1 == PutBytes(d, RecPos(x), [0, 0, 0, 0, 0, 0, 0, 0]) && Readable(d1) && Recs(d1) == Recs(d)[x := Rec(0, 0)]
    requires d2 == PutBytes(d1, fsp + s, d1[fsp..off])
    ensures Readable(d2) && Recs(d2) == Recs(d)[x := Rec(0, 0)]
    ensures d2[RecPos(Count(d))..] == MovedUp(d, fsp, off, s)[RecPos(Count(d))..]
    ensures d2[..FREE_SPACE_PTR_OFFSET] == d[..FREE_SPACE_PTR_OFFSET]
  {
    hide PutBytes, Decode;
    SameRecs(d1, d2);
    assert d1[fsp..off] == d[fsp..off];
  }

  lemma FreePtrMoved(d: Mem, d': Mem, recs: seq<Rec>)
    requires Readable(d) && Recs(d) == recs && |d'| == PAGE_SIZE
    requires forall k :: 0 <= k < PAGE_SIZE && !(FREE_SPACE_PTR_OFFSET <= k < FREE_SPACE_PTR_OFFSET + 4) ==> d'[k] == d[k]
    ensures Readable(d') && Recs(d') == recs
    ensures d'[..FREE_SPACE_PTR_OFFSET] == d[..FREE_SPACE_PTR_OFFSET] && d'[RecPos(|recs|)..] == d[RecPos(|recs|)..]
  {
    SameRecs(d, d');
  }

  /** The record is empty, the data below it has moved up, and the free space pointer follows. */
  ghost predicate HoleClosed(d: Mem, d': Mem, x: nat, fsp: nat, off: nat, s: nat)
    requires Readable(d) && x < Count(d) && fsp <= off && off + s <= PAGE_SIZE
  {
    && Readable(d') && Recs(d') == Recs(d)[x := Rec(0, 0)] && FreePtr(d') == fsp + s
    && d'[RecPos(Count(d))..] == MovedUp(d, fsp, off, s)[RecPos(Count(d))..]
    && d'[..FREE_SPACE_PTR_OFFSET] == d[..FREE_SPACE_PTR_OFFSET]
  }

  lemma AllPatched(d: Mem, d1: Mem, d': Mem, s: nat, x: nat)
    requires Readable(d) && x < Count(d) && Readable(d') && Readable(d1)
    requires 0 <= FreePtr(d) <= Recs(d)[x].off <= PAGE_SIZE - s
    requires HoleClosed(d, d1, x, FreePtr(d), Recs(d)[x].off, s)
    requires Recs(d') == PatchAll(Recs(d1), Recs(d)[x].off, s, |Recs(d1)|)
    requires d'[RecPos(Count(d1))..] == d1[RecPos(Count(d1))..] && d'[..TUPLE_CNT_OFFSET] == d1[..TUPLE_CNT_OFFSET]
    ensures Compacted(d, d', x, s)
    ensures d'[..FREE_SPACE_PTR_OFFSET] == d[..FREE_SPACE_PTR_OFFSET]
  {
    hide Decode, MovedUp;
    PatchedAll(Recs(d), x, s);
    assert forall k :: 0 <= k < TUPLE_CNT_OFFSET ==> d'[k] == d'[..TUPLE_CNT_OFFSET][k] == d1[k];
    SameInt(d1, d', FREE_SPACE_PTR_OFFSET);
    assert d'[..FREE_SPACE_PTR_OFFSET] == d1[..FREE_SPACE_PTR_OFFSET];
  }

  ghost predicate FirstUnmarked(d: Mem, s: nat)
    requires Inv(d, s)
  {
    forall i :: i in Contents(d, s) && (forall j :: j in Contents(d, s) ==> i <= j) ==> !Contents(d, s)[i].marked
  }

  /** The first live slot is the least slot with a tuple. */
  lemma FirstStored(d: Mem, s: nat)
    requires Inv(d, s) && Readable(d)
    ensures var n := NextSlot(Recs(d), 0);
      && (n < 0 <==> Contents(d, s) == map[])
      && (n >= 0 ==> RecPos(n + 1) <= PAGE_SIZE && n in Contents(d, s) && forall i :: i in Contents(d, s) ==> n <= i)
  {
    hide NextSlot, Decode;
    NextSlotExact(Recs(d), 0);
    var n := NextSlot(Recs(d), 0);
    if n >= 0 {
      assert n in Contents(d, s);
    } else {
      assert forall i: nat :: i !in Contents(d, s);
    }
  }

  lemma FirstRecord(d: Mem, s: nat, slot: nat)
    requires Inv(d, s) && slot in Contents(d, s) && (forall i :: i in Contents(d, s) ==> slot <= i) && FirstUnmarked(d, s)
    requires RecPos(slot + 1) <= PAGE_SIZE == |d|
    ensures var off, size := GetInt(d, RecPos(slot)), GetInt(d, RecPos(slot) + 4);
      0 <= off && size == s && off + s <= PAGE_SIZE && Contents(d, s)[slot].bytes == d[off..off + s]
  {
    hide Inv, Contents, Decode;
    SlotMeaning(d, s, slot);
  }

  lemma LiveTuple(d: Mem, s: nat, slot: nat)
    requires Inv(d, s) && slot in Contents(d, s)
    ensures Readable(d) && slot < Count(d) && Live(Recs(d)[slot]) && ClearMask(Recs(d)[slot].size) == s
    ensures FreePtr(d) <= Recs(d)[slot].off <= PAGE_SIZE - s
  {
  }

  /** What the record of a slot says about the stored tuple. */
  lemma SlotMeaning(d: Mem, s: nat, slot: nat)
    requires Inv(d, s) && RecPos(slot + 1) <= PAGE_SIZE
    ensures Readable(d) && (slot in Contents(d, s) <==> slot < Count(d) && RecAt(d, slot).off != 0)
    ensures slot < Count(d) ==> Recs(d)[slot] == RecAt(d, slot)
    ensures slot in Contents(d, s) ==>
      var r := RecAt(d, slot);
      && 0 <= r.off && r.off + s <= PAGE_SIZE && ClearMask(r.size) == s
      && Contents(d, s)[slot] == Cell(d[r.off..r.off + s], IsMasked(r.size))
  {
    InvReadable(d, s);
  }

  lemma FirstEmptyIs(recs: seq<Rec>, i: nat)
    requires i <= |recs| && (forall j :: 0 <= j < i ==> Live(recs[j])) && (i < |recs| ==> !Live(recs[i]))
    ensures FirstEmpty(recs) == i
  {
  }

  lemma InvReadable(d: Mem, s: nat)
    requires Inv(d, s)
    ensures Readable(d) && Packed(Recs(d), FreePtr(d), s)
    ensures RecPos(Count(d)) <= FreePtr(d) <= PAGE_SIZE
  {
    ExtentsAbove(Recs(d), FreePtr(d), s);
  }

  /** What the search for an empty slot leaves, in terms of the number of stored tuples. */
  lemma InsertCases(d: Mem, d1: Mem, s: nat, slot: int)
    requires Inv(d, s) && s > 0
    requires var recs, fsp := Recs(d), FreePtr(d);
      if FirstEmpty(recs) < |recs| then slot == FirstEmpty(recs) && d1 == d
      else if fsp - RecPos(|recs|) < TUPLE_RECORD_SZ then slot == -1 && d1 == d
      else slot == |recs| && d1 == PutInt(d, TUPLE_CNT_OFFSET, |recs| + 1)
    ensures Inv(d1, s) && Contents(d1, s) == Contents(d, s)
    ensures |d1| == PAGE_SIZE && 0 <= Count(d1) && RecPos(Count(d1)) <= FreePtr(d1) <= PAGE_SIZE
    ensures |Contents(d, s)| <= Capacity(s)
    ensures FreePtr(d1) - RecPos(Count(d1)) >= s <==> |Contents(d, s)| < Capacity(s) || Spills(s)
    ensures |Contents(d, s)| < Capacity(s) ==> slot == FirstEmpty(Recs(d)) && slot < Count(d1)
    ensures |Contents(d, s)| == Capacity(s) && Spills(s) ==> slot == -1
    ensures slot >= 0 ==> slot < Count(d1) && !Live(Recs(d1)[slot]) && RecEnd(slot) <= PAGE_SIZE
    ensures slot >= -1 && RecEnd(-1) <= PAGE_SIZE
  {
    hide Inv, PutInt, Decode, Contents, Capacity, Remainder, Packed, LiveCount;
    InvReadable(d, s);
    TupleCount(d, s);
    RoomIff(Recs(d), FreePtr(d), s);
    if slot == |Recs(d)| {
      GrowSlots(d, d1, s);
    }
    InvReadable(d1, s);
  }

  /** The record of slot -1 overlaps the tuple count. */
  lemma SpilledCount(d: Mem, p: nat, t: Mem)
    requires |d| == PAGE_SIZE && p + |t| <= PAGE_SIZE && IsInt32(|t|)
    ensures RecEnd(-1) <= PAGE_SIZE && Count(WithTuple(d, p, -1, t)) == |t|
  {
    hide PutInt, PutBytes;
  }

  lemma EmptyPage(d: Mem, s: nat)
    requires |d| == PAGE_SIZE && Count(d) == 0 && FreePtr(d) == PAGE_SIZE && s > 0
    requires forall j :: FIRST_TUPLE_OFFSET <= j < PAGE_SIZE ==> d[j] == 0
    ensures Inv(d, s) && Contents(d, s) == map[]
  {
    TimesNext(s, 0);
  }

  /** The number of stored tuples is the number of live records. */
  lemma TupleCount(d: Mem, s: nat)
    requires Inv(d, s)
    ensures |Contents(d, s)| == LiveCount(Recs(d))
  {
    ExtentsInside(Recs(d), FreePtr(d), s);
    CellCount(d, Recs(d), s);
  }

  ghost function LiveSlots(recs: seq<Rec>, n: nat): (r: set<nat>)
    requires n <= |recs|
    ensures forall i: nat :: i in r <==> i < n && Live(recs[i])
  {
    if n == 0 then {}
    else if Live(recs[n - 1]) then LiveSlots(recs, n - 1) + {n - 1}
    else LiveSlots(recs, n - 1)
  }

  lemma {:induction false} LiveSlotsCount(recs: seq<Rec>, n: nat)
    requires n <= |recs|
    ensures |LiveSlots(recs, n)| == LiveCount(recs[..n])
    decreases n
  {
    hide LiveCount;
    if n == 0 {
      LiveCountBound(recs[..0]);
    } else {
      LiveSlotsCount(recs, n - 1);
      assert recs[..n] == recs[..n - 1] + [recs[n - 1]];
      LiveCountAppend(recs[..n - 1], recs[n - 1]);
    }
  }

  lemma CellCount(d: Mem, recs: seq<Rec>, s: nat)
    requires |d| == PAGE_SIZE && InArea(recs, 0, s)
    ensures |Cells(d, recs, s)| == LiveCount(recs)
  {
    LiveSlotsCount(recs, |recs|);
    assert recs[..|recs|] == recs;
    assert Cells(d, recs, s).Keys == LiveSlots(recs, |recs|);
  }

  lemma WrittenTuple(d: Mem, d': Mem, s: nat, slot: nat, t: Mem)
    requires Inv(d, s) && 0 < s == |t| && IsInt32(s)
    requires |d| == PAGE_SIZE && Readable(d) && slot < Count(d) && !Live(Recs(d)[slot])
    requires RecPos(Count(d)) <= FreePtr(d) - s && FreePtr(d) <= PAGE_SIZE && RecEnd(slot) <= PAGE_SIZE
    requires d' == WithTuple(d, FreePtr(d) - s, slot, t)
    ensures Inv(d', s) && Contents(d', s) == Contents(d, s)[slot := Cell(t, false)]
  {
    hide Inv, PutInt, PutBytes, Decode, Contents;
    var p := FreePtr(d) - s;
    var d1 := PutBytes(d, p, t);
    var d2 := PutInt(d1, FREE_SPACE_PTR_OFFSET, p);
    var d3 := PutInt(d2, RecPos(slot), p);
    SameInt(d2, d3, FREE_SPACE_PTR_OFFSET);
    SameInt(d3, d', FREE_SPACE_PTR_OFFSET);
    SameInt(d3, d', RecPos(slot));
    assert d'[p..p + s] == t;
    FillSlot(d, d', s, slot, t);
  }
}
