/**
 * Layout of a slotted table page: a record array that grows up from a fixed header, and tuple data
 * that grows down from the end of the page.
 */
module PageLayout {
  import opened Bytes
  import opened Collections

  const COM_PG_HEADER_SZ := 64
  const PREV_PGID_OFFSET := COM_PG_HEADER_SZ
  const NEXT_PGID_OFFSET := PREV_PGID_OFFSET + 4
  const FREE_SPACE_PTR_OFFSET := NEXT_PGID_OFFSET + 4
  const TABLE_PAGE_RESERVED := 64
  const TUPLE_CNT_OFFSET := FREE_SPACE_PTR_OFFSET + 4 + TABLE_PAGE_RESERVED
  const FIRST_TUPLE_OFFSET := TUPLE_CNT_OFFSET + 4
  const TUPLE_RECORD_SZ := 8
  const LOAD_DATA_SPACE := PAGE_SIZE - COM_PG_HEADER_SZ - 2 * 4 - 4 - 4 - TABLE_PAGE_RESERVED

  /** A slot record; offset 0 means the slot is empty, a negative size that the tuple is marked deleted. */
  datatype Rec = Rec(off: int, size: int)

  /** A stored tuple. */
  datatype Cell = Cell(bytes: Mem, marked: bool)

  /** The number of tuples of size s that fit into a page together with their records. */
  function Capacity(s: nat): nat {
    LOAD_DATA_SPACE / (s + TUPLE_RECORD_SZ)
  }

  /** What a full page has left over. */
  function Remainder(s: nat): nat {
    LOAD_DATA_SPACE % (s + TUPLE_RECORD_SZ)
  }

  // ---- The delete mask: the top bit of the size.

  function SetMask(size: int): int {
    if size < 0 then size else size - TWO_31
  }

  function ClearMask(size: int): int {
    if size < 0 then size + TWO_31 else size
  }

  predicate IsMasked(size: int) {
    size < 0
  }

  // ---- Fields.

  function Count(d: Mem): int
    requires |d| == PAGE_SIZE
  {
    GetInt(d, TUPLE_CNT_OFFSET)
  }

  function FreePtr(d: Mem): int
    requires |d| == PAGE_SIZE
  {
    GetInt(d, FREE_SPACE_PTR_OFFSET)
  }

  function RecPos(i: nat): nat {
    FIRST_TUPLE_OFFSET + i * TUPLE_RECORD_SZ
  }

  function RecAt(d: Mem, i: nat): Rec
    requires |d| == PAGE_SIZE && RecPos(i + 1) <= PAGE_SIZE
  {
    Rec(GetInt(d, RecPos(i)), GetInt(d, RecPos(i) + 4))
  }

  predicate Readable(d: Mem) {
    |d| == PAGE_SIZE && 0 <= Count(d) && RecPos(Count(d)) <= PAGE_SIZE
  }

  function Recs(d: Mem): (r: seq<Rec>)
    requires Readable(d)
    ensures |r| == Count(d)
    ensures forall i :: 0 <= i < |r| ==> r[i] == RecAt(d, i)
  {
    seq(Count(d), i requires 0 <= i < Count(d) => RecAt(d, i))
  }

  predicate Live(r: Rec) {
    r.off != 0
  }

  // ---- Effect of single writes.

  /** Bytes below the record array's end are all that the records depend on. */
  lemma SameRecs(d: Mem, d': Mem)
    requires Readable(d) && |d'| == PAGE_SIZE
    requires forall k :: TUPLE_CNT_OFFSET <= k < RecPos(Count(d)) ==> d'[k] == d[k]
    ensures Readable(d') && Recs(d') == Recs(d)
  {
    SameInt(d, d', TUPLE_CNT_OFFSET);
    forall i: nat | i < Count(d) ensures RecAt(d', i) == RecAt(d, i) {
      SameInt(d, d', RecPos(i));
      SameInt(d, d', RecPos(i) + 4);
    }
  }

  lemma WriteRec(d: Mem, d': Mem, i: nat, r: Rec)
    requires Readable(d) && i < Count(d) && |d'| == PAGE_SIZE
    requires forall k :: TUPLE_CNT_OFFSET <= k < RecPos(Count(d)) && !(RecPos(i) <= k < RecPos(i + 1)) ==> d'[k] == d[k]
    requires RecAt(d', i) == r
    ensures Readable(d') && Recs(d') == Recs(d)[i := r]
  {
    SameInt(d, d', TUPLE_CNT_OFFSET);
    forall j: nat | j < Count(d) && j != i ensures RecAt(d', j) == RecAt(d, j) {
      SameInt(d, d', RecPos(j));
      SameInt(d, d', RecPos(j) + 4);
    }
  }

  /** Counting up exposes one more record, whatever is stored there. */
  lemma WriteCount(d: Mem, d': Mem)
    requires Readable(d) && RecPos(Count(d) + 1) <= PAGE_SIZE && |d'| == PAGE_SIZE
    requires Count(d') == Count(d) + 1
    requires forall k :: FIRST_TUPLE_OFFSET <= k < RecPos(Count(d) + 1) ==> d'[k] == d[k]
    ensures Readable(d') && Recs(d') == Recs(d) + [RecAt(d, Count(d))]
  {
    forall i: nat | i < Count(d) + 1 ensures RecAt(d', i) == RecAt(d, i) {
      SameInt(d, d', RecPos(i));
      SameInt(d, d', RecPos(i) + 4);
    }
  }

  // ---- Counting live records.

  function LiveCount(recs: seq<Rec>): nat {
    if recs == [] then 0
    else LiveCount(recs[..|recs| - 1]) + if Live(recs[|recs| - 1]) then 1 else 0
  }

  lemma {:induction false} LiveCountBound(recs: seq<Rec>)
    ensures LiveCount(recs) <= |recs|
    ensures LiveCount(recs) == |recs| <==> forall i :: 0 <= i < |recs| ==> Live(recs[i])
    ensures LiveCount(recs) == 0 <==> forall i :: 0 <= i < |recs| ==> !Live(recs[i])
  {
    if recs != [] {
      LiveCountBound(recs[..|recs| - 1]);
      assert forall i :: 0 <= i < |recs| - 1 ==> recs[..|recs| - 1][i] == recs[i];
    }
  }

  lemma {:induction false} LiveCountUpdate(recs: seq<Rec>, i: nat, r: Rec)
    requires i < |recs|
    ensures LiveCount(recs[i := r]) == LiveCount(recs) + (if Live(r) then 1 else 0) - (if Live(recs[i]) then 1 else 0)
    decreases |recs|
  {
    var n := |recs| - 1;
    if i < n {
      LiveCountUpdate(recs[..n], i, r);
      assert recs[i := r][..n] == recs[..n][i := r];
    } else {
      assert recs[i := r][..n] == recs[..n];
    }
  }

  lemma LiveCountAppend(recs: seq<Rec>, r: Rec)
    ensures LiveCount(recs + [r]) == LiveCount(recs) + if Live(r) then 1 else 0
  {
    assert (recs + [r])[..|recs|] == recs;
  }

  /** Only which slots are live matters. */
  lemma {:induction false} LiveCountSame(recs: seq<Rec>, recs': seq<Rec>)
    requires |recs'| == |recs| && forall i :: 0 <= i < |recs| ==> Live(recs'[i]) == Live(recs[i])
    ensures LiveCount(recs') == LiveCount(recs)
    decreases |recs|
  {
    if recs != [] {
      LiveCountSame(recs[..|recs| - 1], recs'[..|recs| - 1]);
    }
  }

  // ---- The invariant, for tuples of one size s.

  /** The room n tuples of size s take. */
  function Times(s: nat, n: nat): nat {
    s * n
  }

  lemma TimesNext(s: nat, n: nat)
    ensures Times(s, n + 1) == Times(s, n) + s && Times(s, 0) == 0
  {
  }

  lemma TimesMonotone(s: nat, a: nat, b: nat)
    requires a <= b
    ensures Times(s, a) <= Times(s, b)
  {
  }

  ghost predicate Extent(r: Rec, fsp: int, s: nat) {
    fsp <= r.off <= PAGE_SIZE - s && ClearMask(r.size) == s
  }

  ghost predicate Apart(a: Rec, b: Rec, s: nat) {
    a.off + s <= b.off || b.off + s <= a.off
  }

  /** Live extents lie between the free space pointer and the end of the page and are disjoint. */
  ghost predicate Extents(recs: seq<Rec>, fsp: int, s: nat) {
    && (forall i :: 0 <= i < |recs| && Live(recs[i]) ==> Extent(recs[i], fsp, s))
    && (forall i, j :: 0 <= i < |recs| && 0 <= j < |recs| && i != j && Live(recs[i]) && Live(recs[j]) ==> Apart(recs[i], recs[j], s))
  }

  /** They leave no room between them: together they are as long as that area. */
  ghost predicate Packed(recs: seq<Rec>, fsp: int, s: nat) {
    && Extents(recs, fsp, s)
    && fsp == PAGE_SIZE - Times(s, LiveCount(recs))
    && RecPos(|recs|) <= fsp
    && (|recs| <= Capacity(s) || (|recs| == Capacity(s) + 1 && Remainder(s) >= TUPLE_RECORD_SZ))
  }

  /** Bytes that no tuple ever reached are still zero from the initialisation. */
  ghost predicate ZeroGap(d: Mem, n: nat, s: nat)
    requires |d| == PAGE_SIZE
  {
    forall k :: RecPos(n) <= k < PAGE_SIZE - Times(s, n) ==> d[k] == 0
  }

  ghost predicate Inv(d: Mem, s: nat) {
    && Readable(d)
    && Packed(Recs(d), FreePtr(d), s)
    && ZeroGap(d, Count(d), s)
  }

  /** All tuples lie between `lo` and the end of the page. */
  ghost predicate InArea(recs: seq<Rec>, lo: int, s: nat) {
    forall i :: 0 <= i < |recs| && Live(recs[i]) ==> lo <= recs[i].off <= PAGE_SIZE - s
  }

  function CellAt(d: Mem, r: Rec, s: nat): Cell
    requires |d| == PAGE_SIZE && 0 <= r.off <= PAGE_SIZE - s
  {
    Cell(d[r.off..r.off + s], IsMasked(r.size))
  }

  /** The visible contents: slot number to stored tuple. */
  ghost function Cells(d: Mem, recs: seq<Rec>, s: nat): (m: map<nat, Cell>)
    requires |d| == PAGE_SIZE && InArea(recs, 0, s)
  {
    map i: nat | i < |recs| && Live(recs[i]) :: CellAt(d, recs[i], s)
  }

  ghost function Contents(d: Mem, s: nat): map<nat, Cell>
    requires Inv(d, s)
  {
    ExtentsInside(Recs(d), FreePtr(d), s);
    Cells(d, Recs(d), s)
  }

  lemma ExtentsInside(recs: seq<Rec>, fsp: int, s: nat)
    requires Packed(recs, fsp, s)
    ensures InArea(recs, 0, s)
  {
  }

  // ---- No gap: every byte behind the free space pointer belongs to exactly one tuple.

  ghost function Range(lo: int, hi: int): (r: set<int>)
    requires lo <= hi
    ensures forall k :: k in r <==> lo <= k < hi
    ensures |r| == hi - lo
    decreases hi - lo
  {
    if lo == hi then {} else Range(lo, hi - 1) + {hi - 1}
  }

  ghost predicate Covers(r: Rec, s: nat, k: int) {
    Live(r) && r.off <= k < r.off + s
  }

  /** The bytes of the tuples in the first n slots. */
  ghost function Covered(recs: seq<Rec>, s: nat, n: nat): set<int>
    requires n <= |recs|
  {
    if n == 0 then {}
    else if Live(recs[n - 1]) then Covered(recs, s, n - 1) + Range(recs[n - 1].off, recs[n - 1].off + s)
    else Covered(recs, s, n - 1)
  }

  lemma {:induction false} CoveredMembers(recs: seq<Rec>, s: nat, n: nat)
    requires n <= |recs|
    ensures forall k :: k in Covered(recs, s, n) <==> exists i :: 0 <= i < n && Covers(recs[i], s, k)
    decreases n
  {
    if n > 0 {
      CoveredMembers(recs, s, n - 1);
    }
  }

  lemma {:induction false} CoveredSize(recs: seq<Rec>, fsp: int, s: nat, n: nat)
    requires Extents(recs, fsp, s) && n <= |recs|
    ensures |Covered(recs, s, n)| == Times(s, LiveCount(recs[..n]))
    decreases n
  {
    hide Extents, Covers, Times, LiveCount;
    if n == 0 {
      assert recs[..0] == [];
      TimesNext(s, 0);
      LiveCountBound([]);
    } else {
      CoveredSize(recs, fsp, s, n - 1);
      assert recs[..n] == recs[..n - 1] + [recs[n - 1]];
      LiveCountAppend(recs[..n - 1], recs[n - 1]);
      if Live(recs[n - 1]) {
        LastApart(recs, fsp, s, n);
        TimesNext(s, LiveCount(recs[..n - 1]));
      }
    }
  }

  lemma LastApart(recs: seq<Rec>, fsp: int, s: nat, n: nat)
    requires Extents(recs, fsp, s) && 0 < n <= |recs| && Live(recs[n - 1])
    ensures |Covered(recs, s, n)| == |Covered(recs, s, n - 1)| + s
  {
    var front, last := Covered(recs, s, n - 1), Range(recs[n - 1].off, recs[n - 1].off + s);
    CoveredMembers(recs, s, n - 1);
    forall k | k in front ensures k !in last {
      var i :| 0 <= i < n - 1 && Covers(recs[i], s, k);
      assert Apart(recs[i], recs[n - 1], s);
    }
    assert |front + last| == |front| + |last|;
  }

  /** Live extents tile the area behind the free space pointer. */
  lemma Tiles(recs: seq<Rec>, fsp: int, s: nat, k: int)
    requires Packed(recs, fsp, s) && fsp <= k < PAGE_SIZE
    ensures exists i :: 0 <= i < |recs| && Covers(recs[i], s, k)
    ensures forall i, j :: 0 <= i < |recs| && 0 <= j < |recs| && Covers(recs[i], s, k) && Covers(recs[j], s, k) ==> i == j
  {
    var all := Covered(recs, s, |recs|);
    CoveredSize(recs, fsp, s, |recs|);
    CoveredMembers(recs, s, |recs|);
    assert recs[..|recs|] == recs;
    forall k | k in all ensures k in Range(fsp, PAGE_SIZE) {
      var i :| 0 <= i < |recs| && Covers(recs[i], s, k);
      assert Extent(recs[i], fsp, s);
    }
    SubsetSameSize(all, Range(fsp, PAGE_SIZE));
    assert k in all;
    assert forall i, j :: 0 <= i < |recs| && 0 <= j < |recs| && i != j && Live(recs[i]) && Live(recs[j]) ==> Apart(recs[i], recs[j], s);
  }
}
