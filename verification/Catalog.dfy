/**
 * The page of the catalog: table records grow up behind the header, table names grow down from the end of
 * the page, name i + 1 directly below name i.
 */
module CatalogLayout {
  import opened Bytes
  import opened CStrings

  const TABLE_NUM_OFFSET := 64
  const TABLE_RECORD_SZ := 12

  datatype Table = Table(name: Mem, id: int)

  predicate ValidTable(t: Table) {
    IsInt32(t.id)
  }

  function RecPos(i: nat): nat {
    TABLE_NUM_OFFSET + 4 + i * TABLE_RECORD_SZ
  }

  /** Where name i - 1 starts: the end of name i. */
  function End(ts: seq<Table>, i: nat): int
    requires i <= |ts|
  {
    if i == 0 then PAGE_SIZE else End(ts, i - 1) - (|ts[i - 1].name| + 1)
  }

  lemma {:induction false} EndMonotone(ts: seq<Table>, i: nat, j: nat)
    requires i <= j <= |ts|
    ensures End(ts, j) <= End(ts, i) <= End(ts, 0) == PAGE_SIZE
    ensures i < j ==> End(ts, j) <= End(ts, i + 1) == End(ts, i) - (|ts[i].name| + 1)
    decreases j
  {
    if i < j {
      EndMonotone(ts, i, j - 1);
    } else if i > 0 {
      EndMonotone(ts, i - 1, i - 1);
    }
  }

  lemma {:induction false} EndPrefix(ts: seq<Table>, us: seq<Table>, i: nat)
    requires i <= |ts| && i <= |us| && ts[..i] == us[..i]
    ensures End(ts, i) == End(us, i)
  {
    if i > 0 {
      assert ts[..i - 1] == ts[..i][..i - 1] && us[..i - 1] == us[..i][..i - 1];
      assert ts[i - 1] == ts[..i][i - 1] && us[i - 1] == us[..i][i - 1];
      EndPrefix(ts, us, i - 1);
    }
  }

  /** Records and names do not meet. */
  predicate Fits(ts: seq<Table>) {
    RecPos(|ts|) <= End(ts, |ts|)
  }

  /** The record at r describes table t, whose name is stored at p. */
  ghost predicate Slot(m: Mem, r: nat, p: int, t: Table) {
    && r + TABLE_RECORD_SZ <= |m| && 0 <= p && p + |t.name| < |m|
    && GetInt(m, r) == p && GetInt(m, r + 4) == |t.name| && GetInt(m, r + 8) == t.id
    && m[p..p + |t.name|] == t.name && m[p + |t.name|] == 0
  }

  lemma SlotFrame(m: Mem, m': Mem, r: nat, p: int, t: Table)
    requires |m'| == |m| && Slot(m, r, p, t)
    requires forall k :: r <= k < r + TABLE_RECORD_SZ ==> m'[k] == m[k]
    requires forall k :: p <= k <= p + |t.name| ==> m'[k] == m[k]
    ensures Slot(m', r, p, t)
  {
    hide Decode;
    SameInt(m, m', r);
    SameInt(m, m', r + 4);
    SameInt(m, m', r + 8);
  }

  ghost predicate Slots(m: Mem, ts: seq<Table>, a: nat, b: nat)
    requires b <= |ts|
  {
    forall k: nat :: a <= k < b ==> Slot(m, RecPos(k), End(ts, k + 1), ts[k])
  }

  /** The page holds exactly the tables ts. */
  ghost predicate Layout(m: Mem, ts: seq<Table>) {
    && |m| == PAGE_SIZE && Fits(ts) && GetInt(m, TABLE_NUM_OFFSET) == |ts| && Slots(m, ts, 0, |ts|)
  }

  lemma SlotsAt(m: Mem, ts: seq<Table>, a: nat, b: nat, k: nat)
    requires b <= |ts| && Slots(m, ts, a, b) && a <= k < b
    ensures Slot(m, RecPos(k), End(ts, k + 1), ts[k])
  {
  }

  /** Changes outside the records and names of tables a..b leave these tables where they are. */
  lemma SlotsFrame(m: Mem, m': Mem, ts: seq<Table>, a: nat, b: nat)
    requires a <= b <= |ts| && |m'| == |m| && Slots(m, ts, a, b)
    requires forall k :: 0 <= k < |m| && RecPos(a) <= k < RecPos(b) ==> m'[k] == m[k]
    requires forall k :: 0 <= k < |m| && End(ts, b) <= k < End(ts, a) ==> m'[k] == m[k]
    ensures Slots(m', ts, a, b)
  {
    hide Slot, Slots, End;
    forall k: nat | a <= k < b ensures Slot(m', RecPos(k), End(ts, k + 1), ts[k]) {
      SlotsAt(m, ts, a, b, k);
      SlotBounds(m, RecPos(k), End(ts, k + 1), ts[k]);
      EndMonotone(ts, k, b);
      EndMonotone(ts, a, k);
      SlotFrame(m, m', RecPos(k), End(ts, k + 1), ts[k]);
    }
    SlotsIntro(m', ts, a, b);
  }

  lemma SlotBounds(m: Mem, r: nat, p: int, t: Table)
    requires Slot(m, r, p, t)
    ensures r + TABLE_RECORD_SZ <= |m| && 0 <= p && p + |t.name| < |m|
  {
  }

  lemma SlotsIntro(m: Mem, ts: seq<Table>, a: nat, b: nat)
    requires b <= |ts| && forall k: nat :: a <= k < b ==> Slot(m, RecPos(k), End(ts, k + 1), ts[k])
    ensures Slots(m, ts, a, b)
  {
  }

  // ---- A new table.

  /** A record of three integers written at r. */
  function PutRecord(m: Mem, r: nat, x: int, y: int, z: int): (m': Mem)
    requires r + TABLE_RECORD_SZ <= |m| && IsInt32(x) && IsInt32(y) && IsInt32(z)
    ensures |m'| == |m|
    ensures forall k :: 0 <= k < |m| && !(r <= k < r + TABLE_RECORD_SZ) ==> m'[k] == m[k]
  {
    PutInt(PutInt(PutInt(m, r, x), r + 4, y), r + 8, z)
  }

  lemma RecordReads(m: Mem, r: nat, x: int, y: int, z: int)
    requires r + TABLE_RECORD_SZ <= |m| && IsInt32(x) && IsInt32(y) && IsInt32(z)
    ensures var m' := PutRecord(m, r, x, y, z); GetInt(m', r) == x && GetInt(m', r + 4) == y && GetInt(m', r + 8) == z
  {
    hide PutInt, Decode;
    var m1 := PutInt(m, r, x);
    var m2 := PutInt(m1, r + 4, y);
    var m3 := PutInt(m2, r + 8, z);
    SameInt(m1, m2, r);
    SameInt(m2, m3, r);
    SameInt(m2, m3, r + 4);
  }

  /** The last byte of a record is the highest byte of its last field. */
  lemma RecordTop(m: Mem, r: nat, x: int, y: int, z: int)
    requires r + TABLE_RECORD_SZ <= |m| && IsInt32(x) && IsInt32(y) && 0 <= z < TWO_31
    ensures PutRecord(m, r, x, y, z)[r + 11] == z / 0x100_0000
  {
    var m2 := PutInt(PutInt(m, r, x), r + 4, y);
    hide PutBytes;
    assert PutBytes(m2, r + 8, Encode(z))[r + 11] == Encode(z)[3];
    assert z / 256 / 256 / 256 == z / 0x100_0000;
  }

  /** Count and name of a new table written, the record not yet. */
  function Named(m: Mem, n: nat, p: nat, name: Mem): (r: Mem)
    requires |m| == PAGE_SIZE && TABLE_NUM_OFFSET + 4 <= p && p + |name| < |m| && IsInt32(n)
    ensures |r| == |m|
    ensures GetInt(r, TABLE_NUM_OFFSET) == n && r[p..p + |name|] == name && r[p + |name|] == 0
    ensures forall k :: TABLE_NUM_OFFSET + 4 <= k < |m| && !(p <= k <= p + |name|) ==> r[k] == m[k]
  {
    hide PutInt, Decode, PutBytes;
    var m1 := PutInt(m, TABLE_NUM_OFFSET, n);
    var m2 := PutBytes(m1, p, name)[p + |name| := 0];
    SameInt(m1, m2, TABLE_NUM_OFFSET);
    m2
  }

  /** Memory after create_table has written count, name and record. */
  function Created(m: Mem, n: nat, p: nat, t: Table): (r: Mem)
    requires |m| == PAGE_SIZE && RecPos(n) + 11 <= p && p + |t.name| < |m| && ValidTable(t)
    ensures |r| == |m|
    ensures forall k :: TABLE_NUM_OFFSET + 4 <= k < |m| && !(RecPos(n) <= k < RecPos(n + 1)) && !(p <= k <= p + |t.name|) ==> r[k] == m[k]
  {
    PutRecord(Named(m, n + 1, p, t.name), RecPos(n), p, |t.name|, t.id)
  }

  lemma CreatedSlot(m: Mem, n: nat, p: nat, t: Table)
    requires |m| == PAGE_SIZE && RecPos(n) + 12 <= p && p + |t.name| < |m| && ValidTable(t)
    ensures Slot(Created(m, n, p, t), RecPos(n), p, t) && GetInt(Created(m, n, p, t), TABLE_NUM_OFFSET) == n + 1
  {
    hide Decode, Named, PutRecord;
    var m1 := Named(m, n + 1, p, t.name);
    var m2 := PutRecord(m1, RecPos(n), p, |t.name|, t.id);
    RecordReads(m1, RecPos(n), p, |t.name|, t.id);
    SameInt(m1, m2, TABLE_NUM_OFFSET);
    assert m2[p..p + |t.name|] == m1[p..p + |t.name|];
  }

  /** Where the name of a new table of this name length goes. */
  function NamePos(ts: seq<Table>, len: nat): int {
    End(ts, |ts|) - (len + 1)
  }

  /** With a byte to spare, the new table joins the old ones. */
  lemma CreateKeeps(m: Mem, ts: seq<Table>, t: Table)
    requires Layout(m, ts) && ValidTable(t) && RecPos(|ts|) + |t.name| + TABLE_RECORD_SZ < End(ts, |ts|)
    ensures End(ts, |ts|) <= PAGE_SIZE && Layout(Created(m, |ts|, NamePos(ts, |t.name|), t), ts + [t])
    ensures End(ts + [t], |ts| + 1) == NamePos(ts, |t.name|)
  {
    hide Slot, Created, GetInt, Slots, End;
    EndMonotone(ts, 0, |ts|);
    var n, p, us := |ts|, NamePos(ts, |t.name|), ts + [t];
    var m' := Created(m, n, p, t);
    CreatedSlot(m, n, p, t);
    SlotsFrame(m, m', ts, 0, n);
    EndSnoc(ts, t);
    SlotsPrefix(m', ts, t);
    SlotsSnoc(m', us, n);
  }

  lemma EndSnoc(ts: seq<Table>, t: Table)
    ensures End(ts + [t], |ts|) == End(ts, |ts|) && End(ts + [t], |ts| + 1) == NamePos(ts, |t.name|)
  {
    assert (ts + [t])[..|ts|] == ts[..|ts|];
    EndPrefix(ts, ts + [t], |ts|);
  }

  lemma SlotsPrefix(m: Mem, ts: seq<Table>, t: Table)
    requires Slots(m, ts, 0, |ts|)
    ensures Slots(m, ts + [t], 0, |ts|)
  {
    hide Slot;
    forall k: nat | k < |ts| ensures Slot(m, RecPos(k), End(ts + [t], k + 1), (ts + [t])[k]) {
      assert (ts + [t])[..k + 1] == ts[..k + 1];
      EndPrefix(ts, ts + [t], k + 1);
    }
  }

  // ---- Reading the page back.

  /** Record i refers to bytes inside the page. */
  predicate RecordOK(m: Mem, i: nat) {
    && RecPos(i + 1) <= |m| && 0 <= GetInt(m, RecPos(i)) && 0 <= GetInt(m, RecPos(i) + 4)
    && GetInt(m, RecPos(i)) + GetInt(m, RecPos(i) + 4) <= |m|
  }

  /** The table a restart reads from record i; names are read up to their first NUL. */
  function DecodeTable(m: Mem, i: nat): Table
    requires RecordOK(m, i)
  {
    var off, size := GetInt(m, RecPos(i)), GetInt(m, RecPos(i) + 4);
    Table(UpToNul(m[off..off + size]), GetInt(m, RecPos(i) + 8))
  }

  ghost predicate Decodable(m: Mem) {
    |m| == PAGE_SIZE && 0 <= GetInt(m, TABLE_NUM_OFFSET) && forall i: nat :: i < GetInt(m, TABLE_NUM_OFFSET) ==> RecordOK(m, i)
  }

  function Cut(t: Table): Table {
    Table(UpToNul(t.name), t.id)
  }

  lemma SlotDecodes(m: Mem, i: nat, p: int, t: Table)
    requires Slot(m, RecPos(i), p, t)
    ensures RecordOK(m, i) && DecodeTable(m, i) == Cut(t)
  {
    hide Decode, CString;
  }

  lemma LayoutDecodes(m: Mem, ts: seq<Table>)
    requires Layout(m, ts)
    ensures Decodable(m) && forall i: nat :: i < |ts| ==> DecodeTable(m, i) == Cut(ts[i])
  {
    hide Slot, RecordOK, DecodeTable, GetInt, Cut, End;
    forall i: nat | i < |ts| ensures RecordOK(m, i) && DecodeTable(m, i) == Cut(ts[i]) {
      SlotDecodes(m, i, End(ts, i + 1), ts[i]);
    }
  }

  /** The first byte of the name gives way to the highest byte of the id. */
  function Overlapped(t: Table): Mem
    requires 0 <= t.id < TWO_31
  {
    if t.name == [] then [] else [t.id / 0x100_0000] + t.name[1..]
  }

  /** Without a byte to spare, the record of the new table overwrites the first byte of its name. */
  lemma CreatedOverlapped(m: Mem, n: nat, t: Table)
    requires |m| == PAGE_SIZE && RecPos(n) + 11 + |t.name| < |m| && 0 <= t.id < TWO_31
    ensures var m', p := Created(m, n, RecPos(n) + 11, t), RecPos(n) + 11;
      && GetInt(m', RecPos(n)) == p && GetInt(m', RecPos(n) + 4) == |t.name| && GetInt(m', RecPos(n) + 8) == t.id
      && m'[p..p + |t.name|] == Overlapped(t) && GetInt(m', TABLE_NUM_OFFSET) == n + 1
  {
    hide Decode, Named, PutRecord;
    var p := RecPos(n) + 11;
    var m1 := Named(m, n + 1, p, t.name);
    var m2 := PutRecord(m1, RecPos(n), p, |t.name|, t.id);
    RecordReads(m1, RecPos(n), p, |t.name|, t.id);
    RecordTop(m1, RecPos(n), p, |t.name|, t.id);
    SameInt(m1, m2, TABLE_NUM_OFFSET);
    var name := m1[p..p + |t.name|];
    assert name == t.name;
    forall k | 0 < k < |t.name| ensures m2[p..p + |t.name|][k] == t.name[k] {
      assert m2[p + k] == m1[p + k] == name[k];
    }
  }

  lemma OverlappedIff(t: Table)
    requires 0 <= t.id < TWO_31
    ensures UpToNul(Overlapped(t)) == t.name <==> 0 !in t.name && (t.name == [] || t.name[0] == t.id / 0x100_0000)
  {
    CStringWhole(t.name, 0);
    CStringNoNul(Overlapped(t), 0);
    assert t.name[0..] == t.name;
    if t.name != [] {
      var o := Overlapped(t);
      if t.name[0] == t.id / 0x100_0000 {
        assert o == t.name;
      } else {
        assert UpToNul(o) == [] || UpToNul(o)[0] == o[0];
      }
    }
  }

  /**
   * Without a byte to spare, a restart reads the old tables as before, and the new one exactly if its name has no
   * NUL and is empty or happens to begin with the highest byte of its id.
   */
  lemma CreateOverlaps(m: Mem, ts: seq<Table>, t: Table)
    requires Layout(m, ts) && 0 <= t.id < TWO_31 && RecPos(|ts|) + |t.name| + TABLE_RECORD_SZ == End(ts, |ts|)
    ensures End(ts, |ts|) <= PAGE_SIZE
    ensures var m' := Created(m, |ts|, NamePos(ts, |t.name|), t);
      && Decodable(m') && GetInt(m', TABLE_NUM_OFFSET) == |ts| + 1
      && (forall i: nat :: i < |ts| ==> DecodeTable(m', i) == Cut(ts[i]))
      && (DecodeTable(m', |ts|) == t <==> 0 !in t.name && (t.name == [] || t.name[0] == t.id / 0x100_0000))
  {
    hide Slot, Created, GetInt, Slots, End, CString, RecordOK, DecodeTable;
    EndMonotone(ts, 0, |ts|);
    OldTablesDecode(m, ts, t);
    NewTableDecodes(m, |ts|, t);
  }

  lemma OldTablesDecode(m: Mem, ts: seq<Table>, t: Table)
    requires Layout(m, ts) && ValidTable(t) && RecPos(|ts|) + |t.name| + TABLE_RECORD_SZ <= End(ts, |ts|) <= PAGE_SIZE
    ensures var m' := Created(m, |ts|, NamePos(ts, |t.name|), t);
      forall i: nat :: i < |ts| ==> RecordOK(m', i) && DecodeTable(m', i) == Cut(ts[i])
  {
    hide Slot, Created, GetInt, Slots, End, CString, RecordOK, DecodeTable;
    var n, m' := |ts|, Created(m, |ts|, NamePos(ts, |t.name|), t);
    EndMonotone(ts, 0, n);
    SlotsFrame(m, m', ts, 0, n);
    forall i: nat | i < n ensures RecordOK(m', i) && DecodeTable(m', i) == Cut(ts[i]) {
      SlotsAt(m', ts, 0, n, i);
      SlotDecodes(m', i, End(ts, i + 1), ts[i]);
    }
  }

  lemma NewTableDecodes(m: Mem, n: nat, t: Table)
    requires |m| == PAGE_SIZE && RecPos(n) + 11 + |t.name| < |m| && 0 <= t.id < TWO_31
    ensures var m' := Created(m, n, RecPos(n) + 11, t);
      && GetInt(m', TABLE_NUM_OFFSET) == n + 1 && RecordOK(m', n)
      && (DecodeTable(m', n) == t <==> 0 !in t.name && (t.name == [] || t.name[0] == t.id / 0x100_0000))
  {
    hide Created, Decode, CString, Overlapped;
    CreatedOverlapped(m, n, t);
    OverlappedIff(t);
  }

  /** On an empty page, a name of 4016 bytes passes the space check and is lost. */
  lemma LongNameLost(m: Mem, t: Table)
    requires Layout(m, []) && |t.name| == 4016 && 0 !in t.name && 0 <= t.id < 0x100_0000
    ensures RecPos(0) + |t.name| + TABLE_RECORD_SZ == End([], 0)
    ensures var m' := Created(m, 0, NamePos([], |t.name|), t); RecordOK(m', 0) && DecodeTable(m', 0) != t
  {
    hide Created, Decode, CString, DecodeTable, RecordOK;
    assert t.name[0] in t.name;
    CreateOverlaps(m, [], t);
  }

  // ---- Removing a table.

  function Remove(ts: seq<Table>, i: nat): (r: seq<Table>)
    requires i < |ts|
    ensures |r| == |ts| - 1
    ensures forall k :: 0 <= k < |r| ==> r[k] == if k < i then ts[k] else ts[k + 1]
  {
    ts[..i] + ts[i + 1..]
  }

  /** Behind the removed table, every name moves up by the size of the removed name. */
  lemma {:induction false} EndRemove(ts: seq<Table>, i: nat, k: nat)
    requires i < |ts| && k < |ts|
    ensures k <= i ==> End(Remove(ts, i), k) == End(ts, k)
    ensures k >= i ==> End(Remove(ts, i), k) == End(ts, k + 1) + |ts[i].name| + 1
    decreases k
  {
    if k > 0 {
      EndRemove(ts, i, k - 1);
    }
  }

  /** Tables before j are in their new places, tables from j on in their old ones. */
  ghost predicate Moving(m: Mem, ts: seq<Table>, i: nat, j: nat)
    requires i < j <= |ts|
  {
    |m| == PAGE_SIZE && Slots(m, Remove(ts, i), 0, j - 1) && Slots(m, ts, j, |ts|)
  }

  lemma MovingStart(m: Mem, ts: seq<Table>, i: nat)
    requires Layout(m, ts) && i < |ts|
    ensures Fits(ts) && Moving(m, ts, i, i + 1)
  {
    hide Slot, GetInt;
    var us := Remove(ts, i);
    forall k: nat | k < i ensures Slot(m, RecPos(k), End(us, k + 1), us[k]) {
      EndRemove(ts, i, k + 1);
    }
  }

  /** The record behind r copied down to r, its name of n bytes moved up from p by d, the new place recorded. */
  function Moved(m: Mem, r: nat, p: nat, n: nat, d: nat): (m': Mem)
    requires r + 24 <= p && p + n + d < |m| && IsInt32(p + d)
    ensures |m'| == |m|
    ensures forall k :: 0 <= k < |m| && !(r <= k < r + 12) && !(p + d <= k <= p + d + n) ==> m'[k] == m[k]
    ensures GetInt(m', r) == p + d
  {
    hide PutBytes, PutInt;
    var m1 := PutBytes(m, r, m[r + 12..r + 24]);
    var m2 := PutBytes(m1, p + d, m1[p..p + n + 1]);
    PutInt(m2, r, p + d)
  }

  lemma MovedSlot(m: Mem, r: nat, p: nat, d: nat, t: Table)
    requires r + 24 <= p && p + |t.name| + d < |m| && IsInt32(p + d) && Slot(m, r + 12, p, t)
    ensures Slot(Moved(m, r, p, |t.name|, d), r, p + d, t)
  {
    hide Moved, Decode;
    var n := |t.name|;
    var m' := Moved(m, r, p, n, d);
    RecordCopied(m, r, p, d, n);
    NameCopied(m, r, p, d, n);
    assert m'[p + d..p + d + n] == m'[p + d..p + d + n + 1][..n];
    assert m[p..p + n] == m[p..p + n + 1][..n];
    assert m'[p + d..p + d + n + 1][n] == m[p..p + n + 1][n];
  }

  lemma RecordCopied(m: Mem, r: nat, p: nat, d: nat, n: nat)
    requires r + 24 <= p && p + n + d < |m| && IsInt32(p + d)
    ensures var m' := Moved(m, r, p, n, d); GetInt(m', r + 4) == GetInt(m, r + 16) && GetInt(m', r + 8) == GetInt(m, r + 20)
  {
    hide Decode, PutInt, PutBytes;
    var rec := m[r + 12..r + 24];
    var m1 := PutBytes(m, r, rec);
    var m2 := PutBytes(m1, p + d, m1[p..p + n + 1]);
    var m3 := PutInt(m2, r, p + d);
    assert forall k {:trigger rec[k]} :: 0 <= k < 12 ==> m1[r + k] == rec[k];
    assert m1[r..r + 12] == rec;
    CopiedInt(m, m1, r + 12, r, 4);
    CopiedInt(m, m1, r + 12, r, 8);
    SameInt(m1, m2, r + 4);
    SameInt(m1, m2, r + 8);
    SameInt(m2, m3, r + 4);
    SameInt(m2, m3, r + 8);
  }

  lemma NameCopied(m: Mem, r: nat, p: nat, d: nat, n: nat)
    requires r + 24 <= p && p + n + d < |m| && IsInt32(p + d)
    ensures Moved(m, r, p, n, d)[p + d..p + d + n + 1] == m[p..p + n + 1]
  {
    hide Decode, PutInt, PutBytes, GetInt;
    var m1 := PutBytes(m, r, m[r + 12..r + 24]);
    var name := m1[p..p + n + 1];
    assert name == m[p..p + n + 1];
    var m2 := PutBytes(m1, p + d, name);
    assert m2[p + d..p + d + n + 1] == name;
    var m3 := PutInt(m2, r, p + d);
    assert m3[p + d..p + d + n + 1] == m2[p + d..p + d + n + 1];
  }

  lemma CopiedInt(m: Mem, m': Mem, src: nat, dst: nat, o: nat)
    requires src + 12 <= |m| && dst + 12 <= |m'| && o <= 8 && m'[dst..dst + 12] == m[src..src + 12]
    ensures GetInt(m', dst + o) == GetInt(m, src + o)
  {
    var s := m[src..src + 12];
    assert m'[dst..dst + 12] == s;
    assert s[o] == m[src + o] && s[o + 1] == m[src + o + 1] && s[o + 2] == m[src + o + 2] && s[o + 3] == m[src + o + 3];
  }

  lemma MovingStep(m: Mem, ts: seq<Table>, i: nat, j: nat)
    requires i < j < |ts| && Fits(ts) && Moving(m, ts, i, j)
    ensures Slot(m, RecPos(j), End(ts, j + 1), ts[j])
    ensures RecPos(j + 1) <= End(ts, j + 1) && End(ts, j + 1) + |ts[j].name| + |ts[i].name| + 1 < PAGE_SIZE
    ensures Moving(Moved(m, RecPos(j - 1), End(ts, j + 1), |ts[j].name|, |ts[i].name| + 1), ts, i, j + 1)
  {
    hide Slot, Slots, Moved, End;
    var us, d, p := Remove(ts, i), |ts[i].name| + 1, End(ts, j + 1);
    EndMonotone(ts, j + 1, |ts|);
    EndMonotone(ts, j, |ts|);
    EndMonotone(ts, i, j);
    SlotsAt(m, ts, j, |ts|, j);
    var m' := Moved(m, RecPos(j - 1), p, |ts[j].name|, d);
    MovedSlot(m, RecPos(j - 1), p, d, ts[j]);
    EndRemove(ts, i, j);
    EndRemove(ts, i, j - 1);
    EndMonotone(us, 0, j - 1);
    SlotsFrame(m, m', us, 0, j - 1);
    SlotsSub(m, ts, j, j + 1, |ts|);
    SlotsFrame(m, m', ts, j + 1, |ts|);
    SlotsSnoc(m', us, j - 1);
  }

  lemma SlotsSub(m: Mem, ts: seq<Table>, a: nat, a': nat, b: nat)
    requires a <= a' && b <= |ts| && Slots(m, ts, a, b)
    ensures Slots(m, ts, a', b)
  {
    hide Slot;
  }

  lemma SlotsSnoc(m: Mem, ts: seq<Table>, n: nat)
    requires n < |ts| && Slots(m, ts, 0, n) && Slot(m, RecPos(n), End(ts, n + 1), ts[n])
    ensures Slots(m, ts, 0, n + 1)
  {
    hide Slot;
  }

  /** When all tables have been moved and the count is written, the page holds the remaining tables. */
  lemma MovingDone(m: Mem, ts: seq<Table>, i: nat)
    requires i < |ts| && Fits(ts) && Moving(m, ts, i, |ts|)
    ensures |ts| < TWO_31
    ensures Layout(PutInt(m, TABLE_NUM_OFFSET, |ts| - 1), Remove(ts, i))
    ensures End(Remove(ts, i), |ts| - 1) == End(ts, |ts|) + |ts[i].name| + 1
  {
    hide Slot, PutInt, GetInt;
    var us := Remove(ts, i);
    EndMonotone(ts, 0, |ts|);
    EndRemove(ts, i, |ts| - 1);
    SlotsFrame(m, PutInt(m, TABLE_NUM_OFFSET, |ts| - 1), us, 0, |ts| - 1);
  }
}
