/** The catalog of tables: creating and deleting tables, and reading the catalog back from its page. */
module Catalogs {
  import opened Bytes
  import opened CStrings
  import opened CatalogLayout

  // ---- The two in-memory indexes.

  ghost predicate Keyed(ts: seq<Table>) {
    && (forall i :: 0 <= i < |ts| ==> ValidTable(ts[i]))
    && (forall i, j :: 0 <= i < j < |ts| ==> ts[i].id != ts[j].id && ts[i].name != ts[j].name)
  }

  ghost function Ids(ts: seq<Table>): set<int> {
    set t | t in ts :: t.id
  }

  ghost function Names(ts: seq<Table>): set<Mem> {
    set t | t in ts :: t.name
  }

  /** The maps hold exactly the tables ts. */
  ghost predicate Indexes(ts: seq<Table>, idToName: map<int, Mem>, nameToId: map<Mem, int>) {
    && idToName.Keys == Ids(ts) && nameToId.Keys == Names(ts)
    && forall t :: t in ts ==> t.id in idToName && idToName[t.id] == t.name && t.name in nameToId && nameToId[t.name] == t.id
  }

  /** There is one pair of maps for a list of tables. */
  lemma IndexesUnique(ts: seq<Table>, a: map<int, Mem>, b: map<Mem, int>, c: map<int, Mem>, d: map<Mem, int>)
    requires Indexes(ts, a, b) && Indexes(ts, c, d)
    ensures a == c && b == d
  {
    forall x | x in a ensures x in c && a[x] == c[x] {
      assert x in Ids(ts);
      var t :| t in ts && t.id == x;
    }
    forall s | s in b ensures s in d && b[s] == d[s] {
      assert s in Names(ts);
      var t :| t in ts && t.name == s;
    }
  }

  lemma KeyedAdd(ts: seq<Table>, t: Table)
    requires Keyed(ts) && ValidTable(t) && t.id !in Ids(ts) && t.name !in Names(ts)
    ensures Keyed(ts + [t])
  {
    forall i | 0 <= i < |ts| ensures ts[i].id != t.id && ts[i].name != t.name {
      assert ts[i] in ts;
    }
  }

  lemma IndexesAdd(ts: seq<Table>, a: map<int, Mem>, b: map<Mem, int>, t: Table)
    requires Keyed(ts) && Indexes(ts, a, b) && ValidTable(t) && t.id !in a && t.name !in b
    ensures Keyed(ts + [t]) && Indexes(ts + [t], a[t.id := t.name], b[t.name := t.id])
  {
    hide Keyed, Ids, Names;
    KeyedAdd(ts, t);
    IdsAdd(ts, t);
  }

  lemma IdsAdd(ts: seq<Table>, t: Table)
    ensures Ids(ts + [t]) == Ids(ts) + {t.id} && Names(ts + [t]) == Names(ts) + {t.name}
  {
    forall x | x in Ids(ts) + {t.id} ensures x in Ids(ts + [t]) {
      var u :| u in ts + [t] && u.id == x;
    }
    forall s | s in Names(ts) + {t.name} ensures s in Names(ts + [t]) {
      var u :| u in ts + [t] && u.name == s;
    }
  }

  lemma RemoveMembers(ts: seq<Table>, i: nat, t: Table)
    requires i < |ts| && Keyed(ts)
    ensures t in Remove(ts, i) <==> t in ts && t != ts[i]
    ensures t in Remove(ts, i) ==> t.id != ts[i].id && t.name != ts[i].name
  {
    var us := Remove(ts, i);
    if t in us {
      var k :| 0 <= k < |us| && us[k] == t;
      assert ts[if k < i then k else k + 1] == t;
    }
    if t in ts && t != ts[i] {
      var k :| 0 <= k < |ts| && ts[k] == t;
      assert us[if k < i then k else k - 1] == t;
    }
  }

  lemma KeyedRemove(ts: seq<Table>, i: nat)
    requires i < |ts| && Keyed(ts)
    ensures Keyed(Remove(ts, i))
  {
  }

  lemma IndexesRemove(ts: seq<Table>, a: map<int, Mem>, b: map<Mem, int>, i: nat)
    requires i < |ts| && Keyed(ts) && Indexes(ts, a, b)
    ensures Keyed(Remove(ts, i)) && Indexes(Remove(ts, i), a - {ts[i].id}, b - {ts[i].name})
  {
    hide Keyed, Remove;
    KeyedRemove(ts, i);
    forall t ensures t in Remove(ts, i) <==> t in ts && t != ts[i] {
      RemoveMembers(ts, i, t);
    }
    forall t | t in Remove(ts, i) ensures t.id != ts[i].id && t.name != ts[i].name {
      RemoveMembers(ts, i, t);
    }
    IdsRemove(ts, Remove(ts, i), ts[i]);
  }

  lemma IdsRemove(ts: seq<Table>, us: seq<Table>, v: Table)
    requires forall t :: t in us <==> t in ts && t != v
    requires forall t :: t in us ==> t.id != v.id && t.name != v.name
    ensures Ids(us) == Ids(ts) - {v.id} && Names(us) == Names(ts) - {v.name}
  {
    forall x | x in Ids(ts) - {v.id} ensures x in Ids(us) {
      var t :| t in ts && t.id == x;
      assert t in us;
    }
    forall s | s in Names(ts) - {v.name} ensures s in Names(us) {
      var t :| t in ts && t.name == s;
      assert t in us;
    }
  }

  lemma IndexesEmpty()
    ensures Keyed([]) && Indexes([], map[], map[])
  {
  }

  // ---- What a restart makes of the tables it reads: the first table with an id or a name counts.

  function LoadIds(us: seq<Table>): map<int, Mem> {
    if us == [] then map[] else
    var m, u := LoadIds(us[..|us| - 1]), us[|us| - 1];
    if u.id in m then m else m[u.id := u.name]
  }

  function LoadNames(us: seq<Table>): map<Mem, int> {
    if us == [] then map[] else
    var m, u := LoadNames(us[..|us| - 1]), us[|us| - 1];
    if u.name in m then m else m[u.name := u.id]
  }

  function CutAll(ts: seq<Table>): (r: seq<Table>)
    ensures |r| == |ts| && forall i :: 0 <= i < |r| ==> r[i] == Cut(ts[i])
  {
    seq(|ts|, i requires 0 <= i < |ts| => Cut(ts[i]))
  }

  ghost predicate NulFree(ts: seq<Table>) {
    forall t :: t in ts ==> 0 !in t.name
  }

  lemma CutExact(t: Table)
    ensures Cut(t) == t <==> 0 !in t.name
  {
    CStringWhole(t.name, 0);
    assert t.name[0..] == t.name;
  }

  /** Different tables with names read in full are all there. */
  lemma {:induction false} LoadExact(ts: seq<Table>)
    requires Keyed(ts)
    ensures Indexes(ts, LoadIds(ts), LoadNames(ts))
  {
    if ts == [] {
      IndexesEmpty();
    } else {
      hide Keyed, Indexes;
      var n := |ts| - 1;
      KeyedPrefix(ts, n);
      LoadExact(ts[..n]);
      NewKey(ts, n, LoadIds(ts[..n]), LoadNames(ts[..n]));
      IndexesAdd(ts[..n], LoadIds(ts[..n]), LoadNames(ts[..n]), ts[n]);
      assert ts[..n] + [ts[n]] == ts;
    }
  }

  lemma KeyedPrefix(ts: seq<Table>, n: nat)
    requires Keyed(ts) && n <= |ts|
    ensures Keyed(ts[..n])
  {
  }

  /** Every id leads to the name as read. */
  lemma {:induction false} LoadCutIds(ts: seq<Table>, n: nat, i: nat)
    requires Keyed(ts) && i < n <= |ts|
    ensures ts[i].id in LoadIds(CutAll(ts)[..n]) && LoadIds(CutAll(ts)[..n])[ts[i].id] == UpToNul(ts[i].name)
    decreases n
  {
    hide CString;
    var us := CutAll(ts)[..n];
    assert us[..n - 1] == CutAll(ts)[..n - 1];
    if i < n - 1 {
      LoadCutIds(ts, n - 1, i);
    } else {
      LoadedIds(ts, n - 1);
    }
  }

  lemma {:induction false} LoadedIds(ts: seq<Table>, n: nat)
    requires n <= |ts|
    ensures forall x :: x in LoadIds(CutAll(ts)[..n]) ==> exists j :: 0 <= j < n && ts[j].id == x
  {
    if n > 0 {
      assert CutAll(ts)[..n][..n - 1] == CutAll(ts)[..n - 1];
      LoadedIds(ts, n - 1);
    }
  }

  /** A restart gives the maps of the stored tables exactly if no name contains a NUL. */
  lemma LoadIff(ts: seq<Table>)
    requires Keyed(ts)
    ensures Indexes(ts, LoadIds(CutAll(ts)), LoadNames(CutAll(ts))) <==> NulFree(ts)
  {
    hide Keyed, CString;
    assert CutAll(ts)[..|ts|] == CutAll(ts);
    if NulFree(ts) {
      forall i | 0 <= i < |ts| ensures CutAll(ts)[i] == ts[i] {
        CutExact(ts[i]);
        assert ts[i] in ts;
      }
      assert CutAll(ts) == ts;
      LoadExact(ts);
    }
    if Indexes(ts, LoadIds(CutAll(ts)), LoadNames(CutAll(ts))) {
      forall t | t in ts ensures 0 !in t.name {
        var i :| 0 <= i < |ts| && ts[i] == t;
        LoadCutIds(ts, |ts|, i);
        CutExact(t);
      }
    }
  }

  // ---- Bytes of the page.

  method CopyRecordDown(data: array<byte>, r: nat)
    requires r + 24 <= data.Length
    modifies data
    ensures data[..] == PutBytes(old(data[..]), r, old(data[r + 12..r + 24]))
  {
    for i := 0 to TABLE_RECORD_SZ
      invariant forall k :: 0 <= k < data.Length ==> data[k] == if r <= k < r + i then old(data[k + 12]) else old(data[k])
    {
      data[r + i] := data[r + 12 + i];
    }
  }

  /** One round of the moving loop of delete_table. */
  method MoveTable(data: array<byte>, r: nat, p: nat, n: nat, d: nat)
    requires r + 24 <= p && p + n + d < data.Length && IsInt32(p + d) && GetInt(data[..], r + 12) == p
    modifies data
    ensures data[..] == Moved(old(data[..]), r, p, n, d)
  {
    hide PutBytes, PutInt, Decode;
    ghost var m := data[..];
    CopyRecordDown(data, r);
    ghost var m1 := data[..];
    assert data[p..p + n + 1] == m1[p..p + n + 1];
    MoveBytesUp(data, p + d, p, n + 1);
    ghost var m2 := data[..];
    FirstFieldCopied(m, m1, m2, r);
    var offset := ReadInt(data, r);
    WriteInt(data, r, offset + d);
  }

  lemma FirstFieldCopied(m: Mem, m1: Mem, m2: Mem, r: nat)
    requires r + 24 <= |m| == |m1| == |m2| && m1 == PutBytes(m, r, m[r + 12..r + 24])
    requires forall k :: r <= k < r + 12 ==> m2[k] == m1[k]
    ensures GetInt(m2, r) == GetInt(m, r + 12)
  {
    hide PutBytes, Decode;
    var rec := m[r + 12..r + 24];
    assert m1[r..r + 12] == rec;
    CopiedInt(m, m1, r + 12, r, 0);
    SameInt(m1, m2, r);
  }

  class CatalogTable {
    const data: array<byte>
    var tableNum: int
    var freeSpacePointer: int
    var idToName: map<int, Mem>
    var nameToId: map<Mem, int>
    ghost var tables: seq<Table>

    /** The page, the counters and the maps all describe the same tables. */
    ghost predicate Valid()
      reads this, data
    {
      && Layout(data[..], tables) && Keyed(tables)
      && tableNum == |tables| && freeSpacePointer == End(tables, |tables|)
      && Indexes(tables, idToName, nameToId)
    }

    constructor FromScratch(data: array<byte>)
      requires data.Length == PAGE_SIZE
      modifies data
      ensures Valid() && tables == [] && this.data == data
    {
      this.data := data;
      tableNum, freeSpacePointer := 0, PAGE_SIZE;
      idToName, nameToId := map[], map[];
      tables := [];
      new;
      WriteInt(data, TABLE_NUM_OFFSET, 0);
      IndexesEmpty();
    }

    /**
     * Reading a page fills the maps with the tables its records decode to. If the page holds the tables ts, the
     * result is a catalog of exactly these tables exactly if none of their names contains a NUL.
     */
    constructor FromPage(data: array<byte>, ghost ts: seq<Table>)
      requires Decodable(data[..])
      ensures this.data == data && tables == ts && tableNum == GetInt(data[..], TABLE_NUM_OFFSET)
      ensures idToName == LoadIds(Decoded(data[..])) && nameToId == LoadNames(Decoded(data[..]))
      ensures freeSpacePointer == StoredPointer(data[..])
      ensures Layout(data[..], ts) && Keyed(ts) ==> (Valid() <==> NulFree(ts))
    {
      hide Keyed, Indexes, GetInt, Layout, Decoded, Decodable, NulFree, LoadIds, LoadNames;
      this.data := data;
      freeSpacePointer := PAGE_SIZE;
      idToName, nameToId := map[], map[];
      tables := ts;
      new;
      DecodableCount(data[..]);
      tableNum := ReadInt(data, TABLE_NUM_OFFSET);
      idToName, nameToId := LoadMaps(data, tableNum);
      if tableNum != 0 {
        RecordInside(data[..], tableNum - 1);
        freeSpacePointer := ReadInt(data, TABLE_NUM_OFFSET + 4 + (tableNum - 1) * TABLE_RECORD_SZ);
      }
      if Layout(data[..], ts) && Keyed(ts) {
        LayoutDecoded(data[..], ts);
        LayoutPointer(data[..], ts);
        LoadIff(ts);
      }
    }

    /** The space check of create_table. */
    predicate Accepts(len: nat)
      reads this
    {
      len + TABLE_RECORD_SZ <= freeSpacePointer - RecPosInt(tableNum)
    }

    /**
     * newId is the page the pool hands out, or -1 if it has none. A table is created exactly if its name is new,
     * the space check passes and there is a page. The check leaves out the NUL behind the name: if the space left
     * is exactly what it asks for, the record overwrites the first byte of the name. A restart reads the old tables
     * as before, and the new one exactly if its name has no NUL and it was not overwritten with another byte.
     */
    method CreateTable(name: Mem, newId: int) returns (ok: bool)
      requires Valid() && -1 <= newId < TWO_31 && newId !in idToName
      modifies this, data
      ensures ok <==> name !in old(nameToId) && old(Accepts(|name|)) && newId != -1
      ensures old(Accepts(|name|)) <==> |name| + 12 <= old(freeSpacePointer) - (TABLE_NUM_OFFSET + 4 + 12 * old(tableNum))
      ensures ok ==> tableNum == old(tableNum) + 1 && freeSpacePointer == old(freeSpacePointer) - (|name| + 1)
      ensures !ok ==> unchanged(this) && data[..] == old(data[..])
      ensures ok && old(Accepts(|name| + 1)) ==> Valid()
      ensures ok ==> tables == old(tables) + [Table(name, newId)]
      ensures ok ==> idToName == old(idToName)[newId := name] && nameToId == old(nameToId)[name := newId]
      ensures ok ==> Decodable(data[..]) && |Decoded(data[..])| == |old(tables)| + 1
      ensures ok ==> Decoded(data[..])[..|old(tables)|] == CutAll(old(tables))
      ensures ok ==> (Decoded(data[..])[|old(tables)|] == Table(name, newId) <==>
        0 !in name && (old(Accepts(|name| + 1)) || name == [] || name[0] == newId / 0x100_0000))
    {
      hide Layout, Created, End, Keyed, Indexes, CString, GetInt, Decodable, CutAll, Decoded;
      if name in nameToId {
        return false;
      }
      LayoutFacts(data[..], tables);
      var tbNum := ReadInt(data, TABLE_NUM_OFFSET);
      var insertOffset := TABLE_NUM_OFFSET + 4 + tbNum * TABLE_RECORD_SZ;
      var availableSpace := freeSpacePointer - insertOffset;
      if |name| + TABLE_RECORD_SZ > availableSpace {
        return false;
      }
      if newId == -1 {
        return false;
      }
      ghost var m, t := data[..], Table(name, newId);
      IndexesAdd(tables, idToName, nameToId, t);
      idToName, nameToId := idToName[newId := name], nameToId[name := newId];
      tableNum := tableNum + 1;
      freeSpacePointer := freeSpacePointer - (|name| + 1);
      WriteTable(data, tbNum, freeSpacePointer, name, newId);
      if |name| + TABLE_RECORD_SZ < availableSpace {
        CreateKeeps(m, tables, t);
        SpareDecodes(data[..], tables, t);
      } else {
        TightDecodes(m, tables, t);
      }
      tables := tables + [t];
      ok := true;
    }

    /** Deletes the table with this id and no other; the remaining tables stay in order. Unknown ids succeed too. */
    method DeleteTable(tableId: int) returns (ok: bool)
      requires Valid()
      modifies this, data
      ensures Valid() && ok
      ensures tableId !in old(idToName) ==> unchanged(this) && data[..] == old(data[..])
      ensures tableId in old(idToName) ==> exists i: nat :: i < |old(tables)| && old(tables)[i].id == tableId && tables == Remove(old(tables), i)
      ensures tableId in old(idToName) ==> idToName == old(idToName) - {tableId}
      ensures tableId in old(idToName) ==> nameToId == old(nameToId) - {old(idToName)[tableId]}
    {
      hide Layout, End, Keyed, Indexes, GetInt, Remove, Moving;
      if tableId !in idToName {
        return true;
      }
      LayoutFacts(data[..], tables);
      var deletedName := idToName[tableId];
      var i := FindTable(tableId);
      var nameSize := ReadNameSize(data, i, tables);
      MovingStart(data[..], tables, i);
      MoveTables(data, i, tableNum, nameSize, tables);
      MovingDone(data[..], tables, i);
      IndexesRemove(tables, idToName, nameToId, i);
      tableNum := tableNum - 1;
      WriteInt(data, TABLE_NUM_OFFSET, tableNum);
      freeSpacePointer := freeSpacePointer + nameSize + 1;
      idToName, nameToId := idToName - {tableId}, nameToId - {deletedName};
      tables := Remove(tables, i);
      ok := true;
    }

    method FindTable(tableId: int) returns (i: nat)
      requires Valid() && tableId in idToName
      ensures i < |tables| && tables[i].id == tableId && idToName[tableId] == tables[i].name
    {
      hide Slot, End, Keyed, Decode, GetInt, Slots;
      i := 0;
      while i < tableNum
        invariant 0 <= i <= tableNum
        invariant forall k :: 0 <= k < i ==> tables[k].id != tableId
      {
        SlotsAt(data[..], tables, 0, |tables|, i);
        SlotField(data[..], RecPos(i), End(tables, i + 1), tables[i]);
        var id := ReadInt(data, TABLE_NUM_OFFSET + 4 + i * TABLE_RECORD_SZ + 8);
        if id == tableId {
          break;
        }
        i := i + 1;
      }
      assert tableId in Ids(tables);
      assert tables[i] in tables;
    }
  }

  lemma LayoutFacts(m: Mem, ts: seq<Table>)
    requires Layout(m, ts)
    ensures |m| == PAGE_SIZE && GetInt(m, TABLE_NUM_OFFSET) == |ts| && RecPos(|ts|) <= End(ts, |ts|) <= PAGE_SIZE
  {
    EndMonotone(ts, 0, |ts|);
  }

  function RecPosInt(i: int): int {
    TABLE_NUM_OFFSET + 4 + i * TABLE_RECORD_SZ
  }

  /** The writes of create_table, in their order: count, name, record. */
  method WriteTable(data: array<byte>, n: nat, p: nat, name: Mem, id: int)
    requires data.Length == PAGE_SIZE && RecPos(n) + 11 <= p && p + |name| < PAGE_SIZE && IsInt32(id)
    modifies data
    ensures data[..] == Created(old(data[..]), n, p, Table(name, id))
  {
    hide PutInt, PutBytes, Decode, GetInt;
    WriteInt(data, TABLE_NUM_OFFSET, n + 1);
    WriteBytes(data, p, name);
    data[p + |name|] := 0;
    WriteInt(data, RecPos(n), p);
    WriteInt(data, RecPos(n) + 4, |name|);
    WriteInt(data, RecPos(n) + 8, id);
  }

  lemma SlotField(m: Mem, r: nat, p: int, t: Table)
    requires Slot(m, r, p, t)
    ensures r + 12 <= |m| && GetInt(m, r) == p && GetInt(m, r + 4) == |t.name| && GetInt(m, r + 8) == t.id
  {
  }

  /** The next table read is in neither map yet. */
  lemma NewKey(ts: seq<Table>, i: nat, a: map<int, Mem>, b: map<Mem, int>)
    requires i < |ts| && Keyed(ts) && Indexes(ts[..i], a, b)
    ensures ValidTable(ts[i]) && ts[i].id !in a && ts[i].name !in b
  {
    forall t | t in ts[..i] ensures t.id != ts[i].id && t.name != ts[i].name {
      var k :| 0 <= k < i && ts[..i][k] == t;
      assert ts[k] == t;
    }
  }

  method ReadNameSize(data: array<byte>, i: nat, ghost ts: seq<Table>) returns (size: int)
    requires Layout(data[..], ts) && i < |ts|
    ensures size == |ts[i].name|
  {
    SlotField(data[..], RecPos(i), End(ts, i + 1), ts[i]);
    size := ReadInt(data, TABLE_NUM_OFFSET + 4 + i * TABLE_RECORD_SZ + 4);
  }

  /** The moving loop of delete_table: every table behind the deleted one, in order. */
  method MoveTables(data: array<byte>, i: nat, tableNum: int, nameSize: int, ghost ts: seq<Table>)
    requires data.Length == PAGE_SIZE && i < |ts| == tableNum && nameSize == |ts[i].name| && Fits(ts) && Moving(data[..], ts, i, i + 1)
    modifies data
    ensures Moving(data[..], ts, i, |ts|)
  {
    hide Slot, End, GetInt, Moving, Fits, Moved;
    var j := i + 1;
    while j < tableNum
      invariant i < j <= tableNum && Moving(data[..], ts, i, j)
    {
      var r := TABLE_NUM_OFFSET + 4 + j * TABLE_RECORD_SZ;
      MovingStep(data[..], ts, i, j);
      SlotField(data[..], RecPos(j), End(ts, j + 1), ts[j]);
      var p := ReadInt(data, r);
      var n := ReadInt(data, r + 4);
      MoveTable(data, r - TABLE_RECORD_SZ, p, n, nameSize + 1);
      j := j + 1;
    }
  }

  /** The tables a restart reads. */
  ghost function Decoded(m: Mem): (us: seq<Table>)
    requires Decodable(m)
    ensures |us| == GetInt(m, TABLE_NUM_OFFSET) && forall i: nat :: i < |us| ==> us[i] == DecodeTable(m, i)
  {
    seq(GetInt(m, TABLE_NUM_OFFSET), i requires 0 <= i < GetInt(m, TABLE_NUM_OFFSET) => DecodeTable(m, i))
  }

  lemma LayoutDecoded(m: Mem, ts: seq<Table>)
    requires Layout(m, ts)
    ensures Decodable(m) && Decoded(m) == CutAll(ts)
  {
    hide GetInt, DecodeTable, RecordOK;
    LayoutDecodes(m, ts);
  }

  lemma SpareDecodes(m': Mem, ts: seq<Table>, t: Table)
    requires Layout(m', ts + [t])
    ensures Decodable(m') && |Decoded(m')| == |ts| + 1 && Decoded(m')[..|ts|] == CutAll(ts)
    ensures Decoded(m')[|ts|] == t <==> 0 !in t.name
  {
    hide Layout, Decodable;
    LayoutDecoded(m', ts + [t]);
    CutExact(t);
  }

  lemma TightDecodes(m: Mem, ts: seq<Table>, t: Table)
    requires Layout(m, ts) && 0 <= t.id < TWO_31 && RecPos(|ts|) + |t.name| + TABLE_RECORD_SZ == End(ts, |ts|) <= PAGE_SIZE
    ensures var m' := Created(m, |ts|, NamePos(ts, |t.name|), t);
      && Decodable(m') && |Decoded(m')| == |ts| + 1 && Decoded(m')[..|ts|] == CutAll(ts)
      && (Decoded(m')[|ts|] == t <==> 0 !in t.name && (t.name == [] || t.name[0] == t.id / 0x100_0000))
  {
    hide Layout, Created, End, Decodable, DecodeTable, RecordOK, GetInt;
    CreateOverlaps(m, ts, t);
  }

  /** Where the free space ends: at the name of the last table. */
  ghost function StoredPointer(m: Mem): int
    requires Decodable(m)
  {
    var n := GetInt(m, TABLE_NUM_OFFSET);
    if n == 0 then PAGE_SIZE else
    assert RecordOK(m, n - 1);
    GetInt(m, RecPos(n - 1))
  }

  lemma LayoutPointer(m: Mem, ts: seq<Table>)
    requires Layout(m, ts) && Decodable(m)
    ensures StoredPointer(m) == End(ts, |ts|) && GetInt(m, TABLE_NUM_OFFSET) == |ts|
  {
    if ts != [] {
      SlotField(m, RecPos(|ts| - 1), End(ts, |ts|), ts[|ts| - 1]);
    }
  }

  lemma DecodableCount(m: Mem)
    requires Decodable(m)
    ensures |m| == PAGE_SIZE && 0 <= GetInt(m, TABLE_NUM_OFFSET)
  {
  }

  lemma RecordInside(m: Mem, i: nat)
    requires Decodable(m) && i < GetInt(m, TABLE_NUM_OFFSET)
    ensures RecordOK(m, i) && RecPos(i + 1) <= |m|
  {
  }

  /** The decoding loop. */
  method LoadMaps(data: array<byte>, tableNum: int) returns (idToName: map<int, Mem>, nameToId: map<Mem, int>)
    requires Decodable(data[..]) && tableNum == GetInt(data[..], TABLE_NUM_OFFSET)
    ensures idToName == LoadIds(Decoded(data[..])) && nameToId == LoadNames(Decoded(data[..]))
  {
    hide GetInt, RecordOK, DecodeTable, Decodable;
    DecodableCount(data[..]);
    idToName, nameToId := map[], map[];
    ghost var us := Decoded(data[..]);
    for i := 0 to tableNum
      invariant idToName == LoadIds(us[..i]) && nameToId == LoadNames(us[..i])
    {
      RecordInside(data[..], i);
      var pageId, name := ReadTable(data, i);
      assert us[..i + 1][..i] == us[..i] && us[..i + 1][i] == Table(name, pageId);
      if pageId !in idToName {
        idToName := idToName[pageId := name];
      }
      if name !in nameToId {
        nameToId := nameToId[name := pageId];
      }
    }
    assert us[..|us|] == us;
  }

  /** One round of the decoding loop. */
  method ReadTable(data: array<byte>, i: nat) returns (pageId: int, name: Mem)
    requires RecordOK(data[..], i)
    ensures Table(name, pageId) == DecodeTable(data[..], i)
  {
    hide Decode, CString;
    var r := TABLE_NUM_OFFSET + 4 + i * TABLE_RECORD_SZ;
    var nameOffset := ReadInt(data, r);
    var nameSize := ReadInt(data, r + 4);
    pageId := ReadInt(data, r + 8);
    assert data[nameOffset..nameOffset + nameSize] == data[..][nameOffset..nameOffset + nameSize];
    name := UpToNul(data[nameOffset..nameOffset + nameSize]);
  }

  /** The catalog survives a restart: decoding its page again gives the same counters, pointer and maps. */
  method Restart(c: CatalogTable) returns (r: CatalogTable)
    requires c.Valid() && NulFree(c.tables)
    ensures fresh(r) && r.Valid() && r.data == c.data && r.tables == c.tables
    ensures r.idToName == c.idToName && r.nameToId == c.nameToId
    ensures r.tableNum == c.tableNum && r.freeSpacePointer == c.freeSpacePointer
  {
    LayoutDecodes(c.data[..], c.tables);
    r := new CatalogTable.FromPage(c.data, c.tables);
    IndexesUnique(c.tables, r.idToName, r.nameToId, c.idToName, c.nameToId);
  }
}
