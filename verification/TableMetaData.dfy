/** The schema of a table in its metadata page: a sequence of column records of varying length. */
module TableMetaDatas {
  import opened Bytes
  import opened CStrings

  const COLUMN_NUM_OFFSET := 64 + 2 * 4 + 64
  const FIRST_COLUMN_OFFSET := COLUMN_NUM_OFFSET + 4
  const FIXED_COLUMN_SIZE := 16

  // type ids
  const K_INVALID := -1
  const K_BOOLEAN := 0
  const K_INTEGER := 1
  const K_DECIMAL := 2
  const K_CHAR := 3

  datatype Column = Column(name: Mem, offset: int, typeId: int, size: int)

  function TypeSize(typeId: int): int {
    if typeId == K_BOOLEAN then 1 else if typeId == K_INTEGER then 4 else if typeId == K_DECIMAL then 8 else -1
  }

  /** Columns as their constructors make them: only a char column chooses its size. */
  predicate ValidColumn(c: Column) {
    && IsInt32(c.offset) && IsInt32(c.size) && K_INVALID <= c.typeId <= K_CHAR
    && (c.typeId != K_CHAR ==> c.size == TypeSize(c.typeId))
  }

  function MakeColumn(name: Mem, offset: int, typeId: int, size: int): Column {
    if typeId == K_CHAR then Column(name, offset, K_CHAR, size) else Column(name, offset, typeId, TypeSize(typeId))
  }

  function ColSize(c: Column): nat {
    FIXED_COLUMN_SIZE + |c.name| + 1
  }

  /** Where the record of column i starts. */
  function Pos(cols: seq<Column>, i: nat): nat
    requires i <= |cols|
  {
    if i == 0 then FIRST_COLUMN_OFFSET else Pos(cols, i - 1) + ColSize(cols[i - 1])
  }

  lemma {:induction false} PosMonotone(cols: seq<Column>, i: nat, j: nat)
    requires i <= j <= |cols|
    ensures FIRST_COLUMN_OFFSET == Pos(cols, 0) <= Pos(cols, i) <= Pos(cols, j)
    ensures i < j ==> Pos(cols, i) + ColSize(cols[i]) <= Pos(cols, j)
    decreases j
  {
    if i < j {
      PosMonotone(cols, i, j - 1);
    } else if i > 0 {
      PosMonotone(cols, i - 1, i - 1);
    }
  }

  lemma PosNext(cols: seq<Column>, n: nat)
    requires n < |cols|
    ensures Pos(cols, n + 1) == Pos(cols, n) + ColSize(cols[n])
  {
  }

  // ---- Records in memory.

  /** The record of column c is stored at p. */
  ghost predicate Holds(m: Mem, p: nat, c: Column)
    requires p + ColSize(c) <= |m|
  {
    var q := p + 4 + |c.name| + 1;
    && GetInt(m, p) == |c.name|
    && m[p + 4..p + 4 + |c.name|] == c.name && m[p + 4 + |c.name|] == 0
    && GetInt(m, q) == c.offset && GetInt(m, q + 4) == c.typeId && GetInt(m, q + 8) == c.size
  }

  lemma HoldsFrame(m: Mem, m': Mem, p: nat, c: Column)
    requires p + ColSize(c) <= |m| == |m'| && Holds(m, p, c)
    requires forall k :: p <= k < p + ColSize(c) ==> m'[k] == m[k]
    ensures Holds(m', p, c)
  {
    hide Decode;
    var q := p + 4 + |c.name| + 1;
    SameInt(m, m', p);
    SameInt(m, m', q);
    SameInt(m, m', q + 4);
    SameInt(m, m', q + 8);
  }

  ghost predicate Stored(m: Mem, cols: seq<Column>, n: nat)
    requires n <= |cols|
  {
    forall i: nat :: i < n ==> Pos(cols, i) + ColSize(cols[i]) <= |m| && Holds(m, Pos(cols, i), cols[i])
  }

  lemma StoredNext(m: Mem, m': Mem, cols: seq<Column>, n: nat)
    requires n < |cols| && |m'| == |m| && Stored(m, cols, n)
    requires Pos(cols, n) + ColSize(cols[n]) <= |m| && Holds(m', Pos(cols, n), cols[n])
    requires forall k :: 0 <= k < Pos(cols, n) ==> m'[k] == m[k]
    ensures Stored(m', cols, n + 1) && Pos(cols, n + 1) == Pos(cols, n) + ColSize(cols[n])
  {
    hide Holds, Pos, ColSize;
    PosNext(cols, n);
    forall i: nat | i < n ensures Pos(cols, i) + ColSize(cols[i]) <= |m| && Holds(m', Pos(cols, i), cols[i]) {
      PosMonotone(cols, i, n);
      HoldsFrame(m, m', Pos(cols, i), cols[i]);
    }
  }

  // ---- Writer.

  method WriteColumn(data: array<byte>, p: nat, c: Column)
    requires p + ColSize(c) <= data.Length && ValidColumn(c) && IsInt32(|c.name|)
    modifies data
    ensures Holds(data[..], p, c)
    ensures forall k :: 0 <= k < data.Length && !(p <= k < p + ColSize(c)) ==> data[k] == old(data[k])
  {
    hide PutInt, PutBytes, Decode;
    WriteInt(data, p, |c.name|);
    ghost var m1 := data[..];
    var nameOffset := p + 4;
    var offsetOffset := nameOffset + |c.name| + 1;
    WriteInt(data, offsetOffset, c.offset);
    ghost var m2 := data[..];
    WriteInt(data, offsetOffset + 4, c.typeId);
    ghost var m3 := data[..];
    WriteInt(data, offsetOffset + 8, c.size);
    ghost var m4 := data[..];
    WriteBytes(data, nameOffset, c.name);
    data[nameOffset + |c.name|] := 0;
    ghost var m5 := data[..];
    RecordWritten(m1, m2, m3, m4, m5, p, c);
  }

  lemma RecordWritten(m1: Mem, m2: Mem, m3: Mem, m4: Mem, m5: Mem, p: nat, c: Column)
    requires p + ColSize(c) <= |m1| && |m1| == |m2| == |m3| == |m4| == |m5| && ValidColumn(c) && IsInt32(|c.name|)
    requires GetInt(m1, p) == |c.name|
    requires var q := p + 4 + |c.name| + 1;
      && m2 == PutInt(m1, q, c.offset) && m3 == PutInt(m2, q + 4, c.typeId) && m4 == PutInt(m3, q + 8, c.size)
      && m5 == PutBytes(m4, p + 4, c.name)[p + 4 + |c.name| := 0]
    ensures Holds(m5, p, c)
  {
    hide PutInt, PutBytes, Decode;
    var q := p + 4 + |c.name| + 1;
    SameInt(m1, m2, p);
    SameInt(m2, m3, p);
    SameInt(m3, m4, p);
    SameInt(m4, m5, p);
    SameInt(m2, m3, q);
    SameInt(m3, m4, q);
    SameInt(m4, m5, q);
    SameInt(m3, m4, q + 4);
    SameInt(m4, m5, q + 4);
    SameInt(m4, m5, q + 8);
  }

  /** Writes the number of columns and their records one behind the other. */
  method WriteSchema(data: array<byte>, cols: seq<Column>)
    requires data.Length == PAGE_SIZE && Pos(cols, |cols|) <= PAGE_SIZE
    requires forall i :: 0 <= i < |cols| ==> ValidColumn(cols[i])
    modifies data
    ensures |cols| < TWO_31 && GetInt(data[..], COLUMN_NUM_OFFSET) == |cols| && Stored(data[..], cols, |cols|)
    ensures forall k :: 0 <= k < COLUMN_NUM_OFFSET ==> data[k] == old(data[k])
  {
    hide PutInt, Decode, Holds, Pos, GetInt;
    PosMonotone(cols, 0, 0);
    CountBound(cols, |cols|);
    WriteInt(data, COLUMN_NUM_OFFSET, |cols|);
    ghost var m0 := data[..];
    assert Stored(m0, cols, 0);
    hide Stored;
    var colSize, colOffset := 0, FIRST_COLUMN_OFFSET;
    for i := 0 to |cols|
      invariant colOffset + colSize == Pos(cols, i)
      invariant Stored(data[..], cols, i)
      invariant forall k :: 0 <= k < FIRST_COLUMN_OFFSET ==> data[k] == m0[k]
    {
      colOffset := colOffset + colSize;
      ghost var m := data[..];
      PosMonotone(cols, i, |cols|);
      WriteColumn(data, colOffset, cols[i]);
      StoredNext(m, data[..], cols, i);
      colSize := ColSize(cols[i]);
    }
    SameInt(m0, data[..], COLUMN_NUM_OFFSET);
  }

  lemma {:induction false} CountBound(cols: seq<Column>, n: nat)
    requires n <= |cols|
    ensures n <= Pos(cols, n)
    decreases n
  {
    if n > 0 {
      CountBound(cols, n - 1);
    }
  }

  // ---- Reader.

  function AsRead(c: Column): Column {
    MakeColumn(UpToNul(c.name), c.offset, c.typeId, c.size)
  }

  /** Reads the record at p; the stored name length locates its other fields. */
  method ReadColumn(data: array<byte>, p: nat, ghost c: Column) returns (r: Column, colSize: nat)
    requires p + ColSize(c) <= data.Length && Holds(data[..], p, c)
    ensures r == AsRead(c) && colSize == ColSize(c)
  {
    hide Decode, CString;
    var nameLen := ReadInt(data, p);
    var nameOffset := p + 4;
    var offsetOffset := nameOffset + nameLen + 1;
    var offset := ReadInt(data, offsetOffset);
    var typeId := ReadInt(data, offsetOffset + 4);
    var size := ReadInt(data, offsetOffset + 8);
    var name := ReadCString(data, nameOffset);
    CStringOf(data[..], nameOffset, c.name, 0);
    r := MakeColumn(name, offset, typeId, size);
    colSize := FIXED_COLUMN_SIZE + nameLen + 1;
  }

  lemma AsReadExact(c: Column)
    requires ValidColumn(c)
    ensures AsRead(c) == c <==> 0 !in c.name
  {
    CStringWhole(c.name, 0);
    assert c.name[0..] == c.name;
  }

  lemma SchemaExact(cols: seq<Column>, r: seq<Column>)
    requires forall i :: 0 <= i < |cols| ==> ValidColumn(cols[i])
    requires |r| == |cols| && forall i :: 0 <= i < |r| ==> r[i] == AsRead(cols[i])
    ensures r == cols <==> forall i :: 0 <= i < |cols| ==> 0 !in cols[i].name
  {
    hide AsRead, ValidColumn;
    forall i | 0 <= i < |cols| ensures r[i] == cols[i] <==> 0 !in cols[i].name {
      AsReadExact(cols[i]);
    }
  }

  lemma StoredAt(m: Mem, cols: seq<Column>, i: nat)
    requires i < |cols| && Stored(m, cols, |cols|)
    ensures Pos(cols, i) + ColSize(cols[i]) <= |m| && Holds(m, Pos(cols, i), cols[i])
    ensures Pos(cols, i + 1) == Pos(cols, i) + ColSize(cols[i])
  {
    hide Holds;
  }

  /** Follows the records one behind the other; every name is cut at its first NUL. */
  method ReadSchema(data: array<byte>, ghost cols: seq<Column>) returns (r: seq<Column>)
    requires data.Length == PAGE_SIZE && Pos(cols, |cols|) <= PAGE_SIZE
    requires forall i :: 0 <= i < |cols| ==> ValidColumn(cols[i])
    requires GetInt(data[..], COLUMN_NUM_OFFSET) == |cols| && Stored(data[..], cols, |cols|)
    ensures |r| == |cols| && forall i :: 0 <= i < |r| ==> r[i] == AsRead(cols[i])
    ensures r == cols <==> forall i :: 0 <= i < |cols| ==> 0 !in cols[i].name
  {
    hide Decode, Holds, AsRead, ValidColumn, GetInt, Stored, ColSize, Pos;
    PosMonotone(cols, 0, 0);
    var columnNum := ReadInt(data, COLUMN_NUM_OFFSET);
    r := [];
    var colSize, colOffset := 0, FIRST_COLUMN_OFFSET;
    for i := 0 to columnNum
      invariant colOffset + colSize == Pos(cols, i)
      invariant |r| == i && forall k :: 0 <= k < i ==> r[k] == AsRead(cols[k])
    {
      colOffset := colOffset + colSize;
      StoredAt(data[..], cols, i);
      var c;
      c, colSize := ReadColumn(data, colOffset, cols[i]);
      r := r + [c];
    }
    SchemaExact(cols, r);
  }

  /** Writing a schema and reading it back gives the same columns exactly if no name contains a NUL. */
  method RoundTrip(data: array<byte>, cols: seq<Column>) returns (r: seq<Column>)
    requires data.Length == PAGE_SIZE && Pos(cols, |cols|) <= PAGE_SIZE
    requires forall i :: 0 <= i < |cols| ==> ValidColumn(cols[i])
    modifies data
    ensures r == cols <==> forall i :: 0 <= i < |cols| ==> 0 !in cols[i].name
  {
    WriteSchema(data, cols);
    r := ReadSchema(data, cols);
  }
}
