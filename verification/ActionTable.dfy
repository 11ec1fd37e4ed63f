/**
 * Packing of the per-state action sets into one table, and reading them back.  A set stored at
 * offset `o` keeps the action of lookahead `la` in slot `o + la`; the slot records `la`, so that a
 * read at a different offset does not match.
 */
module ActionTable {
  import opened Options
  import opened Collections

  datatype Entry = Entry(la: int, act: int)

  const EMPTY := Entry(-1, -1)

  /** `entries` are the allocated slots, of which those below `n` (nAction) are in use. */
  datatype Table = Table(nsymbol: nat, nterminal: nat, entries: seq<Entry>, n: nat)

  /** A transaction set under construction, with its least lookahead, that one's action, and its greatest. */
  datatype Txn = Txn(items: seq<Entry>, mn: int, mnAction: int, mx: int)

  /** A set that was inserted, and the offset returned for it. */
  datatype Row = Row(ofst: int, m: map<int, int>)

  // ---- Transaction sets.

  ghost predicate ValidTxn(x: Txn, nsymbol: nat) {
    && x.items != []
    && (forall j :: 0 <= j < |x.items| ==> 0 <= x.mn <= x.items[j].la <= x.mx < nsymbol)
    && (forall i, j :: 0 <= i < j < |x.items| ==> x.items[i].la != x.items[j].la)
    && Entry(x.mn, x.mnAction) in x.items
    && (exists j :: 0 <= j < |x.items| && x.items[j].la == x.mx)
  }

  /** The set as a map from lookaheads to actions. */
  ghost function AsMap(items: seq<Entry>): (m: map<int, int>)
  {
    if items == [] then map[]
    else AsMap(items[..|items| - 1])[items[|items| - 1].la := items[|items| - 1].act]
  }

  ghost predicate SameItems(items: seq<Entry>, m: map<int, int>) {
    && (forall j :: 0 <= j < |items| ==> items[j].la in m && m[items[j].la] == items[j].act)
    && (forall la :: la in m ==> Entry(la, m[la]) in items)
    && |m| == |items|
  }

  lemma AsMapExtended(items: seq<Entry>, x: Entry, m: map<int, int>)
    requires SameItems(items, m) && forall i :: 0 <= i < |items| ==> items[i].la != x.la
    ensures SameItems(items + [x], m[x.la := x.act])
  {
    assert x.la !in m;
    assert m[x.la := x.act].Keys == m.Keys + {x.la};
  }

  lemma {:induction false} AsMapItems(items: seq<Entry>)
    requires forall i, j :: 0 <= i < j < |items| ==> items[i].la != items[j].la
    ensures SameItems(items, AsMap(items))
  {
    if items != [] {
      var front := items[..|items| - 1];
      AsMapItems(front);
      AsMapExtended(front, items[|items| - 1], AsMap(front));
      assert items == front + [items[|items| - 1]];
    }
  }

  // ---- Reading a set back.

  function ReadBack(t: Table, o: int, la: int): Option<int> {
    if 0 <= o + la < |t.entries| && t.entries[o + la].la == la then Some(t.entries[o + la].act) else None
  }

  function Lookup(m: map<int, int>, la: int): Option<int> {
    if la in m then Some(m[la]) else None
  }

  /** At offset o the table holds the set m and nothing else. */
  ghost predicate Exact(t: Table, o: int, m: map<int, int>) {
    forall la: int :: la >= 0 ==> ReadBack(t, o, la) == Lookup(m, la)
  }

  ghost predicate Lossless(t: Table, rows: seq<Row>) {
    forall r :: r in rows ==> Exact(t, r.ofst, r.m)
  }

  ghost predicate Shape(t: Table) {
    && t.nterminal <= t.nsymbol
    && (forall k :: 0 <= k < |t.entries| ==> t.entries[k].la >= -1)
    && (forall k :: t.n <= k < |t.entries| ==> t.entries[k].la == -1)
  }

  /** Slot k belongs to row r. */
  ghost predicate OwnedBy(t: Table, r: Row, k: nat)
    requires k < |t.entries|
  {
    var e := t.entries[k];
    r.ofst == k - e.la && e.la in r.m && r.m[e.la] == e.act
  }

  /** Every slot in use belongs to a set that was inserted. */
  ghost predicate Owned(t: Table, rows: seq<Row>) {
    forall k: nat :: k < |t.entries| && t.entries[k].la >= 0 ==> exists r :: r in rows && OwnedBy(t, r, k)
  }

  ghost predicate ValidRows(rows: seq<Row>) {
    forall r :: r in rows ==> Natural(r.m)
  }

  /** Not empty, and defined on non-negative lookaheads only. */
  ghost predicate Natural(m: map<int, int>) {
    (exists la :: la in m) && forall la :: la in m ==> la >= 0
  }

  // ---- Storing a set.

  /** The slots of set m at offset o are there and free, and no slot belongs to that offset yet. */
  ghost predicate Fits(t: Table, o: int, m: map<int, int>) {
    && (forall la :: la in m ==> 0 <= o + la < |t.entries| && t.entries[o + la].la < 0)
    && (forall k: nat :: k < |t.entries| && t.entries[k].la >= 0 ==> k - t.entries[k].la != o)
  }

  /** `e'` is `e` with set m written at offset o. */
  ghost predicate Written(e: seq<Entry>, e': seq<Entry>, o: int, m: map<int, int>) {
    |e'| == |e| && forall k :: 0 <= k < |e| ==> e'[k] == if k - o in m then Entry(k - o, m[k - o]) else e[k]
  }

  /** Slots that belong to one offset are invisible at every other one. */
  lemma OtherOffset(t: Table, t': Table, o: int, m: map<int, int>, o': int, la: int)
    requires Written(t.entries, t'.entries, o, m) && Fits(t, o, m) && Natural(m) && o' != o && la >= 0
    ensures ReadBack(t', o', la) == ReadBack(t, o', la)
  {
    var k := o' + la;
    if 0 <= k < |t.entries| && k - o in m {
      assert t.entries[o + (k - o)].la < 0;
    }
  }

  lemma NewOffset(t: Table, t': Table, o: int, m: map<int, int>)
    requires Written(t.entries, t'.entries, o, m) && Fits(t, o, m)
    ensures Exact(t', o, m)
  {
    forall la: int | la >= 0 ensures ReadBack(t', o, la) == Lookup(m, la) {
      var k := o + la;
      assert 0 <= k < |t.entries| ==> t'.entries[k] == if la in m then Entry(la, m[la]) else t.entries[k];
    }
  }

  lemma FitsLossless(t: Table, t': Table, o: int, m: map<int, int>, rows: seq<Row>)
    requires Lossless(t, rows) && ValidRows(rows) && Natural(m)
    requires Written(t.entries, t'.entries, o, m) && Fits(t, o, m)
    ensures Lossless(t', rows + [Row(o, m)])
  {
    NewOffset(t, t', o, m);
    forall r | r in rows ensures Exact(t', r.ofst, r.m) {
      assert r.ofst != o by {
        var la :| la in r.m;
        assert ReadBack(t, r.ofst, la) == Some(r.m[la]);
      }
      forall la: int | la >= 0 ensures ReadBack(t', r.ofst, la) == Lookup(r.m, la) {
        OtherOffset(t, t', o, m, r.ofst, la);
      }
    }
  }

  /** Writing a set that is already stored changes nothing. */
  lemma ExactLossless(t: Table, t': Table, o: int, m: map<int, int>, rows: seq<Row>)
    requires Lossless(t, rows) && Natural(m) && Written(t.entries, t'.entries, o, m) && Exact(t, o, m)
    ensures Lossless(t', rows + [Row(o, m)]) && t'.entries == t.entries
  {
    forall k | 0 <= k < |t.entries| ensures t'.entries[k] == t.entries[k] {
      if k - o in m {
        assert ReadBack(t, o, k - o) == Some(m[k - o]);
      }
    }
    forall r | r in rows + [Row(o, m)] ensures Exact(t', r.ofst, r.m) {
      assert Exact(t, r.ofst, r.m);
      assert forall la: int :: ReadBack(t', r.ofst, la) == ReadBack(t, r.ofst, la);
    }
  }

  /** Two different sets cannot be read exactly at one offset. */
  lemma SameOffsetSameSet(t: Table, o: int, m: map<int, int>, m': map<int, int>)
    requires Natural(m) && Natural(m')
    ensures Exact(t, o, m) && Exact(t, o, m') ==> m == m'
  {
    if Exact(t, o, m) && Exact(t, o, m') {
      forall la | la in m ensures la in m' && m'[la] == m[la] {
        assert ReadBack(t, o, la) == Lookup(m, la) == Lookup(m', la);
      }
      forall la | la in m' ensures la in m {
        assert ReadBack(t, o, la) == Lookup(m, la) == Lookup(m', la);
      }
    }
  }

  /** A slot that is taken by another offset is overwritten, and its set loses an action. */
  lemma TakenSlotLoses(t: Table, t': Table, o: int, m: map<int, int>, rows: seq<Row>, la: int)
    requires Owned(t, rows) && Written(t.entries, t'.entries, o, m)
    requires la in m && 0 <= o + la < |t.entries| && t.entries[o + la].la >= 0 && t.entries[o + la].la != la
    ensures !Lossless(t', rows)
  {
    var k := o + la;
    var r :| r in rows && OwnedBy(t, r, k);
    var la' := t.entries[k].la;
    assert t'.entries[k] == Entry(la, m[la]);
    assert ReadBack(t', r.ofst, la') == None && Lookup(r.m, la') != None;
  }

  /** An offset that is in use by another set cannot hold both. */
  lemma UsedOffsetLoses(t: Table, t': Table, o: int, m: map<int, int>, rows: seq<Row>, k: nat)
    requires Owned(t, rows) && Lossless(t, rows) && ValidRows(rows) && Natural(m)
    requires k < |t.entries| && t.entries[k].la >= 0 && k - t.entries[k].la == o && !Exact(t, o, m)
    ensures !Lossless(t', rows + [Row(o, m)])
  {
    var r :| r in rows && OwnedBy(t, r, k);
    var all := rows + [Row(o, m)];
    assert r in all && Row(o, m) in all;
    assert Exact(t, o, r.m);
    SameOffsetSameSet(t', o, m, r.m);
  }

  lemma LosslessPrefix(t: Table, rows: seq<Row>, r: Row)
    ensures Lossless(t, rows + [r]) ==> Lossless(t, rows)
  {
    assert forall q :: q in rows ==> q in rows + [r];
  }

  /**
   * Storing a set keeps every set readable exactly if the set is already stored there, or all its
   * slots are free and its offset is unused.
   */
  lemma WriteLosslessIff(t: Table, t': Table, o: int, m: map<int, int>, rows: seq<Row>)
    requires Owned(t, rows) && Lossless(t, rows) && ValidRows(rows) && Natural(m)
    requires forall la :: la in m ==> 0 <= o + la < |t.entries|
    requires Written(t.entries, t'.entries, o, m)
    ensures Lossless(t', rows + [Row(o, m)]) <==> Exact(t, o, m) || Fits(t, o, m)
  {
    if Exact(t, o, m) {
      ExactLossless(t, t', o, m, rows);
    } else if Fits(t, o, m) {
      FitsLossless(t, t', o, m, rows);
    } else if k: nat :| k < |t.entries| && t.entries[k].la >= 0 && k - t.entries[k].la == o {
      UsedOffsetLoses(t, t', o, m, rows, k);
    } else {
      var la :| la in m && t.entries[o + la].la >= 0;
      TakenSlotLoses(t, t', o, m, rows, la);
      LosslessPrefix(t', rows, Row(o, m));
    }
  }

  lemma WriteOwned(t: Table, t': Table, o: int, m: map<int, int>, rows: seq<Row>)
    requires Owned(t, rows) && Written(t.entries, t'.entries, o, m)
    ensures Owned(t', rows + [Row(o, m)])
  {
    var row := Row(o, m);
    var all := rows + [row];
    assert row in all;
    forall k: nat | k < |t'.entries| && t'.entries[k].la >= 0 ensures exists r :: r in all && OwnedBy(t', r, k) {
      if k - o in m {
        assert OwnedBy(t', row, k);
      } else {
        assert t'.entries[k] == t.entries[k];
        var r :| r in rows && OwnedBy(t, r, k);
        assert r in all && OwnedBy(t', r, k);
      }
    }
  }

  // ---- Growing.

  /** Makes room for n + nsymbol + 1 slots. */
  function Grow(t: Table): (r: Table)
    ensures |r.entries| > t.n + t.nsymbol + 1 && r.n == t.n && r.nsymbol == t.nsymbol && r.nterminal == t.nterminal
  {
    var need := t.n + t.nsymbol + 1;
    if need >= |t.entries| then t.(entries := t.entries + seq(need + 20, _ => EMPTY)) else t
  }

  /** Growing changes nothing that can be read. */
  lemma GrowKeeps(t: Table, rows: seq<Row>)
    requires Shape(t) && Owned(t, rows)
    ensures Shape(Grow(t)) && Owned(Grow(t), rows)
    ensures forall o: int, la: int :: la >= 0 ==> ReadBack(Grow(t), o, la) == ReadBack(t, o, la)
    ensures Lossless(t, rows) ==> Lossless(Grow(t), rows)
  {
    var g := Grow(t);
    assert forall k :: 0 <= k < |t.entries| ==> g.entries[k] == t.entries[k];
    assert forall k :: |t.entries| <= k < |g.entries| ==> g.entries[k] == EMPTY;
    forall k: nat | k < |g.entries| && g.entries[k].la >= 0 ensures exists r :: r in rows && OwnedBy(g, r, k) {
      var r :| r in rows && OwnedBy(t, r, k);
      assert OwnedBy(g, r, k);
    }
  }

  // ---- The search for an offset.  Position i is where the least lookahead goes.

  function Slot(x: Txn, i: int, j: nat): int
    requires j < |x.items|
  {
    x.items[j].la - x.mn + i
  }

  function Start(x: Txn, safe: bool): int {
    if safe then x.mn else 0
  }

  /** The number of slots below b that belong to offset o. */
  function CountOf(t: Table, o: int, b: nat): nat
    requires b <= |t.entries|
  {
    if b == 0 then 0
    else CountOf(t, o, b - 1) + if t.entries[b - 1].la >= 0 && t.entries[b - 1].la == b - 1 - o then 1 else 0
  }

  ghost predicate AllMatch(t: Table, x: Txn, i: int)
    requires t.n <= |t.entries|
  {
    forall j :: 0 <= j < |x.items| ==> 0 <= Slot(x, i, j) < t.n && t.entries[Slot(x, i, j)] == x.items[j]
  }

  ghost predicate DupAt(t: Table, x: Txn, i: int)
    requires t.n <= |t.entries|
  {
    && 0 <= i < t.n && t.entries[i] == Entry(x.mn, x.mnAction)
    && AllMatch(t, x, i)
    && CountOf(t, i - x.mn, t.n) == |x.items|
  }

  ghost predicate AllFree(t: Table, x: Txn, i: int) {
    forall j :: 0 <= j < |x.items| ==> 0 <= Slot(x, i, j) < |t.entries| && t.entries[Slot(x, i, j)].la < 0
  }

  /** The test of the hole search; it also rejects an offset whose preceding slot is empty. */
  ghost predicate HoleAt(t: Table, x: Txn, i: int)
    requires t.n <= |t.entries|
  {
    && 0 <= i < |t.entries| && i < |t.entries| - x.mx && t.entries[i].la < 0
    && AllFree(t, x, i)
    && (forall j :: 0 <= j < t.n ==> t.entries[j].la != j + x.mn - i)
  }

  ghost predicate NoDup(t: Table, x: Txn, safe: bool)
    requires t.n <= |t.entries|
  {
    forall i :: Start(x, safe) <= i < t.n ==> !DupAt(t, x, i)
  }

  /** The first hole, or where the hole search gives up. */
  ghost predicate FirstHole(t: Table, x: Txn, safe: bool, i: int)
    requires t.n <= |t.entries|
  {
    && Start(x, safe) <= i
    && (forall i' :: Start(x, safe) <= i' < i ==> !HoleAt(t, x, i'))
    && (if i < |t.entries| - x.mx then HoleAt(t, x, i) else i == Start(x, safe) || i == |t.entries| - x.mx)
  }

  ghost predicate LastDup(t: Table, x: Txn, safe: bool, i: int)
    requires t.n <= |t.entries|
  {
    Start(x, safe) <= i < t.n && DupAt(t, x, i) && forall i' :: i < i' < t.n ==> !DupAt(t, x, i')
  }

  ghost predicate Chosen(t: Table, x: Txn, safe: bool, i: int)
    requires t.n <= |t.entries|
  {
    LastDup(t, x, safe, i) || (NoDup(t, x, safe) && FirstHole(t, x, safe, i))
  }

  function Max(a: int, b: int): int {
    if a < b then b else a
  }

  function NewSize(t: Table, x: Txn, safe: bool, i: int): int {
    var n := Max(t.n, x.mx - x.mn + i + 1);
    if safe && i + t.nterminal >= n then i + t.nterminal + 1 else n
  }

  /** The whole effect of an insertion at position i. */
  ghost predicate Placed(t: Table, t': Table, x: Txn, safe: bool, i: int) {
    && t'.nsymbol == t.nsymbol && t'.nterminal == t.nterminal && t'.n == NewSize(t, x, safe, i)
    && Written(t.entries, t'.entries, i - x.mn, AsMap(x.items))
  }

  // ---- What the tests of the search mean.

  lemma TxnMap(x: Txn, nsymbol: nat)
    requires ValidTxn(x, nsymbol)
    ensures Natural(AsMap(x.items))
    ensures forall la :: la in AsMap(x.items) ==> x.mn <= la <= x.mx
  {
    AsMapItems(x.items);
    assert x.items[0].la in AsMap(x.items);
  }

  /** The lookaheads that match at offset o, in slots below b. */
  ghost function Matching(t: Table, o: int, b: nat): (r: set<int>)
    requires b <= |t.entries|
    ensures forall la :: la in r <==> IsMatch(t, o, b, la)
    ensures |r| == CountOf(t, o, b)
  {
    if b == 0 then {}
    else if t.entries[b - 1].la >= 0 && t.entries[b - 1].la == b - 1 - o then Matching(t, o, b - 1) + {b - 1 - o}
    else Matching(t, o, b - 1)
  }

  ghost predicate IsMatch(t: Table, o: int, b: nat, la: int)
    requires b <= |t.entries|
  {
    la >= 0 && 0 <= o + la < b && t.entries[o + la].la == la
  }

  /** Matching entries together with the right count mean that the set is stored exactly. */
  lemma DupExact(t: Table, o: int, m: map<int, int>)
    requires Shape(t) && t.n <= |t.entries| && Natural(m)
    requires forall la :: la in m ==> 0 <= o + la < t.n && t.entries[o + la] == Entry(la, m[la])
    requires CountOf(t, o, t.n) == |m|
    ensures Exact(t, o, m)
  {
    var s := Matching(t, o, t.n);
    assert forall la :: la in m.Keys ==> IsMatch(t, o, t.n, la);
    SubsetSameSize(m.Keys, s);
    forall la: int | la >= 0 ensures ReadBack(t, o, la) == Lookup(m, la) {
      assert la in s <==> IsMatch(t, o, t.n, la);
    }
  }

  lemma ExactCount(t: Table, o: int, m: map<int, int>)
    requires Shape(t) && t.n <= |t.entries| && Natural(m) && Exact(t, o, m)
    ensures forall la :: la in m ==> 0 <= o + la < t.n && t.entries[o + la] == Entry(la, m[la])
    ensures CountOf(t, o, t.n) == |m|
  {
    forall la | la in m ensures 0 <= o + la < t.n && t.entries[o + la] == Entry(la, m[la]) {
      assert ReadBack(t, o, la) == Some(m[la]);
    }
    forall la ensures la in Matching(t, o, t.n) <==> la in m.Keys {
      if IsMatch(t, o, t.n, la) {
        assert ReadBack(t, o, la) == Lookup(m, la);
      }
    }
    assert Matching(t, o, t.n) == m.Keys;
  }

  /** Every slot of set m at offset o, below b, holds what m says. */
  ghost predicate Holds(t: Table, o: int, m: map<int, int>, b: nat)
    requires b <= |t.entries|
  {
    forall la :: la in m ==> 0 <= o + la < b && t.entries[o + la] == Entry(la, m[la])
  }

  ghost predicate AreFree(t: Table, o: int, m: map<int, int>) {
    forall la :: la in m ==> 0 <= o + la < |t.entries| && t.entries[o + la].la < 0
  }

  /** The duplicate test finds exactly the offsets at which the set is already stored. */
  lemma DupIff(t: Table, x: Txn, i: int)
    requires Shape(t) && t.n <= |t.entries| && ValidTxn(x, t.nsymbol)
    ensures DupAt(t, x, i) <==> Exact(t, i - x.mn, AsMap(x.items))
  {
    hide AsMap, Exact, AllMatch, ValidTxn, Shape;
    var o, m := i - x.mn, AsMap(x.items);
    TxnMap(x, t.nsymbol);
    TxnItems(x, t.nsymbol);
    MatchIff(t, x, i);
    if DupAt(t, x, i) {
      DupExact(t, o, m);
    }
    if Exact(t, o, m) {
      ExactCount(t, o, m);
    }
  }

  lemma TxnItems(x: Txn, nsymbol: nat)
    requires ValidTxn(x, nsymbol)
    ensures forall j :: 0 <= j < |x.items| ==> x.items[j].la in AsMap(x.items) && AsMap(x.items)[x.items[j].la] == x.items[j].act
    ensures forall la :: la in AsMap(x.items) ==> Entry(la, AsMap(x.items)[la]) in x.items
    ensures |AsMap(x.items)| == |x.items|
    ensures x.mn in AsMap(x.items) && AsMap(x.items)[x.mn] == x.mnAction
  {
    AsMapItems(x.items);
    var j :| 0 <= j < |x.items| && x.items[j] == Entry(x.mn, x.mnAction);
  }

  lemma MatchIff(t: Table, x: Txn, i: int)
    requires t.n <= |t.entries| && ValidTxn(x, t.nsymbol)
    ensures AllMatch(t, x, i) <==> Holds(t, i - x.mn, AsMap(x.items), t.n)
  {
    hide AsMap, ValidTxn;
    var o, m := i - x.mn, AsMap(x.items);
    TxnItems(x, t.nsymbol);
    if Holds(t, o, m, t.n) {
      forall j | 0 <= j < |x.items| ensures 0 <= Slot(x, i, j) < t.n && t.entries[Slot(x, i, j)] == x.items[j] {
        assert x.items[j].la in m;
      }
    }
    if AllMatch(t, x, i) {
      forall la | la in m ensures 0 <= o + la < t.n && t.entries[o + la] == Entry(la, m[la]) {
        var j :| 0 <= j < |x.items| && x.items[j] == Entry(la, m[la]);
        assert Slot(x, i, j) == o + la;
      }
    }
  }

  lemma FreeIff(t: Table, x: Txn, i: int)
    requires ValidTxn(x, t.nsymbol)
    ensures AllFree(t, x, i) <==> AreFree(t, i - x.mn, AsMap(x.items))
  {
    hide AsMap, ValidTxn;
    var o, m := i - x.mn, AsMap(x.items);
    TxnItems(x, t.nsymbol);
    if AreFree(t, o, m) {
      forall j | 0 <= j < |x.items| ensures 0 <= Slot(x, i, j) < |t.entries| && t.entries[Slot(x, i, j)].la < 0 {
        assert x.items[j].la in m;
      }
    }
    if AllFree(t, x, i) {
      forall la | la in m ensures 0 <= o + la < |t.entries| && t.entries[o + la].la < 0 {
        var j :| 0 <= j < |x.items| && x.items[j] == Entry(la, m[la]);
        assert Slot(x, i, j) == o + la;
      }
    }
  }

  lemma HoleFits(t: Table, x: Txn, i: int)
    requires Shape(t) && t.n <= |t.entries| && ValidTxn(x, t.nsymbol) && HoleAt(t, x, i)
    ensures Fits(t, i - x.mn, AsMap(x.items))
  {
    hide AsMap;
    FreeIff(t, x, i);
  }

  /** Far enough behind the used slots there is a hole. */
  lemma BehindAll(t: Table, x: Txn, i: int)
    requires Shape(t) && ValidTxn(x, t.nsymbol) && t.n + x.mn < i < |t.entries| - x.mx
    ensures HoleAt(t, x, i)
  {
    assert forall j :: 0 <= j < |x.items| ==> t.n < Slot(x, i, j) < |t.entries|;
  }

  /** The search never runs past the allocated slots when all lookaheads are symbols. */
  lemma ChosenInBounds(t: Table, x: Txn, safe: bool, i: int)
    requires Shape(t) && |t.entries| > t.n + t.nsymbol + 1 && ValidTxn(x, t.nsymbol) && Chosen(t, x, safe, i)
    ensures i >= 0 && (safe ==> i >= x.mn)
    ensures i - x.mn + x.mx < |t.entries|
    ensures forall la :: la in AsMap(x.items) ==> 0 <= i - x.mn + la < |t.entries|
  {
    hide AsMap;
    TxnMap(x, t.nsymbol);
    if i >= |t.entries| - x.mx && x.mn == 0 {
      BehindAll(t, x, t.n + 1);
    }
  }

  // ---- What the search will find, told from the table before the call.

  /** Every slot of the set at position p is free, and no slot in use, nor the one in front of the offset, speaks against it. */
  ghost predicate Vacant(t: Table, x: Txn, p: int) {
    && (forall e :: e in x.items ==> 0 <= p + e.la - x.mn < |t.entries| && t.entries[p + e.la - x.mn].la < 0)
    && (forall j :: 0 <= j < t.n && j < |t.entries| ==> t.entries[j].la != j + x.mn - p)
  }

  /**
   * What an insertion looks for: the highest offset at which the set is already stored, else the first vacant position,
   * else the end of the room for its greatest lookahead. Sets that are not safe may have negative offsets.
   */
  lemma ChosenMeans(t: Table, x: Txn, safe: bool, i: int)
    requires Shape(t) && t.n <= |t.entries| && ValidTxn(x, t.nsymbol) && Chosen(t, x, safe, i)
    ensures i >= if safe then x.mn else 0
    ensures forall o :: o >= (if safe then 0 else -x.mn) && Exact(t, o, AsMap(x.items)) ==>
      o <= i - x.mn && Exact(t, i - x.mn, AsMap(x.items))
    ensures !Exact(t, i - x.mn, AsMap(x.items)) ==>
      && (forall p :: (if safe then x.mn else 0) <= p < i && p < |t.entries| - x.mx ==> !Vacant(t, x, p))
      && (i < |t.entries| - x.mx ==> Vacant(t, x, i))
      && (i > |t.entries| - x.mx ==> i == if safe then x.mn else 0)
  {
    hide AsMap, Exact, DupAt, Shape;
    forall o | o >= (if safe then 0 else -x.mn) && Exact(t, o, AsMap(x.items))
      ensures o <= i - x.mn && Exact(t, i - x.mn, AsMap(x.items))
    {
      DupIff(t, x, o + x.mn);
      DupRange(t, x, o + x.mn);
      DupIff(t, x, i);
    }
    DupIff(t, x, i);
    if !DupAt(t, x, i) {
      forall p | (if safe then x.mn else 0) <= p <= i && p < |t.entries| - x.mx ensures HoleAt(t, x, p) <==> Vacant(t, x, p) {
        HoleVacant(t, x, p);
      }
    }
  }

  lemma DupRange(t: Table, x: Txn, i: int)
    requires t.n <= |t.entries| && DupAt(t, x, i)
    ensures 0 <= i < t.n
  {
  }

  lemma HoleVacant(t: Table, x: Txn, p: int)
    requires t.n <= |t.entries| && ValidTxn(x, t.nsymbol) && 0 <= p < |t.entries| - x.mx
    ensures HoleAt(t, x, p) <==> Vacant(t, x, p)
  {
    if HoleAt(t, x, p) {
      forall e | e in x.items ensures 0 <= p + e.la - x.mn < |t.entries| && t.entries[p + e.la - x.mn].la < 0 {
        var j :| 0 <= j < |x.items| && x.items[j] == e;
        assert Slot(x, p, j) == p + e.la - x.mn;
      }
    }
    if Vacant(t, x, p) {
      assert Entry(x.mn, x.mnAction) in x.items;
      forall j | 0 <= j < |x.items| ensures 0 <= Slot(x, p, j) < |t.entries| && t.entries[Slot(x, p, j)].la < 0 {
        assert x.items[j] in x.items;
      }
    }
  }

  /** The number of slots in use afterwards is the least that covers those before, the set, and all tokens of a safe set. */
  lemma NewSizeLeast(t: Table, x: Txn, safe: bool, i: int)
    requires ValidTxn(x, t.nsymbol)
    ensures var n := NewSize(t, x, safe, i);
      && n >= t.n && (forall e :: e in x.items ==> i - x.mn + e.la < n) && (safe ==> i + t.nterminal < n)
      && (n == t.n || n == i - x.mn + x.mx + 1 || (safe && n == i + t.nterminal + 1))
  {
  }

  function GiveUp(t: Table, x: Txn, safe: bool): int {
    Max(Start(x, safe), |t.entries| - x.mx)
  }

  /** The set is stored already, or there is a hole for it, or it happens to fit where the search gives up. */
  ghost predicate HasPlace(t: Table, x: Txn, safe: bool)
    requires t.n <= |t.entries|
  {
    || !NoDup(t, x, safe)
    || (exists i :: Start(x, safe) <= i && HoleAt(t, x, i))
    || Fits(t, GiveUp(t, x, safe) - x.mn, AsMap(x.items))
  }

  lemma HasPlaceIff(t: Table, x: Txn, safe: bool, i: int)
    requires Shape(t) && t.n <= |t.entries| && ValidTxn(x, t.nsymbol) && Chosen(t, x, safe, i)
    ensures HasPlace(t, x, safe) <==> DupAt(t, x, i) || Fits(t, i - x.mn, AsMap(x.items))
  {
    hide AsMap, Fits, DupAt, Shape, ValidTxn;
    if !LastDup(t, x, safe, i) {
      NoDupBehind(t, x, safe, i);
      if i < |t.entries| - x.mx {
        HoleFits(t, x, i);
      } else {
        assert i == GiveUp(t, x, safe);
        forall i' | Start(x, safe) <= i' ensures !HoleAt(t, x, i') {
        }
      }
    }
  }

  lemma NoDupBehind(t: Table, x: Txn, safe: bool, i: int)
    requires t.n <= |t.entries| && NoDup(t, x, safe) && Start(x, safe) <= i
    ensures !DupAt(t, x, i)
  {
  }

  /** Every token of a safe set gets an allocated slot: behind a duplicate, a hole or the place of giving up. */
  ghost predicate TokensFit(t: Table, x: Txn, safe: bool)
    requires t.n <= |t.entries|
  {
    var last := |t.entries| - t.nterminal;
    if !NoDup(t, x, safe) then forall i :: Start(x, safe) <= i < t.n && DupAt(t, x, i) ==> i < last
    else
      || (exists i :: Start(x, safe) <= i < last && HoleAt(t, x, i))
      || (GiveUp(t, x, safe) < last && forall i :: Start(x, safe) <= i ==> !HoleAt(t, x, i))
  }

  lemma TokensFitIff(t: Table, x: Txn, safe: bool, i: int)
    requires t.n <= |t.entries| && Chosen(t, x, safe, i)
    ensures TokensFit(t, x, safe) <==> i + t.nterminal < |t.entries|
  {
    hide DupAt;
    if LastDup(t, x, safe, i) {
      forall i' | Start(x, safe) <= i' < t.n && DupAt(t, x, i') ensures i' <= i {
      }
    } else if i < |t.entries| - x.mx {
      assert HoleAt(t, x, i);
    } else {
      forall i' | Start(x, safe) <= i' ensures !HoleAt(t, x, i') {
      }
    }
  }

  /** An insertion keeps every set readable exactly if the table has a place for the set. */
  lemma InsertLosslessIff(t: Table, t': Table, x: Txn, safe: bool, i: int, rows: seq<Row>)
    requires Shape(t) && |t.entries| > t.n + t.nsymbol + 1 && ValidTxn(x, t.nsymbol)
    requires Owned(t, rows) && Lossless(t, rows) && ValidRows(rows)
    requires Chosen(t, x, safe, i) && Placed(t, t', x, safe, i)
    ensures Lossless(t', rows + [Row(i - x.mn, AsMap(x.items))]) <==> HasPlace(t, x, safe)
  {
    hide AsMap, Lossless, Owned, Fits, Exact, Written, HasPlace;
    HasPlaceIff(t, x, safe, i);
    ChosenInBounds(t, x, safe, i);
    TxnMap(x, t.nsymbol);
    DupIff(t, x, i);
    WriteLosslessIff(t, t', i - x.mn, AsMap(x.items), rows);
  }

  /** Free room as wide as the least and the greatest lookahead together makes the search succeed. */
  lemma SlackSuffices(t: Table, x: Txn, safe: bool, i: int)
    requires Shape(t) && |t.entries| > t.n + x.mn + x.mx + 1 && ValidTxn(x, t.nsymbol)
    requires Chosen(t, x, safe, i)
    ensures DupAt(t, x, i) || Fits(t, i - x.mn, AsMap(x.items))
    ensures i <= t.n + x.mn + 1
  {
    hide AsMap, Fits;
    BehindAll(t, x, t.n + x.mn + 1);
    if !DupAt(t, x, i) {
      HoleFits(t, x, i);
    }
  }

  /** The first set of all always fits, whichever way the search ends. */
  lemma FirstSetFits(t: Table, x: Txn, safe: bool, i: int)
    requires Shape(t) && t.n == 0 && |t.entries| > t.nsymbol + 1 && ValidTxn(x, t.nsymbol) && Chosen(t, x, safe, i)
    ensures Fits(t, i - x.mn, AsMap(x.items))
  {
    hide AsMap;
    ChosenInBounds(t, x, safe, i);
  }

  /** What an insertion keeps in any case. */
  lemma PlacedKeeps(t: Table, t': Table, x: Txn, safe: bool, i: int, rows: seq<Row>)
    requires Shape(t) && |t.entries| > t.n + t.nsymbol + 1 && ValidTxn(x, t.nsymbol)
    requires Owned(t, rows) && ValidRows(rows) && Chosen(t, x, safe, i) && Placed(t, t', x, safe, i)
    ensures Shape(t') && Owned(t', rows + [Row(i - x.mn, AsMap(x.items))])
    ensures ValidRows(rows + [Row(i - x.mn, AsMap(x.items))])
    ensures safe ==> 0 <= i - x.mn && i + t.nterminal < t'.n
    ensures t'.n >= t.n
  {
    hide AsMap, Owned, Chosen;
    TxnMap(x, t.nsymbol);
    ChosenInBounds(t, x, safe, i);
    WriteOwned(t, t', i - x.mn, AsMap(x.items), rows);
  }

  // ---- The code.

  class ActTab {
    const nsymbol: nat
    const nterminal: nat
    var nAction: nat
    var aAction: array<Entry>
    var aLookahead: seq<Entry>
    var mnLookahead: int
    var mnAction: int
    var mxLookahead: int

    function View(): Table
      reads this, aAction
    {
      Table(nsymbol, nterminal, aAction[..], nAction)
    }

    function Pending(): Txn
      reads this
    {
      Txn(aLookahead, mnLookahead, mnAction, mxLookahead)
    }

    ghost predicate Valid()
      reads this, aAction
    {
      Shape(View()) && (aLookahead != [] ==> ValidTxn(Pending(), nsymbol))
    }

    constructor (nsymbol: nat, nterminal: nat)
      requires nterminal <= nsymbol
      ensures Valid() && View() == Table(nsymbol, nterminal, [], 0) && aLookahead == [] && fresh(aAction)
    {
      this.nsymbol, this.nterminal := nsymbol, nterminal;
      nAction, aLookahead, mnLookahead, mnAction, mxLookahead := 0, [], 0, 0, 0;
      aAction := new Entry[0];
    }

    /** Adds an action to the set under construction. */
    method AddAction(lookahead: int, action: int)
      requires Valid() && 0 <= lookahead < nsymbol
      requires forall j :: 0 <= j < |aLookahead| ==> aLookahead[j].la != lookahead
      modifies this`aLookahead, this`mnLookahead, this`mnAction, this`mxLookahead
      ensures Valid() && aLookahead == old(aLookahead) + [Entry(lookahead, action)]
    {
      ghost var x := Pending();
      if aLookahead == [] {
        mxLookahead, mnLookahead, mnAction := lookahead, lookahead, action;
      } else {
        if mxLookahead < lookahead {
          mxLookahead := lookahead;
        }
        if mnLookahead > lookahead {
          mnLookahead, mnAction := lookahead, action;
        }
      }
      aLookahead := aLookahead + [Entry(lookahead, action)];
      ExtendTxn(x, Pending(), lookahead, action, nsymbol);
    }

    method GrowTable()
      requires Valid()
      modifies this`aAction
      ensures View() == Grow(old(View())) && Shape(View())
      ensures aAction.Length == old(aAction.Length) +
        if nAction + nsymbol + 1 >= old(aAction.Length) then nAction + nsymbol + 1 + 20 else 0
      ensures forall k :: 0 <= k < aAction.Length ==> aAction[k] == if k < old(aAction.Length) then old(aAction[..])[k] else Entry(-1, -1)
      ensures aAction == old(aAction) || fresh(aAction)
    {
      var n := nsymbol + 1;
      if nAction + n >= aAction.Length {
        var was, oldAlloc := aAction, aAction.Length;
        var a := new Entry[nAction + n + oldAlloc + 20](_ => EMPTY);
        for i := 0 to oldAlloc
          invariant forall k :: 0 <= k < a.Length ==> a[k] == if k < i then was[k] else EMPTY
        {
          a[i] := was[i];
        }
        aAction := a;
      }
      GrowKeepsShape(old(View()));
    }

    /** Do all entries of the pending set match at position i? */
    method Matches(i: int) returns (ok: bool)
      requires nAction <= aAction.Length
      ensures ok <==> AllMatch(View(), Pending(), i)
    {
      var j := 0;
      while j < |aLookahead|
        invariant 0 <= j <= |aLookahead|
        invariant forall j' :: 0 <= j' < j ==>
          var k := Slot(Pending(), i, j'); 0 <= k < nAction && aAction[k] == aLookahead[j']
      {
        var k := aLookahead[j].la - mnLookahead + i;
        if k < 0 || k >= nAction { break; }
        if aLookahead[j].la != aAction[k].la { break; }
        if aLookahead[j].act != aAction[k].act { break; }
        j := j + 1;
      }
      ok := j == |aLookahead|;
      assert !ok ==> !(0 <= Slot(Pending(), i, j) < nAction && aAction[Slot(Pending(), i, j)] == aLookahead[j]);
    }

    method Count(i: int) returns (n: nat)
      requires nAction <= aAction.Length
      ensures n == CountOf(View(), i - mnLookahead, nAction)
    {
      n := 0;
      for j := 0 to nAction
        invariant n == CountOf(View(), i - mnLookahead, j)
      {
        if aAction[j].la < 0 { continue; }
        if aAction[j].la == j + mnLookahead - i {
          n := n + 1;
        }
      }
    }

    /** Scans down for a duplicate of the pending set; the result is below `end` if there is none. */
    method FindDup(end: int) returns (i: int)
      requires nAction <= aAction.Length && end >= 0
      ensures if i >= end
        then i < nAction && DupAt(View(), Pending(), i) && forall i' :: i < i' < nAction ==> !DupAt(View(), Pending(), i')
        else forall i' :: end <= i' < nAction ==> !DupAt(View(), Pending(), i')
    {
      i := nAction - 1;
      while i >= end
        invariant -1 <= i < nAction
        invariant forall i' :: i < i' < nAction ==> !DupAt(View(), Pending(), i')
      {
        if aAction[i].la == mnLookahead && aAction[i].act == mnAction {
          var ok := Matches(i);
          if ok {
            var n := Count(i);
            if n == |aLookahead| {
              return;
            }
          }
        }
        i := i - 1;
      }
    }

    method SlotsFree(i: int) returns (ok: bool)
      requires i >= 0 && i + mxLookahead < aAction.Length && aLookahead != [] && ValidTxn(Pending(), nsymbol)
      ensures ok <==> AllFree(View(), Pending(), i)
    {
      var j := 0;
      while j < |aLookahead|
        invariant 0 <= j <= |aLookahead|
        invariant forall j' :: 0 <= j' < j ==> aAction[Slot(Pending(), i, j')].la < 0
      {
        var k := aLookahead[j].la - mnLookahead + i;
        if aAction[k].la >= 0 { break; }
        j := j + 1;
      }
      ok := j == |aLookahead|;
      assert !ok ==> aAction[Slot(Pending(), i, j)].la >= 0;
    }

    method OffsetUnused(i: int) returns (ok: bool)
      requires nAction <= aAction.Length
      ensures ok <==> forall j :: 0 <= j < nAction ==> aAction[j].la != j + mnLookahead - i
    {
      var j := 0;
      while j < nAction
        invariant 0 <= j <= nAction
        invariant forall j' :: 0 <= j' < j ==> aAction[j'].la != j' + mnLookahead - i
      {
        if aAction[j].la == j + mnLookahead - i { break; }
        j := j + 1;
      }
      ok := j == nAction;
    }

    /** Scans up for a hole that the pending set fits into. */
    method FindHole(safe: bool) returns (i: int)
      requires nAction <= aAction.Length && aLookahead != [] && ValidTxn(Pending(), nsymbol)
      ensures FirstHole(View(), Pending(), safe, i)
    {
      i := if safe then mnLookahead else 0;
      while i < aAction.Length - mxLookahead
        invariant Start(Pending(), safe) <= i
        invariant i == Start(Pending(), safe) || i <= aAction.Length - mxLookahead
        invariant forall i' :: Start(Pending(), safe) <= i' < i ==> !HoleAt(View(), Pending(), i')
      {
        if aAction[i].la < 0 {
          var free := SlotsFree(i);
          if free {
            var unused := OffsetUnused(i);
            if unused {
              return;
            }
          }
        }
        i := i + 1;
      }
    }

    /** Writes the pending set at position i. */
    method Store(i: int, safe: bool)
      requires aLookahead != [] && ValidTxn(Pending(), nsymbol) && i >= 0
      requires i - mnLookahead + mxLookahead < aAction.Length
      modifies this`nAction, aAction
      ensures Placed(old(View()), View(), Pending(), safe, i)
    {
      hide AsMap, Written;
      ghost var t, o := View(), i - mnLookahead;
      NothingWritten(t.entries, o);
      for j := 0 to |aLookahead|
        invariant Written(t.entries, aAction[..], o, AsMap(aLookahead[..j]))
        invariant t.n <= nAction && (nAction == t.n || nAction <= mxLookahead - mnLookahead + i + 1)
        invariant forall j' :: 0 <= j' < j ==> Slot(Pending(), i, j') < nAction
      {
        var k := aLookahead[j].la - mnLookahead + i;
        ghost var e := aAction[..];
        aAction[k] := aLookahead[j];
        WriteOne(t.entries, e, aAction[..], o, aLookahead, j);
        assert Slot(Pending(), i, j) == k;
        if k >= nAction {
          nAction := k + 1;
        }
      }
      assert aLookahead[..|aLookahead|] == aLookahead;
      ghost var jx :| 0 <= jx < |aLookahead| && aLookahead[jx].la == mxLookahead;
      assert Slot(Pending(), i, jx) < nAction;
      if safe && i + nterminal >= nAction {
        nAction := i + nterminal + 1;
      }
    }

    /** Inserts the pending set; the result is the offset to be added to a lookahead. */
    method Insert(safe: bool) returns (ofst: int)
      requires Valid() && aLookahead != []
      modifies this, aAction
      ensures Chosen(Grow(old(View())), old(Pending()), safe, ofst + old(mnLookahead))
      ensures Placed(Grow(old(View())), View(), old(Pending()), safe, ofst + old(mnLookahead))
      ensures Valid() && aLookahead == []
    {
      hide Shape, LastDup, NoDup, FirstHole, Placed, AsMap, ValidTxn;
      ghost var x := Pending();
      TxnStart(x, nsymbol);
      GrowTable();
      ghost var t := View();
      var end := if safe then mnLookahead else 0;
      var i := FindDup(end);
      DupFound(t, x, safe, i);
      if i < end {
        i := FindHole(safe);
      }
      ChosenInBounds(t, x, safe, i);
      Store(i, safe);
      PlacedKeepsShape(t, View(), x, safe, i);
      aLookahead := [];
      ofst := i - mnLookahead;
    }
  }

  lemma ExtendTxn(x: Txn, x': Txn, la: int, act: int, nsymbol: nat)
    requires x.items != [] ==> ValidTxn(x, nsymbol)
    requires 0 <= la < nsymbol && forall j :: 0 <= j < |x.items| ==> x.items[j].la != la
    requires x'.items == x.items + [Entry(la, act)]
    requires x.items == [] ==> x'.mn == x'.mx == la && x'.mnAction == act
    requires x.items != [] ==> x'.mx == Max(x.mx, la)
    requires x.items != [] ==> if la < x.mn then x'.mn == la && x'.mnAction == act else x'.mn == x.mn && x'.mnAction == x.mnAction
    ensures ValidTxn(x', nsymbol)
  {
    var n := |x.items|;
    assert x'.items[n] == Entry(la, act);
    assert forall j :: 0 <= j < n ==> x'.items[j] == x.items[j];
    if x.items != [] {
      var j :| 0 <= j < n && x.items[j].la == x.mx;
      assert x'.items[if x'.mx == x.mx then j else n].la == x'.mx;
      var j0 :| 0 <= j0 < n && x.items[j0] == Entry(x.mn, x.mnAction);
      assert x'.items[if la < x.mn then n else j0] == Entry(x'.mn, x'.mnAction);
    }
  }

  lemma GrowKeepsShape(t: Table)
    requires Shape(t)
    ensures Shape(Grow(t))
  {
  }

  lemma TxnStart(x: Txn, nsymbol: nat)
    requires ValidTxn(x, nsymbol)
    ensures 0 <= x.mn <= x.mx
  {
    assert x.items[0].la <= x.mx;
  }

  lemma DupFound(t: Table, x: Txn, safe: bool, i: int)
    requires t.n <= |t.entries|
    ensures Start(x, safe) <= i < t.n && DupAt(t, x, i) && (forall i' :: i < i' < t.n ==> !DupAt(t, x, i')) ==> LastDup(t, x, safe, i)
    ensures (forall i' :: Start(x, safe) <= i' < t.n ==> !DupAt(t, x, i')) ==> NoDup(t, x, safe)
  {
  }

  lemma PlacedKeepsShape(t: Table, t': Table, x: Txn, safe: bool, i: int)
    requires Shape(t) && ValidTxn(x, t.nsymbol) && Placed(t, t', x, safe, i)
    ensures Shape(t')
  {
    hide AsMap;
    TxnMap(x, t.nsymbol);
  }

  lemma NothingWritten(e: seq<Entry>, o: int)
    ensures forall items: seq<Entry> :: Written(e, e, o, AsMap(items[..0]))
  {
    forall items: seq<Entry> ensures Written(e, e, o, AsMap(items[..0])) {
      assert items[..0] == [];
    }
  }

  lemma WriteOne(e0: seq<Entry>, e: seq<Entry>, e': seq<Entry>, o: int, items: seq<Entry>, j: nat)
    requires j < |items| && Written(e0, e, o, AsMap(items[..j]))
    requires 0 <= o + items[j].la < |e| && e' == e[o + items[j].la := items[j]]
    ensures Written(e0, e', o, AsMap(items[..j + 1]))
  {
    assert items[..j + 1][..j] == items[..j];
  }
}
