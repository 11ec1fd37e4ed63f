/** Whole runs of insertions into the action table: when all sets stay readable, and when not. */
module ActionTableRuns {
  import opened ActionTable

  /** One insertion of set `x`: it put the least lookahead at position `i`. */
  datatype Call = Call(x: Txn, safe: bool, i: int, after: Table)

  function Empty(nsymbol: nat, nterminal: nat): Table {
    Table(nsymbol, nterminal, [], 0)
  }

  function TableAfter(t0: Table, calls: seq<Call>): Table {
    if calls == [] then t0 else calls[|calls| - 1].after
  }

  ghost function RowOf(c: Call): Row {
    Row(c.i - c.x.mn, AsMap(c.x.items))
  }

  ghost function RowsOf(calls: seq<Call>): (r: seq<Row>)
    ensures |r| == |calls|
  {
    if calls == [] then [] else RowsOf(calls[..|calls| - 1]) + [RowOf(calls[|calls| - 1])]
  }

  /** What the code did in the last call of a run. */
  ghost predicate IsCall(before: Table, c: Call) {
    && ValidTxn(c.x, before.nsymbol)
    && Chosen(Grow(before), c.x, c.safe, c.i)
    && Placed(Grow(before), c.after, c.x, c.safe, c.i)
  }

  ghost predicate IsRun(t0: Table, calls: seq<Call>) {
    calls == [] ||
      (var front := calls[..|calls| - 1];
       IsRun(t0, front) && IsCall(TableAfter(t0, front), calls[|calls| - 1]))
  }

  /** The table has a place for the set that the call brings. */
  ghost predicate Sound(before: Table, c: Call) {
    var t := Grow(before);
    t.n <= |t.entries| && HasPlace(t, c.x, c.safe)
  }

  ghost predicate AllSound(t0: Table, calls: seq<Call>) {
    calls == [] ||
      (var front := calls[..|calls| - 1];
       AllSound(t0, front) && Sound(TableAfter(t0, front), calls[|calls| - 1]))
  }

  /** Every call but the first finds room for its least and greatest lookahead together behind the slots in use. */
  ghost predicate AllSlack(t0: Table, calls: seq<Call>) {
    calls == [] ||
      (var front := calls[..|calls| - 1];
       var before := Grow(TableAfter(t0, front));
       var x := calls[|calls| - 1].x;
       AllSlack(t0, front) && (front == [] || |before.entries| > before.n + x.mn + x.mx + 1))
  }

  /** For sets inserted with `makeItSafe`, every token gives a slot of the table. */
  ghost predicate TokensInside(t: Table, calls: seq<Call>) {
    forall j :: 0 <= j < |calls| && calls[j].safe ==>
      0 <= calls[j].i - calls[j].x.mn && calls[j].i + t.nterminal < t.n
  }

  /** In every run, sound calls keep all sets readable, and the first call that is not sound loses one. */
  lemma {:induction false} RunLossless(nsymbol: nat, nterminal: nat, calls: seq<Call>)
    requires nterminal <= nsymbol && IsRun(Empty(nsymbol, nterminal), calls)
    ensures var t := TableAfter(Empty(nsymbol, nterminal), calls);
      && Shape(t) && t.nsymbol == nsymbol && t.nterminal == nterminal
      && Owned(t, RowsOf(calls)) && ValidRows(RowsOf(calls))
      && TokensInside(t, calls)
    ensures AllSound(Empty(nsymbol, nterminal), calls) ==>
      Lossless(TableAfter(Empty(nsymbol, nterminal), calls), RowsOf(calls))
    ensures calls != [] && AllSound(Empty(nsymbol, nterminal), calls[..|calls| - 1]) && !AllSound(Empty(nsymbol, nterminal), calls) ==>
      !Lossless(TableAfter(Empty(nsymbol, nterminal), calls), RowsOf(calls))
    decreases |calls|
  {
    hide AsMap, Lossless, Owned, ValidRows, Shape, HasPlace, Chosen, Placed, ValidTxn, Grow;
    if calls == [] {
      EmptyTable(nsymbol, nterminal);
    } else {
      var t0, front, c := Empty(nsymbol, nterminal), calls[..|calls| - 1], calls[|calls| - 1];
      var before := TableAfter(t0, front);
      RunLossless(nsymbol, nterminal, front);
      GrowKeeps(before, RowsOf(front));
      PlacedKeeps(Grow(before), c.after, c.x, c.safe, c.i, RowsOf(front));
      PlacedSizes(Grow(before), c.after, c.x, c.safe, c.i);
      if AllSound(t0, front) {
        InsertLosslessIff(Grow(before), c.after, c.x, c.safe, c.i, RowsOf(front));
      }
      assert TokensInside(c.after, calls) by {
        forall j | 0 <= j < |calls| && calls[j].safe
          ensures 0 <= calls[j].i - calls[j].x.mn && calls[j].i + nterminal < c.after.n
        {
          if j < |front| {
            assert front[j] == calls[j];
          }
        }
      }
    }
  }

  /** After every call of the run, all sets inserted so far are read back exactly. */
  ghost predicate NeverLoses(t0: Table, calls: seq<Call>) {
    calls == [] || (NeverLoses(t0, calls[..|calls| - 1]) && Lossless(TableAfter(t0, calls), RowsOf(calls)))
  }

  /** A run never loses a set exactly if every call brings a set that the table has a place for. */
  lemma {:induction false} NeverLosesIff(nsymbol: nat, nterminal: nat, calls: seq<Call>)
    requires nterminal <= nsymbol && IsRun(Empty(nsymbol, nterminal), calls)
    ensures NeverLoses(Empty(nsymbol, nterminal), calls) <==> AllSound(Empty(nsymbol, nterminal), calls)
    decreases |calls|
  {
    hide Lossless, Sound, IsCall;
    RunLossless(nsymbol, nterminal, calls);
    if calls != [] {
      NeverLosesIff(nsymbol, nterminal, calls[..|calls| - 1]);
    }
  }

  /** With such room in every call, no run loses a set. */
  lemma {:induction false} SlackRunSound(nsymbol: nat, nterminal: nat, calls: seq<Call>)
    requires nterminal <= nsymbol && IsRun(Empty(nsymbol, nterminal), calls) && AllSlack(Empty(nsymbol, nterminal), calls)
    ensures AllSound(Empty(nsymbol, nterminal), calls)
    ensures Lossless(TableAfter(Empty(nsymbol, nterminal), calls), RowsOf(calls))
    decreases |calls|
  {
    hide AsMap, Lossless, Owned, ValidRows, Shape, Fits, DupAt, HasPlace, Chosen, Placed, ValidTxn, Grow;
    RunLossless(nsymbol, nterminal, calls);
    if calls != [] {
      var t0, front, c := Empty(nsymbol, nterminal), calls[..|calls| - 1], calls[|calls| - 1];
      var before := TableAfter(t0, front);
      SlackRunSound(nsymbol, nterminal, front);
      RunLossless(nsymbol, nterminal, front);
      GrowKeeps(before, RowsOf(front));
      if front == [] {
        FirstSetFits(Grow(before), c.x, c.safe, c.i);
      } else {
        SlackSuffices(Grow(before), c.x, c.safe, c.i);
      }
      HasPlaceIff(Grow(before), c.x, c.safe, c.i);
    }
  }

  /**
   * The number of slots in use stays within those allocated unless the duplicate, the hole or the place of giving
   * up that the search finds for a safe set is so close to the end that the last token's slot is not allocated.
   * The next insertion allocates it.
   */
  lemma SizeWithinTableIff(before: Table, c: Call)
    requires Shape(before) && before.n <= |Grow(before).entries| && IsCall(before, c)
    ensures c.after.n <= |c.after.entries| <==> !c.safe || TokensFit(Grow(before), c.x, c.safe)
  {
    hide TokensFit;
    TokensFitIff(Grow(before), c.x, c.safe, c.i);
    ChosenInBounds(Grow(before), c.x, c.safe, c.i);
    GrowKeepsShape(before);
  }

  /** A first safe set with the last of thirty tokens leaves 60 slots in use and 51 allocated. */
  lemma SizeCanOverrun(c: Call)
    requires IsCall(Empty(30, 30), c) && c.x == Single(29, 1) && c.safe
    ensures c.after.n == 60 && |c.after.entries| == 51
  {
    var t := Grow(Empty(30, 30));
    assert |t.entries| == 51;
    assert t.n == 0;
    assert c.i == 29;
  }

  lemma EmptyTable(nsymbol: nat, nterminal: nat)
    requires nterminal <= nsymbol
    ensures Shape(Empty(nsymbol, nterminal)) && Owned(Empty(nsymbol, nterminal), []) && Lossless(Empty(nsymbol, nterminal), [])
    ensures ValidRows([])
  {
  }

  lemma PlacedSizes(t: Table, t': Table, x: Txn, safe: bool, i: int)
    requires Placed(t, t', x, safe, i)
    ensures t'.nsymbol == t.nsymbol && t'.nterminal == t.nterminal
  {
  }

  // ---- The search can give up and spoil a set: room of nsymbol + 2 slots is not enough.

  /** Slots 0 to k-1 each hold a set of lookahead 0 only. */
  function Dense(k: nat): (t: Table)
    requires k <= 19
    ensures |t.entries| == 26
  {
    Table(5, 1, seq(26, j requires 0 <= j < 26 => if j < k then Entry(0, j + 1) else EMPTY), k)
  }

  function Single(la: int, act: int): Txn {
    Txn([Entry(la, act)], la, act, la)
  }

  lemma SingleMap(la: int, act: int)
    ensures AsMap([Entry(la, act)]) == map[la := act]
  {
    var items := [Entry(la, act)];
    assert items[..0] == [] && AsMap([]) == map[];
  }

  function DenseCalls(k: nat): (calls: seq<Call>)
    requires k <= 19
    ensures |calls| == k
  {
    if k == 0 then [] else DenseCalls(k - 1) + [Call(Single(0, k), false, k - 1, Dense(k))]
  }

  function Spoiled(): Table {
    Dense(19).(entries := Dense(19).entries[22 := Entry(4, 99)], n := 23)
  }

  /** The last of these twenty calls. */
  function SpoilingCall(): Call {
    Call(Single(4, 99), false, 22, Spoiled())
  }

  lemma DenseGrow(k: nat)
    requires k <= 19
    ensures Grow(TableAfter(Empty(5, 1), DenseCalls(k))) == Dense(k)
    ensures Grow(Dense(k)) == Dense(k)
  {
    if k == 0 {
      assert Grow(Empty(5, 1)).entries == Dense(0).entries;
    }
  }

  lemma DenseStep(k: nat)
    requires k < 19
    ensures ValidTxn(Single(0, k + 1), 5)
    ensures Chosen(Dense(k), Single(0, k + 1), false, k) && Placed(Dense(k), Dense(k + 1), Single(0, k + 1), false, k)
    ensures HasPlace(Dense(k), Single(0, k + 1), false)
  {
    var x, t := Single(0, k + 1), Dense(k);
    SingleMap(0, k + 1);
    assert x.items[0].la == 0;
    assert HoleAt(t, x, k) by {
      assert Slot(x, k, 0) == k;
    }
    assert FirstHole(t, x, false, k);
    assert NoDup(t, x, false);
  }

  lemma {:induction false} DenseRun(k: nat)
    requires k <= 19
    ensures IsRun(Empty(5, 1), DenseCalls(k)) && AllSound(Empty(5, 1), DenseCalls(k))
    decreases k
  {
    hide Chosen, Placed, HasPlace, ValidTxn, Grow;
    if k > 0 {
      DenseRun(k - 1);
      var calls := DenseCalls(k);
      assert calls[..k - 1] == DenseCalls(k - 1);
      DenseGrow(k - 1);
      DenseStep(k - 1);
      DenseSymbols(k - 1);
    }
  }

  lemma DenseSymbols(k: nat)
    requires k <= 19
    ensures TableAfter(Empty(5, 1), DenseCalls(k)).nsymbol == 5
  {
  }

  lemma SpoilingStep()
    ensures ValidTxn(Single(4, 99), 5)
    ensures Chosen(Dense(19), Single(4, 99), false, 22) && Placed(Dense(19), Spoiled(), Single(4, 99), false, 22)
    ensures !HasPlace(Dense(19), Single(4, 99), false)
  {
    var x, t := Single(4, 99), Dense(19);
    SingleMap(4, 99);
    assert x.items[0].la == 4;
    assert NoDup(t, x, false);
    forall i | 0 <= i < 22 ensures !HoleAt(t, x, i) {
      if i >= 19 {
        assert t.entries[i - 4].la == (i - 4) + x.mn - i;
      }
    }
    assert FirstHole(t, x, false, 22);
    assert t.entries[18].la == 0;
  }

  /** Twenty insertions of one-element sets, with lookaheads 0 and 4 out of five symbols, lose a set. */
  lemma PackingCanLose()
    ensures var calls := DenseCalls(19) + [SpoilingCall()];
      && IsRun(Empty(5, 1), calls)
      && !Lossless(TableAfter(Empty(5, 1), calls), RowsOf(calls))
  {
    hide Chosen, Placed, HasPlace, ValidTxn, Grow, Lossless, Owned, Shape, ValidRows;
    var front, c := DenseCalls(19), SpoilingCall();
    var calls := front + [c];
    assert calls[..19] == front && calls[19] == c;
    DenseRun(19);
    DenseGrow(19);
    SpoilingStep();
    DenseSymbols(19);
    assert IsCall(TableAfter(Empty(5, 1), front), c);
    RunLossless(5, 1, calls);
  }
}
