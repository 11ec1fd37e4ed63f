/**
 * The read side of the packed table: the arrays emitted for the generated parser, and the parser's
 * search for a shift action in them.
 */
module ActionReader {
  import opened ActionTable
  import opened Options

  /** The emitted yy_action and yy_lookahead arrays, and the number of tokens. */
  datatype Emitted = Emitted(action: seq<int>, lookahead: seq<int>, ntoken: nat)

  /** The number of slots without the empty ones at the end. */
  function ActionSize(t: Table, n: nat): nat
    requires n <= |t.entries|
  {
    if n > 0 && t.entries[n - 1].la < 0 then ActionSize(t, n - 1) else n
  }

  lemma {:induction false} ActionSizeTight(t: Table, n: nat)
    requires n <= |t.entries|
    ensures ActionSize(t, n) <= n
    ensures forall k :: ActionSize(t, n) <= k < n ==> t.entries[k].la < 0
    ensures ActionSize(t, n) == 0 || t.entries[ActionSize(t, n) - 1].la >= 0
    decreases n
  {
    if n > 0 && t.entries[n - 1].la < 0 {
      ActionSizeTight(t, n - 1);
    }
  }

  function Emit(t: Table, noAction: int): Emitted
    requires t.n <= |t.entries|
  {
    var nact := ActionSize(t, t.n);
    var nlook := Max(t.n, t.nterminal + nact);
    Emitted(
      seq(nact, k requires 0 <= k < nact => if nact <= t.n && t.entries[k].act >= 0 then t.entries[k].act else noAction),
      seq(nlook, k requires 0 <= k < nlook =>
        if k >= t.n then t.nterminal else if t.entries[k].la < 0 then t.nsymbol else t.entries[k].la),
      t.nterminal)
  }

  method ComputeActionSize(t: Table) returns (n: nat)
    requires t.n <= |t.entries|
    ensures n == ActionSize(t, t.n) <= t.n
    ensures forall k :: n <= k < t.n ==> t.entries[k].la < 0
    ensures n == 0 || t.entries[n - 1].la >= 0
  {
    ActionSizeTight(t, t.n);
    n := t.n;
    while n > 0 && t.entries[n - 1].la < 0
      invariant n <= t.n && ActionSize(t, n) == ActionSize(t, t.n)
    {
      n := n - 1;
    }
  }

  /** Actions are numbers; empty slots have none. */
  ghost predicate ActionsMarked(t: Table) {
    forall k :: 0 <= k < |t.entries| ==> (t.entries[k].la >= 0 ==> t.entries[k].act >= 0)
  }

  /** At a token's slot the emitted arrays match exactly when the packed table does. */
  lemma EmitReads(t: Table, noAction: int, o: int, la: int)
    requires Shape(t) && t.n <= |t.entries| && ActionsMarked(t)
    requires 0 <= la < t.nterminal && 0 <= o && o + la < |Emit(t, noAction).lookahead|
    ensures var e := Emit(t, noAction); var k := o + la;
      && (e.lookahead[k] == la <==> ReadBack(t, o, la).Some?)
      && (e.lookahead[k] == la ==> k < |e.action| && ReadBack(t, o, la) == Some(e.action[k]))
  {
    ActionSizeTight(t, t.n);
  }

  /** A slot that belongs to no set matches no token, and has no action if it is emitted. */
  lemma EmitEmpty(t: Table, noAction: int, k: nat)
    requires Shape(t) && t.n <= |t.entries| && ActionsMarked(t) && k < |Emit(t, noAction).lookahead|
    requires k < t.n ==> t.entries[k] == EMPTY
    ensures Emit(t, noAction).lookahead[k] >= t.nterminal
    ensures k < |Emit(t, noAction).action| ==> Emit(t, noAction).action[k] == noAction
    ensures var e := Emit(t, noAction);
      |e.action| <= t.n && (|e.lookahead| == t.n || |e.lookahead| == |e.action| + t.nterminal)
  {
    ActionSizeTight(t, t.n);
  }

  /** A fallback token has no fallback itself. */
  ghost predicate ValidFallback(fallback: seq<nat>) {
    forall j :: 0 <= j < |fallback| ==> fallback[j] < |fallback| && (fallback[j] != 0 ==> fallback[fallback[j]] == 0)
  }

  /** The offset emitted for a state whose tokens have actions `m`: that of its row, or just behind all actions. */
  ghost predicate StateOffset(t: Table, rows: seq<Row>, m: map<int, int>, o: int)
    requires t.n <= |t.entries|
  {
    if m == map[] then o == ActionSize(t, t.n)
    else Row(o, m) in rows && 0 <= o && o + t.nterminal < t.n
  }

  lemma StateReads(t: Table, rows: seq<Row>, m: map<int, int>, o: int, noAction: int, la: int)
    requires Shape(t) && t.n <= |t.entries| && ActionsMarked(t) && Lossless(t, rows)
    requires StateOffset(t, rows, m, o) && 0 <= la < t.nterminal
    ensures var e := Emit(t, noAction); var k := o + la;
      && 0 <= k < |e.lookahead|
      && (e.lookahead[k] == la <==> la in m)
      && (la in m ==> k < |e.action| && e.action[k] == m[la])
  {
    ActionSizeTight(t, t.n);
    EmitReads(t, noAction, o, la);
    if m != map[] {
      assert Exact(t, o, m);
      assert ReadBack(t, o, la) == Lookup(m, la);
    }
  }

  /**
   * The generated parser's lookup in a state whose tokens have actions `m`: the token's own action, else
   * that of its fallback token, else the wildcard's unless the token is the end of input, else the default.
   * `ofst` and `dflt` are the state's entries of yy_shift_ofst and yy_default; `wildcard` is -1 if there is none.
   */
  method FindShiftAction(e: Emitted, ofst: int, dflt: int, fallback: seq<nat>, wildcard: int, iLookAhead: nat,
                         ghost t: Table, ghost rows: seq<Row>, ghost m: map<int, int>, ghost noAction: int)
    returns (r: int)
    requires Shape(t) && t.n <= |t.entries| && ActionsMarked(t) && Lossless(t, rows) && e == Emit(t, noAction)
    requires StateOffset(t, rows, m, ofst)
    requires ValidFallback(fallback) && |fallback| == t.nterminal && -1 <= wildcard < t.nterminal && -1 !in m
    requires iLookAhead < t.nterminal
    ensures iLookAhead in m ==> r == m[iLookAhead]
    ensures iLookAhead !in m && fallback[iLookAhead] != 0 && fallback[iLookAhead] in m ==> r == m[fallback[iLookAhead]]
    ensures iLookAhead !in m && (fallback[iLookAhead] != 0 ==> fallback[iLookAhead] !in m) ==>
      r == if wildcard in m && (fallback[iLookAhead] != 0 || iLookAhead > 0) then m[wildcard] else dflt
  {
    var la: nat := iLookAhead;
    while true
      invariant la < t.nterminal
      invariant la == iLookAhead || (iLookAhead !in m && la == fallback[iLookAhead] != 0)
      decreases fallback[la]
    {
      StateReads(t, rows, m, ofst, noAction, la);
      var i := ofst + la;
      if e.lookahead[i] != la {
        var iFallback := fallback[la];
        if iFallback != 0 {
          la := iFallback;
          continue;
        }
        if wildcard >= 0 {
          StateReads(t, rows, m, ofst, noAction, wildcard);
          var j := i - la + wildcard;
          if e.lookahead[j] == wildcard && la > 0 {
            return e.action[j];
          }
        }
        return dflt;
      } else {
        return e.action[i];
      }
    }
  }
}
