/**
 * Symbol sets of the parser generator: a family of sets over [0, size) kept as the rows of one
 * boolean matrix (each row is one of the source's `calloc(size, 1)` sets).
 */
module SymbolSets {

  function Row(sets: array2<bool>, s: nat): (r: set<nat>)
    requires s < sets.Length0
    reads sets
    ensures forall e: nat :: e in r <==> e < sets.Length1 && sets[s, e]
  {
    set e: nat | e < sets.Length1 && sets[s, e]
  }

  /** All pairs (s, e) with e in set s. */
  ghost function Pairs(sets: array2<bool>): (r: set<(nat, nat)>)
    reads sets
    ensures forall s: nat, e: nat :: (s, e) in r <==> s < sets.Length0 && e < sets.Length1 && sets[s, e]
  {
    set s: nat, e: nat | s < sets.Length0 && e < sets.Length1 && sets[s, e] :: (s, e)
  }

  ghost function Below(n: nat): (r: set<nat>)
    ensures forall a: nat :: a in r <==> a < n
  {
    if n == 0 then {} else Below(n - 1) + {n - 1}
  }

  ghost function Universe(rows: nat, size: nat): (r: set<(nat, nat)>)
    ensures forall s: nat, e: nat :: (s, e) in r <==> s < rows && e < size
  {
    set s: nat, e: nat | s < rows && e < size :: (s, e)
  }

  method SetsNew(rows: nat, size: nat) returns (sets: array2<bool>)
    ensures fresh(sets) && sets.Length0 == rows && sets.Length1 == size
    ensures Pairs(sets) == {}
  {
    sets := new bool[rows, size]((_, _) => false);
  }

  method SetAdd(sets: array2<bool>, s: nat, e: nat) returns (added: bool)
    requires s < sets.Length0 && e < sets.Length1
    modifies sets
    ensures added <==> (s, e) !in old(Pairs(sets))
    ensures Pairs(sets) == old(Pairs(sets)) + {(s, e)}
  {
    added := !sets[s, e];
    sets[s, e] := true;
  }

  /** Adds set `s2` to set `s1` and reports whether `s1` changed; the two may be the same set. */
  method SetUnion(sets: array2<bool>, s1: nat, s2: nat) returns (progress: bool)
    requires s1 < sets.Length0 && s2 < sets.Length0
    modifies sets
    ensures forall s: nat, e: nat :: (s, e) in Pairs(sets) <==>
      (s, e) in old(Pairs(sets)) || (s == s1 && (s2, e) in old(Pairs(sets)))
    ensures progress <==> Pairs(sets) != old(Pairs(sets))
    ensures progress <==> !(old(Row(sets, s2)) <= old(Row(sets, s1)))
  {
    progress := false;
    for i := 0 to sets.Length1
      invariant forall s: nat, e: nat :: s < sets.Length0 && e < sets.Length1 ==>
        (sets[s, e] <==> old(sets[s, e]) || (s == s1 && e < i && old(sets[s2, e])))
      invariant progress <==> exists e: nat :: e < i && old(sets[s2, e]) && !old(sets[s1, e])
    {
      if !sets[s2, i] { continue; }
      if !sets[s1, i] {
        progress := true;
        sets[s1, i] := true;
      }
    }
    if progress {
      ghost var e: nat :| e < sets.Length1 && old(sets[s2, e]) && !old(sets[s1, e]);
      assert (s1, e) in Pairs(sets) && (s1, e) !in old(Pairs(sets));
      assert e in old(Row(sets, s2)) && e !in old(Row(sets, s1));
    }
  }
}

/** Nullable nonterminals and FIRST sets by two rounds of chaotic iteration over the rules. */
module FirstSets {
  import opened Grammars
  import opened SymbolSets

  /** Every symbol of `u` is a nonterminal in `l`. */
  ghost predicate AllIn(l: set<nat>, u: Form) {
    forall i :: 0 <= i < |u| ==> u[i].Nonterminal? && u[i].index in l
  }

  ghost predicate InFirst(f: set<(nat, nat)>, s: Symbol, t: nat) {
    match s
    case Terminal(t') => t == t'
    case Nonterminal(a) => (a, t) in f
    case MultiTerminal(ts) => t in ts
  }

  /** `t` is in the FIRST set of `u`, as read off the tables `l` and `f`. */
  ghost predicate HasFirst(l: set<nat>, f: set<(nat, nat)>, u: Form, t: nat) {
    exists i: nat :: i < |u| && AllIn(l, u[..i]) && InFirst(f, u[i], t)
  }

  ghost predicate LambdaSound(g: Grammar, l: set<nat>) {
    forall a: nat :: a in l ==> Nullable(g, [Nonterminal(a)])
  }

  ghost predicate LambdaClosedFor(l: set<nat>, r: Rule) {
    AllIn(l, r.rhs) ==> r.lhs in l
  }

  ghost predicate FirstSound(g: Grammar, f: set<(nat, nat)>) {
    forall a: nat, t: nat :: (a, t) in f ==> Starts(g, [Nonterminal(a)], t)
  }

  ghost predicate FirstClosedFor(l: set<nat>, f: set<(nat, nat)>, r: Rule) {
    forall t: nat :: HasFirst(l, f, r.rhs, t) ==> (r.lhs, t) in f
  }

  ghost predicate LambdaClosed(g: Grammar, l: set<nat>) {
    forall k :: 0 <= k < |g.rules| ==> LambdaClosedFor(l, g.rules[k])
  }

  ghost predicate FirstClosed(g: Grammar, l: set<nat>, f: set<(nat, nat)>) {
    forall k :: 0 <= k < |g.rules| ==> FirstClosedFor(l, f, g.rules[k])
  }

  // ---- Soundness: what the tables contain is derivable.

  lemma {:induction false} AllInNullable(g: Grammar, l: set<nat>, u: Form)
    requires LambdaSound(g, l) && AllIn(l, u)
    ensures Nullable(g, u)
  {
    if u == [] {
      assert DerivesIn(g, u, [], 0);
    } else {
      AllInNullable(g, l, u[1..]);
      assert u[0] == Nonterminal(u[0].index);
      NullableConcat(g, [u[0]], u[1..]);
      assert [u[0]] + u[1..] == u;
    }
  }

  lemma InFirstStarts(g: Grammar, f: set<(nat, nat)>, s: Symbol, t: nat)
    requires FirstSound(g, f) && InFirst(f, s, t)
    ensures Starts(g, [s], t)
  {
    match s {
      case Terminal(_) =>
        assert [s] == [Terminal(t)] + [];
        assert DerivesIn(g, [s], [Terminal(t)] + [], 0);
      case Nonterminal(a) =>
        assert s == Nonterminal(a);
      case MultiTerminal(_) =>
        RewriteDerives(g, s, [Terminal(t)]);
        assert [Terminal(t)] == [Terminal(t)] + [];
    }
  }

  lemma HasFirstStarts(g: Grammar, l: set<nat>, f: set<(nat, nat)>, u: Form, t: nat)
    requires LambdaSound(g, l) && FirstSound(g, f) && HasFirst(l, f, u, t)
    ensures Starts(g, u, t)
  {
    hide Starts, Nullable, LambdaSound, FirstSound, AllIn, InFirst;
    var i: nat :| i < |u| && AllIn(l, u[..i]) && InFirst(f, u[i], t);
    InFirstStarts(g, f, u[i], t);
    StartsPrefix(g, [u[i]], u[i+1..], t);
    AllInNullable(g, l, u[..i]);
    StartsBehindNullable(g, u[..i], [u[i]] + u[i+1..], t);
    assert u[..i] + ([u[i]] + u[i+1..]) == u;
  }

  // ---- Completeness: what is derivable is in any pair of tables closed under the rules.

  lemma AllInConcat(l: set<nat>, u: Form, v: Form)
    ensures AllIn(l, u + v) <==> AllIn(l, u) && AllIn(l, v)
  {
    if AllIn(l, u + v) {
      assert forall i :: 0 <= i < |u| ==> (u + v)[i] == u[i];
      assert forall i :: 0 <= i < |v| ==> (u + v)[|u| + i] == v[i];
    }
  }

  lemma HasFirstConcat(l: set<nat>, f: set<(nat, nat)>, u: Form, v: Form, t: nat)
    ensures HasFirst(l, f, u + v, t) <==> HasFirst(l, f, u, t) || (AllIn(l, u) && HasFirst(l, f, v, t))
  {
    var uv := u + v;
    if HasFirst(l, f, uv, t) {
      var i: nat :| i < |uv| && AllIn(l, uv[..i]) && InFirst(f, uv[i], t);
      if i < |u| {
        assert uv[..i] == u[..i];
      } else {
        assert uv[..i] == u + v[..i - |u|];
        AllInConcat(l, u, v[..i - |u|]);
        assert InFirst(f, v[i - |u|], t);
      }
    }
    if HasFirst(l, f, u, t) {
      var i: nat :| i < |u| && AllIn(l, u[..i]) && InFirst(f, u[i], t);
      assert uv[..i] == u[..i] && uv[i] == u[i];
    }
    if AllIn(l, u) && HasFirst(l, f, v, t) {
      var i: nat :| i < |v| && AllIn(l, v[..i]) && InFirst(f, v[i], t);
      assert uv[..|u| + i] == u + v[..i] && uv[|u| + i] == v[i];
      AllInConcat(l, u, v[..i]);
    }
  }

  /** A rewriting step never loses a nullable form or a FIRST symbol when it is undone. */
  lemma SymbolBack(g: Grammar, l: set<nat>, f: set<(nat, nat)>, s: Symbol, w: Form)
    requires LambdaClosed(g, l) && Rewrites(g, s, w)
    ensures AllIn(l, w) ==> AllIn(l, [s])
    ensures FirstClosed(g, l, f) ==> forall t: nat :: HasFirst(l, f, w, t) ==> HasFirst(l, f, [s], t)
  {
    if s.Nonterminal? {
      var k :| 0 <= k < |g.rules| && g.rules[k] == Rule(s.index, w);
      assert LambdaClosedFor(l, g.rules[k]);
      if FirstClosed(g, l, f) {
        assert FirstClosedFor(l, f, g.rules[k]);
      }
    }
    if FirstClosed(g, l, f) {
      forall t: nat | HasFirst(l, f, w, t) ensures HasFirst(l, f, [s], t) {
        assert AllIn(l, [s][..0]) && InFirst(f, [s][0], t);
      }
    }
  }

  lemma SplitAt(g: Grammar, u: Form, i: nat, w: Form, m: Form)
    requires StepAt(g, u, i, w, m)
    ensures u == u[..i] + ([u[i]] + u[i+1..]) && m == u[..i] + (w + u[i+1..])
  {
  }

  lemma {:induction false} NullableAllIn(g: Grammar, l: set<nat>, u: Form, n: nat)
    requires LambdaClosed(g, l) && DerivesIn(g, u, [], n)
    ensures AllIn(l, u)
    decreases n
  {
    if n > 0 {
      var m: Form :| Step(g, u, m) && DerivesIn(g, m, [], n - 1);
      NullableAllIn(g, l, m, n - 1);
      var i: nat, w: Form :| StepAt(g, u, i, w, m);
      var x, s, y := u[..i], u[i], u[i+1..];
      SplitAt(g, u, i, w, m);
      AllInConcat(l, x, w + y);
      AllInConcat(l, w, y);
      SymbolBack(g, l, {}, s, w);
      AllInConcat(l, [s], y);
      AllInConcat(l, x, [s] + y);
    }
  }

  lemma HasFirstBack(g: Grammar, l: set<nat>, f: set<(nat, nat)>, u: Form, i: nat, w: Form, m: Form, t: nat)
    requires LambdaClosed(g, l) && FirstClosed(g, l, f)
    requires StepAt(g, u, i, w, m) && HasFirst(l, f, m, t)
    ensures HasFirst(l, f, u, t)
  {
    var x, s, y := u[..i], u[i], u[i+1..];
    SplitAt(g, u, i, w, m);
    HasFirstConcat(l, f, x, w + y, t);
    HasFirstConcat(l, f, w, y, t);
    SymbolBack(g, l, f, s, w);
    HasFirstConcat(l, f, [s], y, t);
    HasFirstConcat(l, f, x, [s] + y, t);
  }

  lemma {:induction false} StartsHasFirst(g: Grammar, l: set<nat>, f: set<(nat, nat)>, u: Form, v: Form, t: nat, n: nat)
    requires LambdaClosed(g, l) && FirstClosed(g, l, f)
    requires DerivesIn(g, u, v, n) && v != [] && v[0] == Terminal(t)
    ensures HasFirst(l, f, u, t)
    decreases n
  {
    if n == 0 {
      assert AllIn(l, u[..0]) && InFirst(f, u[0], t);
    } else {
      var m: Form :| Step(g, u, m) && DerivesIn(g, m, v, n - 1);
      StartsHasFirst(g, l, f, m, v, t, n - 1);
      var i: nat, w: Form :| StepAt(g, u, i, w, m);
      HasFirstBack(g, l, f, u, i, w, m, t);
    }
  }

  /** Tables that are sound and closed decide both questions for every sentential form. */
  lemma TablesExact(g: Grammar, l: set<nat>, f: set<(nat, nat)>, u: Form)
    requires LambdaSound(g, l) && LambdaClosed(g, l)
    requires FirstSound(g, f) && FirstClosed(g, l, f)
    ensures AllIn(l, u) <==> Nullable(g, u)
    ensures forall t: nat :: HasFirst(l, f, u, t) <==> Starts(g, u, t)
  {
    LambdaExact(g, l, u);
    forall t: nat ensures HasFirst(l, f, u, t) <==> Starts(g, u, t) {
      if HasFirst(l, f, u, t) {
        HasFirstStarts(g, l, f, u, t);
      }
      if Starts(g, u, t) {
        var w: Form :| Derives(g, u, [Terminal(t)] + w);
        var n: nat :| DerivesIn(g, u, [Terminal(t)] + w, n);
        StartsHasFirst(g, l, f, u, [Terminal(t)] + w, t, n);
      }
    }
  }

  lemma LambdaExact(g: Grammar, l: set<nat>, u: Form)
    requires LambdaSound(g, l) && LambdaClosed(g, l)
    ensures AllIn(l, u) <==> Nullable(g, u)
  {
    if AllIn(l, u) {
      AllInNullable(g, l, u);
    }
    if Nullable(g, u) {
      var n: nat :| DerivesIn(g, u, [], n);
      NullableAllIn(g, l, u, n);
    }
  }

  // ---- The two loops.

  ghost function Marked(lambda: array<bool>): (r: set<nat>)
    reads lambda
    ensures forall a: nat :: a in r <==> a < lambda.Length && lambda[a]
  {
    set a: nat | a < lambda.Length && lambda[a]
  }

  /** The inner loop of the first round: does every symbol of the right-hand side vanish? */
  method AllLambda(lambda: array<bool>, rhs: Form) returns (all: bool)
    requires forall i :: 0 <= i < |rhs| && rhs[i].Nonterminal? ==> rhs[i].index < lambda.Length
    ensures all <==> AllIn(Marked(lambda), rhs)
  {
    var i := 0;
    while i < |rhs|
      invariant 0 <= i <= |rhs|
      invariant AllIn(Marked(lambda), rhs[..i])
    {
      var sp := rhs[i];
      if !sp.Nonterminal? || !lambda[sp.index] { break; }
      i := i + 1;
    }
    assert rhs[..|rhs|] == rhs;
    all := i == |rhs|;
  }

  method FindLambdas(g: Grammar) returns (lambda: array<bool>)
    requires g.Valid()
    ensures fresh(lambda) && lambda.Length == g.nsymbol
    ensures forall a: nat :: a in Marked(lambda) ==> g.nterminal <= a
    ensures LambdaSound(g, Marked(lambda)) && LambdaClosed(g, Marked(lambda))
  {
    lambda := new bool[g.nsymbol](_ => false);
    ghost var all := Below(g.nsymbol);
    var progress := true;
    while progress
      invariant fresh(lambda) && lambda.Length == g.nsymbol
      invariant forall a: nat :: a in Marked(lambda) ==> g.nterminal <= a
      invariant LambdaSound(g, Marked(lambda))
      invariant !progress ==> LambdaClosed(g, Marked(lambda))
      decreases all - Marked(lambda), progress
    {
      progress := false;
      ghost var before := Marked(lambda);
      for k := 0 to |g.rules|
        invariant forall a: nat :: a in Marked(lambda) ==> g.nterminal <= a
        invariant LambdaSound(g, Marked(lambda))
        invariant before <= Marked(lambda)
        invariant progress ==> before != Marked(lambda)
        invariant !progress ==> before == Marked(lambda)
        invariant !progress ==> forall j :: 0 <= j < k ==> LambdaClosedFor(before, g.rules[j])
      {
        var rp := g.rules[k];
        if lambda[rp.lhs] { continue; }
        var vanishes := AllLambda(lambda, rp.rhs);
        if vanishes {
          AllInNullable(g, Marked(lambda), rp.rhs);
          RuleDerives(g, rp);
          ghost var was := Marked(lambda);
          lambda[rp.lhs] := true;
          assert Marked(lambda) == was + {rp.lhs};
          progress := true;
        }
      }
      assert progress ==> all - Marked(lambda) < all - before by {
        assert Marked(lambda) <= all;
      }
    }
  }

  /** Adds FIRST of the single symbol `s2` to the set of `s1`. */
  method AddFirstOfSymbol(g: Grammar, first: array2<bool>, s1: nat, s2: Symbol) returns (progress: bool)
    requires first.Length0 == g.nsymbol && first.Length1 == g.nterminal + 2
    requires s1 < g.nsymbol && g.ValidSymbol(s2)
    modifies first
    ensures forall a: nat, t: nat :: (a, t) in Pairs(first) <==>
      (a, t) in old(Pairs(first)) || (a == s1 && InFirst(old(Pairs(first)), s2, t))
    ensures progress <==> old(Pairs(first)) != Pairs(first)
  {
    match s2 {
      case Terminal(t) =>
        progress := SetAdd(first, s1, t);
      case MultiTerminal(ts) =>
        progress := false;
        for j := 0 to |ts|
          invariant forall a: nat, e: nat :: (a, e) in Pairs(first) <==>
            (a, e) in old(Pairs(first)) || (a == s1 && e in ts[..j])
          invariant progress <==> old(Pairs(first)) != Pairs(first)
        {
          assert ts[j] in ts && ts[..j + 1] == ts[..j] + [ts[j]];
          var added := SetAdd(first, s1, ts[j]);
          progress := progress || added;
        }
        assert ts[..|ts|] == ts;
      case Nonterminal(a) =>
        if s1 == a {
          progress := false;
        } else {
          progress := SetUnion(first, s1, a);
        }
    }
  }

  /** One rule of the second round: scan the right-hand side up to the first symbol that cannot vanish. */
  method AddFirstOf(g: Grammar, lambda: array<bool>, first: array2<bool>, rp: Rule) returns (progress: bool)
    requires g.Valid() && rp in g.rules
    requires lambda.Length == g.nsymbol && first.Length0 == g.nsymbol && first.Length1 == g.nterminal + 2
    requires LambdaSound(g, Marked(lambda)) && FirstSound(g, Pairs(first))
    modifies first
    ensures FirstSound(g, Pairs(first))
    ensures old(Pairs(first)) <= Pairs(first)
    ensures progress <==> old(Pairs(first)) != Pairs(first)
    ensures FirstClosedFor(Marked(lambda), Pairs(first), rp)
  {
    var s1 := rp.lhs;
    ghost var l := Marked(lambda);
    progress := false;
    var i := 0;
    ghost var done := 0;
    while i < |rp.rhs|
      invariant 0 <= i <= |rp.rhs| && done == i
      invariant Marked(lambda) == l && AllIn(l, rp.rhs[..i])
      invariant FirstSound(g, Pairs(first))
      invariant old(Pairs(first)) <= Pairs(first)
      invariant progress <==> old(Pairs(first)) != Pairs(first)
      invariant Scanned(Pairs(first), rp, i)
    {
      var s2 := rp.rhs[i];
      assert g.ValidSymbol(s2);
      ghost var f := Pairs(first);
      FirstOfRuleSound(g, l, f, rp, i);
      var added := AddFirstOfSymbol(g, first, s1, s2);
      progress := progress || added;
      ScannedStep(f, Pairs(first), rp, i);
      done := i + 1;
      if !s2.Nonterminal? || !lambda[s2.index] { break; }
      i := i + 1;
    }
    ScannedCloses(l, Pairs(first), rp, done);
  }

  /** The FIRST sets of the first `n` symbols of the rule are included in that of its left-hand side. */
  ghost predicate Scanned(f: set<(nat, nat)>, rp: Rule, n: nat)
    requires n <= |rp.rhs|
  {
    forall j: nat, t: nat :: j < n && InFirst(f, rp.rhs[j], t) ==> (rp.lhs, t) in f
  }

  lemma ScannedStep(f: set<(nat, nat)>, f': set<(nat, nat)>, rp: Rule, i: nat)
    requires i < |rp.rhs| && Scanned(f, rp, i)
    requires forall a: nat, t: nat :: (a, t) in f' <==> (a, t) in f || (a == rp.lhs && InFirst(f, rp.rhs[i], t))
    ensures Scanned(f', rp, i + 1)
  {
  }

  lemma ScannedCloses(l: set<nat>, f: set<(nat, nat)>, rp: Rule, n: nat)
    requires n <= |rp.rhs| && Scanned(f, rp, n)
    requires n < |rp.rhs| ==> n > 0 && !AllIn(l, rp.rhs[n - 1..n])
    ensures FirstClosedFor(l, f, rp)
  {
    forall t: nat | HasFirst(l, f, rp.rhs, t) ensures (rp.lhs, t) in f {
      var j: nat :| j < |rp.rhs| && AllIn(l, rp.rhs[..j]) && InFirst(f, rp.rhs[j], t);
    }
  }

  lemma FirstOfRuleSound(g: Grammar, l: set<nat>, f: set<(nat, nat)>, rp: Rule, i: nat)
    requires rp in g.rules && i < |rp.rhs| && AllIn(l, rp.rhs[..i])
    requires LambdaSound(g, l) && FirstSound(g, f)
    ensures forall t: nat :: InFirst(f, rp.rhs[i], t) ==> Starts(g, [Nonterminal(rp.lhs)], t)
  {
    RuleDerives(g, rp);
    forall t: nat | InFirst(f, rp.rhs[i], t) ensures Starts(g, [Nonterminal(rp.lhs)], t) {
      assert HasFirst(l, f, rp.rhs, t);
      HasFirstStarts(g, l, f, rp.rhs, t);
    }
  }

  /** Both tables are exact: they record derivability and nothing else. */
  method FindFirstSets(g: Grammar) returns (lambda: array<bool>, first: array2<bool>)
    requires g.Valid()
    ensures lambda.Length == g.nsymbol && first.Length0 == g.nsymbol && first.Length1 == g.nterminal + 2
    ensures forall a: nat :: a < g.nsymbol ==> (lambda[a] <==> Nullable(g, [Nonterminal(a)]))
    ensures forall a: nat, t: nat :: a < g.nsymbol && t < g.nterminal + 2 ==>
      (first[a, t] <==> Starts(g, [Nonterminal(a)], t))
    ensures forall a: nat, t: nat :: Starts(g, [Nonterminal(a)], t) ==> a < g.nsymbol && t < g.nterminal + 2
    ensures LambdaSound(g, Marked(lambda)) && LambdaClosed(g, Marked(lambda))
    ensures FirstSound(g, Pairs(first)) && FirstClosed(g, Marked(lambda), Pairs(first))
  {
    lambda := FindLambdas(g);
    ghost var l := Marked(lambda);
    first := SetsNew(g.nsymbol, g.nterminal + 2);
    ghost var all := Universe(g.nsymbol, g.nterminal + 2);
    var progress := true;
    while progress
      invariant fresh(first) && first.Length0 == g.nsymbol && first.Length1 == g.nterminal + 2
      invariant Marked(lambda) == l
      invariant FirstSound(g, Pairs(first))
      invariant !progress ==> FirstClosed(g, l, Pairs(first))
      decreases all - Pairs(first), progress
    {
      progress := false;
      ghost var before := Pairs(first);
      for k := 0 to |g.rules|
        invariant Marked(lambda) == l
        invariant FirstSound(g, Pairs(first))
        invariant before <= Pairs(first)
        invariant progress <==> before != Pairs(first)
        invariant !progress ==> forall j :: 0 <= j < k ==> FirstClosedFor(l, before, g.rules[j])
      {
        var added := AddFirstOf(g, lambda, first, g.rules[k]);
        progress := progress || added;
      }
      assert progress ==> all - Pairs(first) < all - before by {
        assert Pairs(first) <= all;
      }
    }
    ExactForNonterminals(g, l, Pairs(first));
    forall a: nat, t: nat | Starts(g, [Nonterminal(a)], t) ensures (a, t) in Pairs(first) {
    }
  }

  lemma ExactForNonterminals(g: Grammar, l: set<nat>, f: set<(nat, nat)>)
    requires LambdaSound(g, l) && LambdaClosed(g, l)
    requires FirstSound(g, f) && FirstClosed(g, l, f)
    ensures forall a: nat :: a in l <==> Nullable(g, [Nonterminal(a)])
    ensures forall a: nat, t: nat :: (a, t) in f <==> Starts(g, [Nonterminal(a)], t)
  {
    forall a: nat ensures a in l <==> Nullable(g, [Nonterminal(a)]) {
      LambdaExact(g, l, [Nonterminal(a)]);
      assert AllIn(l, [Nonterminal(a)]) <==> a in l by {
        assert [Nonterminal(a)][0] == Nonterminal(a);
      }
    }
    forall a: nat, t: nat ensures (a, t) in f <==> Starts(g, [Nonterminal(a)], t) {
      var u := [Nonterminal(a)];
      TablesExact(g, l, f, u);
      if (a, t) in f {
        assert AllIn(l, u[..0]) && InFirst(f, u[0], t);
      }
    }
  }
}
