/** Grammars as LEMON sees them, and what it means for a sentential form to derive another. */
module Grammars {

  /** `MultiTerminal` is LEMON's `A|B|C` pseudo-token: it stands for any one of its terminals. */
  datatype Symbol =
    | Terminal(index: nat)
    | Nonterminal(index: nat)
    | MultiTerminal(subsyms: seq<nat>)

  type Form = seq<Symbol>

  datatype Rule = Rule(lhs: nat, rhs: Form)

  /** Symbols below `nterminal` are terminals, those up to `nsymbol` are nonterminals. */
  datatype Grammar = Grammar(nterminal: nat, nsymbol: nat, rules: seq<Rule>) {

    ghost predicate ValidSymbol(s: Symbol) {
      match s
      case Terminal(t) => t < nterminal
      case Nonterminal(a) => nterminal <= a < nsymbol
      case MultiTerminal(ts) => forall t <- ts :: t < nterminal
    }

    ghost predicate ValidForm(u: Form) {
      forall i :: 0 <= i < |u| ==> ValidSymbol(u[i])
    }

    ghost predicate Valid() {
      forall k :: 0 <= k < |rules| ==>
        nterminal <= rules[k].lhs < nsymbol && ValidForm(rules[k].rhs)
    }
  }

  /** A single symbol may be replaced by `w`. */
  ghost predicate Rewrites(g: Grammar, s: Symbol, w: Form) {
    match s
    case Terminal(_) => false
    case Nonterminal(a) => Rule(a, w) in g.rules
    case MultiTerminal(ts) => |w| == 1 && w[0].Terminal? && w[0].index in ts
  }

  ghost predicate StepAt(g: Grammar, u: Form, i: nat, w: Form, v: Form) {
    i < |u| && Rewrites(g, u[i], w) && v == u[..i] + w + u[i+1..]
  }

  ghost predicate Step(g: Grammar, u: Form, v: Form) {
    exists i: nat, w: Form :: StepAt(g, u, i, w, v)
  }

  ghost predicate DerivesIn(g: Grammar, u: Form, v: Form, n: nat)
    decreases n
  {
    if n == 0 then u == v else exists m: Form :: Step(g, u, m) && DerivesIn(g, m, v, n - 1)
  }

  ghost predicate Derives(g: Grammar, u: Form, v: Form) {
    exists n: nat :: DerivesIn(g, u, v, n)
  }

  /** `u` derives the empty string. */
  ghost predicate Nullable(g: Grammar, u: Form) {
    Derives(g, u, [])
  }

  /** `u` derives some sentential form that begins with terminal `t`. */
  ghost predicate Starts(g: Grammar, u: Form, t: nat) {
    exists w: Form :: Derives(g, u, [Terminal(t)] + w)
  }

  lemma {:induction false} DerivesInTransitive(g: Grammar, u: Form, v: Form, w: Form, n: nat, k: nat)
    requires DerivesIn(g, u, v, n) && DerivesIn(g, v, w, k)
    ensures DerivesIn(g, u, w, n + k)
    decreases n
  {
    if n > 0 {
      var m: Form :| Step(g, u, m) && DerivesIn(g, m, v, n - 1);
      DerivesInTransitive(g, m, v, w, n - 1, k);
    }
  }

  lemma DerivesTransitive(g: Grammar, u: Form, v: Form, w: Form)
    requires Derives(g, u, v) && Derives(g, v, w)
    ensures Derives(g, u, w)
  {
    var n: nat :| DerivesIn(g, u, v, n);
    var k: nat :| DerivesIn(g, v, w, k);
    DerivesInTransitive(g, u, v, w, n, k);
  }

  lemma StepContext(g: Grammar, a: Form, u: Form, v: Form, b: Form)
    requires Step(g, u, v)
    ensures Step(g, a + u + b, a + v + b)
  {
    hide Rewrites;
    var i: nat, w: Form :| StepAt(g, u, i, w, v);
    var c := a + u + b;
    assert c[|a| + i] == u[i];
    assert c[..|a| + i] == a + u[..i];
    assert c[|a| + i + 1..] == u[i+1..] + b;
    assert a + v + b == c[..|a| + i] + w + c[|a| + i + 1..];
    assert StepAt(g, c, |a| + i, w, a + v + b);
  }

  lemma {:induction false} DerivesInContext(g: Grammar, a: Form, u: Form, v: Form, b: Form, n: nat)
    requires DerivesIn(g, u, v, n)
    ensures DerivesIn(g, a + u + b, a + v + b, n)
    decreases n
  {
    hide Step;
    if n > 0 {
      var m: Form :| Step(g, u, m) && DerivesIn(g, m, v, n - 1);
      StepContext(g, a, u, m, b);
      DerivesInContext(g, a, m, v, b, n - 1);
    }
  }

  /** Derivation is a congruence: it may be carried out inside any context. */
  lemma DerivesContext(g: Grammar, a: Form, u: Form, v: Form, b: Form)
    requires Derives(g, u, v)
    ensures Derives(g, a + u + b, a + v + b)
  {
    var n: nat :| DerivesIn(g, u, v, n);
    DerivesInContext(g, a, u, v, b, n);
  }

  lemma RewriteDerives(g: Grammar, s: Symbol, w: Form)
    requires Rewrites(g, s, w)
    ensures Derives(g, [s], w)
  {
    assert w == [s][..0] + w + [s][1..];
    assert StepAt(g, [s], 0, w, w);
    assert Step(g, [s], w);
    assert DerivesIn(g, w, w, 0);
    assert DerivesIn(g, [s], w, 1);
  }

  lemma NullableConcat(g: Grammar, u: Form, v: Form)
    requires Nullable(g, u) && Nullable(g, v)
    ensures Nullable(g, u + v)
  {
    hide Derives;
    DerivesContext(g, [], u, [], v);
    assert [] + u + v == u + v && [] + [] + v == v;
    DerivesTransitive(g, u + v, v, []);
  }

  lemma StartsPrefix(g: Grammar, u: Form, v: Form, t: nat)
    requires Starts(g, u, t)
    ensures Starts(g, u + v, t)
  {
    var w: Form :| Derives(g, u, [Terminal(t)] + w);
    DerivesContext(g, [], u, [Terminal(t)] + w, v);
    assert [] + u + v == u + v;
    assert [] + ([Terminal(t)] + w) + v == [Terminal(t)] + (w + v);
  }

  lemma StartsBehindNullable(g: Grammar, u: Form, v: Form, t: nat)
    requires Nullable(g, u) && Starts(g, v, t)
    ensures Starts(g, u + v, t)
  {
    hide Derives;
    var w: Form :| Derives(g, v, [Terminal(t)] + w);
    DerivesContext(g, [], u, [], v);
    assert [] + u + v == u + v && [] + [] + v == v;
    DerivesTransitive(g, u + v, v, [Terminal(t)] + w);
  }

  /** Replacing a left-hand side by one of its right-hand sides passes both properties back. */
  lemma RuleDerives(g: Grammar, r: Rule)
    requires r in g.rules
    ensures Nullable(g, r.rhs) ==> Nullable(g, [Nonterminal(r.lhs)])
    ensures forall t: nat :: Starts(g, r.rhs, t) ==> Starts(g, [Nonterminal(r.lhs)], t)
  {
    RewriteDerives(g, Nonterminal(r.lhs), r.rhs);
    if Nullable(g, r.rhs) {
      DerivesTransitive(g, [Nonterminal(r.lhs)], r.rhs, []);
    }
    forall t: nat | Starts(g, r.rhs, t) ensures Starts(g, [Nonterminal(r.lhs)], t) {
      var w: Form :| Derives(g, r.rhs, [Terminal(t)] + w);
      DerivesTransitive(g, [Nonterminal(r.lhs)], r.rhs, [Terminal(t)] + w);
    }
  }
}
