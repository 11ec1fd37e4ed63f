/**
 * The closure of an LR configuration list.  The list grows while it is being scanned; every
 * configuration carries a lookahead set and its forward propagation links.
 */
module Closure {
  import opened Grammars
  import opened SymbolSets
  import opened FirstSets
  import opened Collections

  /** A rule of the grammar with a dot in its right-hand side. */
  datatype Item = Item(rule: nat, dot: nat)

  /** Configuration k is `current[k]` with lookaheads `fws[k]` and links to configurations `fplp[k]`. */
  datatype Configs = Configs(current: seq<Item>, fws: seq<set<nat>>, fplp: seq<seq<nat>>)

  ghost predicate ValidItem(g: Grammar, c: Item) {
    c.rule < |g.rules| && c.dot <= |g.rules[c.rule].rhs|
  }

  ghost predicate ValidConfigs(g: Grammar, c: Configs) {
    && |c.fws| == |c.fplp| == |c.current|
    && NoDuplicates(c.current)
    && (forall k :: 0 <= k < |c.current| ==> ValidItem(g, c.current[k]))
  }

  /** The symbols behind the one after the dot. */
  function Rest(g: Grammar, p: Item): Form
    requires p.rule < |g.rules|
  {
    var rhs := g.rules[p.rule].rhs;
    if p.dot < |rhs| then rhs[p.dot + 1..] else []
  }

  /** `c` starts a rule for the nonterminal after the dot of `p`. */
  ghost predicate Expands(g: Grammar, p: Item, c: Item) {
    && p.rule < |g.rules| && c.rule < |g.rules|
    && p.dot < |g.rules[p.rule].rhs|
    && c.dot == 0
    && g.rules[p.rule].rhs[p.dot] == Nonterminal(g.rules[c.rule].lhs)
  }

  ghost predicate ClosedUnderExpansion(g: Grammar, items: iset<Item>) {
    forall p, c :: p in items && Expands(g, p, c) ==> c in items
  }

  /** Pair (p, rule) has been handled once configurations before i, and rules from r on for i, are. */
  ghost predicate Handled(i: nat, r: nat, p: nat, rule: nat) {
    p < i || (p == i && r <= rule)
  }

  /** Configuration p gives lookahead t to configuration k. */
  ghost predicate Gives(g: Grammar, l: set<nat>, f: set<(nat, nat)>, c: Configs, p: nat, k: nat, t: nat) {
    && p < |c.current| && k < |c.current|
    && Expands(g, c.current[p], c.current[k])
    && HasFirst(l, f, Rest(g, c.current[p]), t)
  }

  ghost predicate Linked(g: Grammar, l: set<nat>, c: Configs, p: nat, k: nat) {
    && p < |c.current| && k < |c.current|
    && Expands(g, c.current[p], c.current[k])
    && AllIn(l, Rest(g, c.current[p]))
  }

  // ---- What holds while the scan has handled the pairs `Handled(i, r, ..)`, starting from c0.

  ghost predicate Extends(c0: Configs, c: Configs) {
    c0.current <= c.current
  }

  ghost predicate AddedItems(g: Grammar, c: Configs, i: nat, r: nat) {
    forall p, rule: nat :: 0 <= p < |c.current| && Handled(i, r, p, rule) && Expands(g, c.current[p], Item(rule, 0))
      ==> Item(rule, 0) in c.current
  }

  ghost predicate Forced(g: Grammar, c0: Configs, c: Configs) {
    forall items: iset<Item> ::
      ClosedUnderExpansion(g, items) && (forall k :: 0 <= k < |c0.current| ==> c0.current[k] in items)
      ==> forall k :: 0 <= k < |c.current| ==> c.current[k] in items
  }

  ghost predicate FromStart(c0: Configs, k: nat, t: nat) {
    k < |c0.fws| && t in c0.fws[k]
  }

  ghost predicate GivenBy(g: Grammar, l: set<nat>, f: set<(nat, nat)>, c: Configs, i: nat, r: nat, k: nat, t: nat) {
    exists p: nat :: Gives(g, l, f, c, p, k, t) && Handled(i, r, p, c.current[k].rule)
  }

  ghost predicate ExactFws(g: Grammar, l: set<nat>, f: set<(nat, nat)>, c0: Configs, c: Configs, i: nat, r: nat)
    requires |c.fws| == |c.current|
  {
    forall k: nat, t: nat :: k < |c.current| ==>
      (t in c.fws[k] <==> FromStart(c0, k, t) || GivenBy(g, l, f, c, i, r, k, t))
  }

  /** A configuration's lookaheads are those it started with and those some parent gives it. */
  ghost predicate LookaheadsExplained(g: Grammar, l: set<nat>, f: set<(nat, nat)>, c0: Configs, c: Configs)
    requires |c.fws| == |c.current|
  {
    forall k: nat, t: nat :: k < |c.current| ==>
      (t in c.fws[k] <==> FromStart(c0, k, t) || exists p: nat :: Gives(g, l, f, c, p, k, t))
  }

  ghost function StartLinks(c0: Configs, p: nat): seq<nat> {
    if p < |c0.fplp| then c0.fplp[p] else []
  }

  /** The links of p: the new ones, each once, in front of those it had. */
  ghost predicate ExactLinksOf(g: Grammar, l: set<nat>, c0: Configs, c: Configs, i: nat, r: nat, p: nat)
    requires p < |c.current| && |c.fplp| == |c.current|
  {
    var n := |c.fplp[p]| - |StartLinks(c0, p)|;
    && n >= 0
    && c.fplp[p][n..] == StartLinks(c0, p)
    && NoDuplicates(c.fplp[p][..n])
    && forall k: nat :: k in c.fplp[p][..n] <==> Linked(g, l, c, p, k) && Handled(i, r, p, c.current[k].rule)
  }

  ghost predicate ExactLinks(g: Grammar, l: set<nat>, c0: Configs, c: Configs, i: nat, r: nat)
    requires |c.fplp| == |c.current|
  {
    forall p: nat :: p < |c.current| ==> ExactLinksOf(g, l, c0, c, i, r, p)
  }

  ghost predicate Inv(g: Grammar, l: set<nat>, f: set<(nat, nat)>, c0: Configs, c: Configs, i: nat, r: nat) {
    && ValidConfigs(g, c) && Extends(c0, c)
    && AddedItems(g, c, i, r) && Forced(g, c0, c)
    && ExactFws(g, l, f, c0, c, i, r) && ExactLinks(g, l, c0, c, i, r)
  }

  // ---- The list operations on values.

  function Append(c: Configs, item: Item): Configs {
    Configs(c.current + [item], c.fws + [{}], c.fplp + [[]])
  }

  function WithFirst(c: Configs, k: nat, ts: set<nat>): Configs
    requires k < |c.fws|
  {
    c.(fws := c.fws[k := c.fws[k] + ts])
  }

  function WithLink(c: Configs, p: nat, k: nat): Configs
    requires p < |c.fplp|
  {
    c.(fplp := c.fplp[p := [k] + c.fplp[p]])
  }

  lemma StartInv(g: Grammar, l: set<nat>, f: set<(nat, nat)>, c0: Configs)
    requires ValidConfigs(g, c0)
    ensures Inv(g, l, f, c0, c0, 0, |g.rules|)
  {
    forall p: nat | p < |c0.current| ensures ExactLinksOf(g, l, c0, c0, 0, |g.rules|, p) {
      assert c0.fplp[p][0..] == c0.fplp[p];
    }
  }

  lemma NextConfig(g: Grammar, l: set<nat>, f: set<(nat, nat)>, c0: Configs, c: Configs, i: nat, r: nat)
    requires Inv(g, l, f, c0, c, i, r) && i < |c.current|
    requires forall rule: nat :: rule < r ==> !Expands(g, c.current[i], Item(rule, 0))
    ensures Inv(g, l, f, c0, c, i + 1, |g.rules|)
  {
    assert forall k: nat :: k < |c.current| && Expands(g, c.current[i], c.current[k]) ==>
        Expands(g, c.current[i], Item(c.current[k].rule, 0));
    forall k: nat, t: nat | k < |c.current|
      ensures GivenBy(g, l, f, c, i, r, k, t) <==> GivenBy(g, l, f, c, i + 1, |g.rules|, k, t)
    {
      if GivenBy(g, l, f, c, i, r, k, t) {
        var p: nat :| Gives(g, l, f, c, p, k, t) && Handled(i, r, p, c.current[k].rule);
        assert Handled(i + 1, |g.rules|, p, c.current[k].rule);
      }
      if GivenBy(g, l, f, c, i + 1, |g.rules|, k, t) {
        var p: nat :| Gives(g, l, f, c, p, k, t) && Handled(i + 1, |g.rules|, p, c.current[k].rule);
        assert Handled(i, r, p, c.current[k].rule);
      }
    }
    var i' := i + 1;
    forall p: nat | p < |c.current| ensures ExactLinksOf(g, l, c0, c, i', |g.rules|, p) {
      assert ExactLinksOf(g, l, c0, c, i, r, p);
    }
  }

  lemma SkipRule(g: Grammar, l: set<nat>, f: set<(nat, nat)>, c0: Configs, c: Configs, i: nat, r: nat)
    requires Inv(g, l, f, c0, c, i, r + 1) && i < |c.current|
    requires !Expands(g, c.current[i], Item(r, 0))
    ensures Inv(g, l, f, c0, c, i, r)
  {
    assert forall k: nat :: k < |c.current| && c.current[k].rule == r ==> !Expands(g, c.current[i], c.current[k]);
    forall k: nat, t: nat | k < |c.current|
      ensures GivenBy(g, l, f, c, i, r + 1, k, t) <==> GivenBy(g, l, f, c, i, r, k, t)
    {
      if GivenBy(g, l, f, c, i, r + 1, k, t) {
        var p: nat :| Gives(g, l, f, c, p, k, t) && Handled(i, r + 1, p, c.current[k].rule);
        assert Handled(i, r, p, c.current[k].rule);
      }
      if GivenBy(g, l, f, c, i, r, k, t) {
        var p: nat :| Gives(g, l, f, c, p, k, t) && Handled(i, r, p, c.current[k].rule);
        assert Handled(i, r + 1, p, c.current[k].rule);
      }
    }
    forall p: nat | p < |c.current| ensures ExactLinksOf(g, l, c0, c, i, r, p) {
      assert ExactLinksOf(g, l, c0, c, i, r + 1, p);
    }
  }

  /** A configuration that is new to the list has no lookaheads and no links to account for. */
  lemma AppendInv(g: Grammar, l: set<nat>, f: set<(nat, nat)>, c0: Configs, c: Configs, i: nat, r: nat)
    requires Inv(g, l, f, c0, c, i, r + 1) && i < |c.current| && |c0.fws| == |c0.fplp| == |c0.current|
    requires Expands(g, c.current[i], Item(r, 0)) && Item(r, 0) !in c.current
    ensures Inv(g, l, f, c0, Append(c, Item(r, 0)), i, r + 1)
  {
    AppendItems(g, c0, c, i, r);
    AppendFws(g, l, f, c0, c, i, r);
    AppendLinks(g, l, c0, c, i, r);
  }

  /** No handled parent expands to the item `Item(r, 0)`, which is not in the list. */
  ghost predicate Fresh(g: Grammar, c: Configs, i: nat, r: nat) {
    && Item(r, 0) !in c.current
    && forall p: nat :: p < |c.current| && Handled(i, r + 1, p, r) ==> !Expands(g, c.current[p], Item(r, 0))
  }

  lemma AppendItems(g: Grammar, c0: Configs, c: Configs, i: nat, r: nat)
    requires ValidConfigs(g, c) && Extends(c0, c) && AddedItems(g, c, i, r + 1) && Forced(g, c0, c)
    requires i < |c.current| && Expands(g, c.current[i], Item(r, 0)) && Item(r, 0) !in c.current
    ensures var c' := Append(c, Item(r, 0));
      ValidConfigs(g, c') && Extends(c0, c') && AddedItems(g, c', i, r + 1) && Forced(g, c0, c')
    ensures Fresh(g, c, i, r)
  {
    var c' := Append(c, Item(r, 0));
    forall p, rule: nat | 0 <= p < |c'.current| && Handled(i, r + 1, p, rule) && Expands(g, c'.current[p], Item(rule, 0))
      ensures Item(rule, 0) in c'.current
    {
      assert p < |c.current| && c'.current[p] == c.current[p];
      assert Item(rule, 0) in c.current;
    }
    forall items: iset<Item> |
      ClosedUnderExpansion(g, items) && (forall k :: 0 <= k < |c0.current| ==> c0.current[k] in items)
      ensures forall k :: 0 <= k < |c'.current| ==> c'.current[k] in items
    {
      assert c.current[i] in items;
    }
  }

  lemma AppendFws(g: Grammar, l: set<nat>, f: set<(nat, nat)>, c0: Configs, c: Configs, i: nat, r: nat)
    requires |c.fws| == |c.current| && |c0.fws| <= |c.current| && ExactFws(g, l, f, c0, c, i, r + 1)
    requires i < |c.current| && Fresh(g, c, i, r)
    ensures ExactFws(g, l, f, c0, Append(c, Item(r, 0)), i, r + 1)
  {
    var c' := Append(c, Item(r, 0));
    forall k: nat, t: nat | k < |c'.current|
      ensures t in c'.fws[k] <==> FromStart(c0, k, t) || GivenBy(g, l, f, c', i, r + 1, k, t)
    {
      if GivenBy(g, l, f, c, i, r + 1, k, t) {
        var p: nat :| Gives(g, l, f, c, p, k, t) && Handled(i, r + 1, p, c.current[k].rule);
        assert Gives(g, l, f, c', p, k, t);
      }
      if GivenBy(g, l, f, c', i, r + 1, k, t) {
        var p: nat :| Gives(g, l, f, c', p, k, t) && Handled(i, r + 1, p, c'.current[k].rule);
        assert Gives(g, l, f, c, p, k, t);
      }
    }
  }

  /** The appended configuration is no new target of the pairs handled so far. */
  lemma AppendLink(g: Grammar, l: set<nat>, c0: Configs, c: Configs, i: nat, r: nat, p: nat)
    requires |c.fplp| == |c.current| && p < |c.current| && ExactLinksOf(g, l, c0, c, i, r + 1, p) && Fresh(g, c, i, r)
    ensures ExactLinksOf(g, l, c0, Append(c, Item(r, 0)), i, r + 1, p)
  {
    hide Expands, AllIn, Rest, NoDuplicates;
    var c' := Append(c, Item(r, 0));
    assert c'.fplp[p] == c.fplp[p] && c'.current[p] == c.current[p];
    assert forall k: nat :: k < |c.current| ==> c'.current[k] == c.current[k];
    assert forall k: nat :: k < |c.current| ==> (Linked(g, l, c', p, k) <==> Linked(g, l, c, p, k));
    assert forall k: nat :: Linked(g, l, c', p, k) && Handled(i, r + 1, p, c'.current[k].rule) ==> k < |c.current|;
  }

  lemma AppendLinks(g: Grammar, l: set<nat>, c0: Configs, c: Configs, i: nat, r: nat)
    requires |c.fplp| == |c.current| && |c0.fplp| <= |c.current| && ExactLinks(g, l, c0, c, i, r + 1)
    requires i < |c.current| && Fresh(g, c, i, r)
    ensures ExactLinks(g, l, c0, Append(c, Item(r, 0)), i, r + 1)
  {
    hide Linked, Fresh;
    var c' := Append(c, Item(r, 0));
    var r' := r + 1;
    forall p: nat | p < |c'.current| ensures ExactLinksOf(g, l, c0, c', i, r', p) {
      if p < |c.current| {
        assert ExactLinksOf(g, l, c0, c, i, r + 1, p);
        AppendLink(g, l, c0, c, i, r, p);
      } else {
        assert forall k: nat :: !Handled(i, r', p, k);
      }
    }
  }

  /** Rule r of configuration i has been handled: its lookaheads and its link are in place. */
  lemma RuleHandled(g: Grammar, l: set<nat>, f: set<(nat, nat)>, c0: Configs, c: Configs, c': Configs,
                    i: nat, r: nat, k: nat, ts: set<nat>)
    requires Inv(g, l, f, c0, c, i, r + 1) && i < |c.current| && k < |c.current|
    requires Expands(g, c.current[i], Item(r, 0)) && c.current[k] == Item(r, 0)
    requires forall t: nat :: t in ts <==> HasFirst(l, f, Rest(g, c.current[i]), t)
    requires c' == if AllIn(l, Rest(g, c.current[i])) then WithLink(WithFirst(c, k, ts), i, k) else WithFirst(c, k, ts)
    ensures Inv(g, l, f, c0, c', i, r)
  {
    hide HasFirst, AllIn, Rest, NoDuplicates;
    HandledFws(g, l, f, c0, c, c', i, r, k, ts);
    HandledLinks(g, l, c0, c, c', i, r, k);
  }

  lemma HandledFws(g: Grammar, l: set<nat>, f: set<(nat, nat)>, c0: Configs, c: Configs, c': Configs,
                   i: nat, r: nat, k: nat, ts: set<nat>)
    requires |c.fws| == |c.current| && ExactFws(g, l, f, c0, c, i, r + 1)
    requires i < |c.current| && k < |c.current| && NoDuplicates(c.current)
    requires Expands(g, c.current[i], Item(r, 0)) && c.current[k] == Item(r, 0)
    requires forall t: nat :: t in ts <==> HasFirst(l, f, Rest(g, c.current[i]), t)
    requires c'.current == c.current && c'.fws == c.fws[k := c.fws[k] + ts]
    ensures ExactFws(g, l, f, c0, c', i, r)
  {
    forall m: nat, t: nat | m < |c.current|
      ensures t in c'.fws[m] <==> FromStart(c0, m, t) || GivenBy(g, l, f, c', i, r, m, t)
    {
      if GivenBy(g, l, f, c, i, r + 1, m, t) {
        var p: nat :| Gives(g, l, f, c, p, m, t) && Handled(i, r + 1, p, c.current[m].rule);
        assert Gives(g, l, f, c', p, m, t) && Handled(i, r, p, c'.current[m].rule);
      }
      if m == k && t in ts {
        assert Gives(g, l, f, c', i, m, t) && Handled(i, r, i, c'.current[m].rule);
      }
      if GivenBy(g, l, f, c', i, r, m, t) {
        var p: nat :| Gives(g, l, f, c', p, m, t) && Handled(i, r, p, c'.current[m].rule);
        assert Gives(g, l, f, c, p, m, t);
        if p == i && c.current[m].rule == r {
          assert m == k;
        } else {
          assert Handled(i, r + 1, p, c.current[m].rule);
        }
      }
    }
  }

  lemma HandledLinks(g: Grammar, l: set<nat>, c0: Configs, c: Configs, c': Configs, i: nat, r: nat, k: nat)
    requires |c.fplp| == |c.current| && ExactLinks(g, l, c0, c, i, r + 1)
    requires i < |c.current| && k < |c.current| && NoDuplicates(c.current)
    requires Expands(g, c.current[i], Item(r, 0)) && c.current[k] == Item(r, 0)
    requires c'.current == c.current
    requires c'.fplp == if AllIn(l, Rest(g, c.current[i])) then c.fplp[i := [k] + c.fplp[i]] else c.fplp
    ensures ExactLinks(g, l, c0, c', i, r)
  {
    hide Expands, AllIn, Rest, NoDuplicates;
    forall p: nat | p < |c.current| ensures ExactLinksOf(g, l, c0, c', i, r, p) {
      assert ExactLinksOf(g, l, c0, c, i, r + 1, p);
      assert forall m: nat :: Linked(g, l, c', p, m) <==> Linked(g, l, c, p, m);
      if p == i {
        HandledLink(g, l, c0, c, c', i, r, k);
      }
    }
  }

  /** The links of the configuration being expanded. */
  lemma HandledLink(g: Grammar, l: set<nat>, c0: Configs, c: Configs, c': Configs, i: nat, r: nat, k: nat)
    requires |c.fplp| == |c.current| && i < |c.current| && k < |c.current| && NoDuplicates(c.current)
    requires ExactLinksOf(g, l, c0, c, i, r + 1, i)
    requires Expands(g, c.current[i], Item(r, 0)) && c.current[k] == Item(r, 0)
    requires c'.current == c.current
    requires c'.fplp == if AllIn(l, Rest(g, c.current[i])) then c.fplp[i := [k] + c.fplp[i]] else c.fplp
    ensures ExactLinksOf(g, l, c0, c', i, r, i)
  {
    assert forall m: nat :: Linked(g, l, c', i, m) <==> Linked(g, l, c, i, m);
    assert forall m: nat :: Linked(g, l, c, i, m) && c.current[m].rule == r ==> m == k;
    hide Expands, AllIn, Rest;
    if AllIn(l, Rest(g, c.current[i])) {
      var n := |c.fplp[i]| - |StartLinks(c0, i)|;
      assert c'.fplp[i][n + 1..] == c.fplp[i][n..];
      assert c'.fplp[i][..n + 1] == [k] + c.fplp[i][..n];
      assert Linked(g, l, c', i, k);
    }
  }

  /** A nonterminal without rules, other than the error symbol, is reported once per configuration. */
  predicate Undefined(g: Grammar, errsym: int, p: Item)
    requires p.rule < |g.rules|
  {
    var rhs := g.rules[p.rule].rhs;
    p.dot < |rhs| && rhs[p.dot].Nonterminal? && rhs[p.dot].index != errsym
    && forall k :: 0 <= k < |g.rules| ==> g.rules[k].lhs != rhs[p.dot].index
  }

  ghost function CountUndefined(g: Grammar, errsym: int, items: seq<Item>): nat
    requires forall k :: 0 <= k < |items| ==> items[k].rule < |g.rules|
  {
    if items == [] then 0
    else CountUndefined(g, errsym, items[..|items| - 1]) + if Undefined(g, errsym, items[|items| - 1]) then 1 else 0
  }

  ghost function UndefinedAt(g: Grammar, errsym: int, items: seq<Item>): (r: set<int>)
    requires forall k :: 0 <= k < |items| ==> items[k].rule < |g.rules|
    ensures forall k :: k in r <==> 0 <= k < |items| && Undefined(g, errsym, items[k])
    ensures |r| == CountUndefined(g, errsym, items)
  {
    if items == [] then {}
    else UndefinedAt(g, errsym, items[..|items| - 1]) + if Undefined(g, errsym, items[|items| - 1]) then {|items| - 1} else {}
  }

  lemma UndefinedMeans(g: Grammar, errsym: int, items: seq<Item>)
    requires forall k :: 0 <= k < |items| ==> items[k].rule < |g.rules|
    ensures UndefinedAt(g, errsym, items) ==
      set k | 0 <= k < |items| && items[k].dot < |g.rules[items[k].rule].rhs| &&
        (var sp := g.rules[items[k].rule].rhs[items[k].dot];
        sp.Nonterminal? && sp.index != errsym && forall r :: 0 <= r < |g.rules| ==> g.rules[r].lhs != sp.index)
  {
  }

  ghost function StartItems(n: nat): (r: set<Item>)
    ensures forall c :: c in r <==> c.dot == 0 && c.rule < n
  {
    if n == 0 then {} else StartItems(n - 1) + {Item(n - 1, 0)}
  }

  /** The list grew at its end, by start items only. */
  ghost predicate Grew(g: Grammar, was: seq<Item>, now: seq<Item>) {
    && was <= now
    && forall k :: |was| <= k < |now| ==> now[k].dot == 0 && now[k].rule < |g.rules|
  }

  lemma GrewSame(g: Grammar, was: seq<Item>)
    ensures Grew(g, was, was)
  {
  }

  lemma GrewMore(g: Grammar, was: seq<Item>, now: seq<Item>, r: nat, next: seq<Item>)
    requires Grew(g, was, now) && r < |g.rules| && (next == now || next == now + [Item(r, 0)])
    ensures Grew(g, was, next)
    ensures now <= next
  {
  }

  /** The start items that are not yet in the list: the closure loop's measure. */
  ghost function Missing(g: Grammar, items: seq<Item>): (r: set<Item>)
    ensures forall c :: c in r <==> c.dot == 0 && c.rule < |g.rules| && c !in items
  {
    set c | c in StartItems(|g.rules|) && c !in items
  }

  /** The FIRST set of one symbol. */
  function FirstOf(first: array2<bool>, s: Symbol): (r: set<nat>)
    requires s.Nonterminal? ==> s.index < first.Length0
    reads first
    ensures forall t: nat :: t in r <==> InFirst(Pairs(first), s, t)
  {
    match s
    case Terminal(t) => {t}
    case MultiTerminal(us) => set u <- us
    case Nonterminal(a) => Row(first, a)
  }

  class ConfigList {
    var current: seq<Item>
    var fws: seq<set<nat>>
    var fplp: seq<seq<nat>>
    var table: map<Item, nat>   // the hash table of configurations
    var errorcnt: nat

    function View(): Configs
      reads this
    {
      Configs(current, fws, fplp)
    }

    ghost predicate Valid(g: Grammar)
      reads this
    {
      && ValidConfigs(g, View())
      && (forall c :: c in table <==> c in current)
      && (forall c :: c in table ==> table[c] < |current| && current[table[c]] == c)
    }

    constructor ()
      ensures View() == Configs([], [], []) && errorcnt == 0
      ensures forall g: Grammar :: Valid(g)
    {
      current, fws, fplp, table, errorcnt := [], [], [], map[], 0;
    }

    /** Finds the configuration, or appends it with an empty lookahead set and no links. */
    method Add(g: Grammar, item: Item) returns (k: nat)
      requires Valid(g) && ValidItem(g, item)
      modifies this`current, this`fws, this`fplp, this`table
      ensures Valid(g) && k < |current| && current[k] == item
      ensures View() == if item in old(current) then old(View()) else Append(old(View()), item)
    {
      if item in table {
        k := table[item];
      } else {
        k := |current|;
        current, fws, fplp := current + [item], fws + [{}], fplp + [[]];
        table := table[item := k];
      }
    }

    /** Adds FIRST of `rest` to the lookaheads of configuration k; tells whether `rest` may vanish. */
    method AddLookaheads(g: Grammar, lambda: array<bool>, first: array2<bool>, k: nat, rest: Form)
      returns (vanishes: bool, ghost ts: set<nat>)
      requires Valid(g) && k < |current| && g.ValidForm(rest)
      requires lambda.Length == g.nsymbol && first.Length0 == g.nsymbol
      modifies this`fws
      ensures Valid(g) && View() == WithFirst(old(View()), k, ts)
      ensures vanishes <==> AllIn(Marked(lambda), rest)
      ensures forall t: nat :: t in ts <==> HasFirst(Marked(lambda), Pairs(first), rest, t)
    {
      hide HasFirst, InFirst;
      ghost var l, f := Marked(lambda), Pairs(first);
      var i := 0;
      ts := {};
      FirstOfNothing(l, f, rest);
      assert fws[k] + ts == fws[k] && fws[k := fws[k] + ts] == fws;
      while i < |rest|
        invariant 0 <= i <= |rest| && AllIn(l, rest[..i])
        invariant View() == WithFirst(old(View()), k, ts) && Valid(g)
        invariant forall t: nat :: t in ts <==> HasFirst(l, f, rest[..i], t)
      {
        var xsp := rest[i];
        assert g.ValidSymbol(xsp);
        var add := FirstOf(first, xsp);
        fws := fws[k := fws[k] + add];
        assert old(fws)[k] + ts + add == old(fws)[k] + (ts + add);
        ts := ts + add;
        FirstOfOneMore(l, f, rest, i);
        if !xsp.Nonterminal? || !lambda[xsp.index] {
          assert [xsp][0] == xsp;
          FirstStopsHere(l, f, rest, i);
          break;
        }
        assert rest[..i + 1] == rest[..i] + [xsp];
        i := i + 1;
      }
      assert rest[..|rest|] == rest;
      vanishes := i == |rest|;
    }

    method AddStart(g: Grammar, i: nat, r: nat, ghost l: set<nat>, ghost f: set<(nat, nat)>, ghost c0: Configs, ghost start: seq<Item>)
      returns (k: nat)
      requires Valid(g) && |c0.fws| == |c0.fplp| == |c0.current| && r < |g.rules|
      requires Inv(g, l, f, c0, View(), i, r + 1) && Grew(g, start, current)
      requires i < |current| && Expands(g, current[i], Item(r, 0))
      modifies this`current, this`fws, this`fplp, this`table
      ensures Valid(g) && Inv(g, l, f, c0, View(), i, r + 1) && Grew(g, start, current)
      ensures i < |current| && current[i] == old(current[i])
      ensures k < |current| && current[k] == Item(r, 0)
    {
      hide Inv, Grew;
      if Item(r, 0) !in current {
        AppendInv(g, l, f, c0, View(), i, r);
      }
      k := Add(g, Item(r, 0));
      GrewMore(g, start, old(current), r, current);
    }

    /** Adds the configuration that starts rule r, its lookaheads and its link to parent i. */
    method ExpandRule(g: Grammar, lambda: array<bool>, first: array2<bool>, i: nat, r: nat, ghost c0: Configs, ghost start: seq<Item>)
      requires Valid(g) && |c0.fws| == |c0.fplp| == |c0.current| && r < |g.rules|
      requires lambda.Length == g.nsymbol && first.Length0 == g.nsymbol
      requires Inv(g, Marked(lambda), Pairs(first), c0, View(), i, r + 1)
      requires i < |current| && Expands(g, current[i], Item(r, 0)) && g.ValidForm(Rest(g, current[i]))
      requires Grew(g, start, current)
      modifies this`current, this`fws, this`fplp, this`table
      ensures Valid(g) && Inv(g, Marked(lambda), Pairs(first), c0, View(), i, r)
      ensures i < |current| && current[i] == old(current[i]) && Grew(g, start, current)
    {
      hide Inv, Grew, HasFirst, AllIn, Marked, Pairs;
      ghost var l, f := Marked(lambda), Pairs(first);
      var cf := current[i];
      var k := AddStart(g, i, r, l, f, c0, start);
      ghost var added := View();
      var vanishes, ts := AddLookaheads(g, lambda, first, k, g.rules[cf.rule].rhs[cf.dot + 1..]);
      if vanishes {
        fplp := fplp[i := [k] + fplp[i]];
      }
      RuleHandled(g, l, f, c0, added, View(), i, r, k, ts);
    }

    /** Adds a configuration for every rule of the nonterminal after the dot of configuration i. */
    method Expand(g: Grammar, lambda: array<bool>, first: array2<bool>, i: nat, ghost c0: Configs)
      requires g.Valid() && Valid(g) && |c0.fws| == |c0.fplp| == |c0.current|
      requires lambda.Length == g.nsymbol && first.Length0 == g.nsymbol
      requires Inv(g, Marked(lambda), Pairs(first), c0, View(), i, |g.rules|)
      requires i < |current| && current[i].dot < |g.rules[current[i].rule].rhs|
      requires g.rules[current[i].rule].rhs[current[i].dot].Nonterminal?
      modifies this`current, this`fws, this`fplp, this`table
      ensures Valid(g) && Inv(g, Marked(lambda), Pairs(first), c0, View(), i + 1, |g.rules|)
      ensures Grew(g, old(current), current)
    {
      hide Inv, Grew;
      GrewSame(g, current);
      ghost var l, f := Marked(lambda), Pairs(first);
      var cf := current[i];
      var rp := g.rules[cf.rule];
      var sp := rp.rhs[cf.dot];
      assert g.ValidForm(rp.rhs) && g.ValidForm(Rest(g, cf));
      for r := |g.rules| downto 0
        invariant Valid(g) && Inv(g, l, f, c0, View(), i, r)
        invariant i < |current| && current[i] == cf && Grew(g, old(current), current)
      {
        if g.rules[r].lhs == sp.index {
          ExpandRule(g, lambda, first, i, r, c0, old(current));
        } else {
          SkipRule(g, l, f, c0, View(), i, r);
        }
      }
      NextConfig(g, l, f, c0, View(), i, 0);
    }

    /**
     * Without duplicates, the list becomes the least item set that contains the basis and is closed
     * under expanding the nonterminal after the dot.  A lookahead is there initially or comes from
     * FIRST of the rest of a parent; a link from parent to child exists exactly when that rest may
     * vanish.
     */
    method Close(g: Grammar, lambda: array<bool>, first: array2<bool>, errsym: int)
      requires g.Valid() && Valid(g)
      requires lambda.Length == g.nsymbol && first.Length0 == g.nsymbol
      modifies this
      ensures Valid(g) && old(current) <= current
      ensures ClosedUnderExpansion(g, iset c | c in current)
      ensures Forced(g, old(View()), View())
      ensures LookaheadsExplained(g, Marked(lambda), Pairs(first), old(View()), View())
      ensures ExactLinks(g, Marked(lambda), old(View()), View(), |current|, |g.rules|)
      ensures errorcnt == old(errorcnt) + |set k | 0 <= k < |current| && current[k].dot < |g.rules[current[k].rule].rhs| &&
        (var sp := g.rules[current[k].rule].rhs[current[k].dot];
        sp.Nonterminal? && sp.index != errsym && forall r :: 0 <= r < |g.rules| ==> g.rules[r].lhs != sp.index)|
    {
      hide Inv, Forced, ExactLinks, LookaheadsExplained, ClosedUnderExpansion, Grew, Marked, Pairs, Undefined, Missing, CountUndefined;
      ghost var l, f, c0 := Marked(lambda), Pairs(first), View();
      CountNone(g, errsym);
      StartInv(g, l, f, c0);
      var i := 0;
      while i < |current|
        invariant 0 <= i <= |current|
        invariant Valid(g) && Inv(g, l, f, c0, View(), i, |g.rules|)
        invariant errorcnt == old(errorcnt) + CountUndefined(g, errsym, current[..i])
        decreases Missing(g, current), |current| - i
      {
        ghost var was := current;
        Visit(g, lambda, first, errsym, i, c0);
        CountNext(g, errsym, was, current, i);
        i := i + 1;
      }
      assert current[..i] == current;
      ScanDone(g, l, f, c0, View());
      UndefinedMeans(g, errsym, current);
    }

    /** One turn of the closure loop: report an undefined nonterminal, then expand it. */
    method Visit(g: Grammar, lambda: array<bool>, first: array2<bool>, errsym: int, i: nat, ghost c0: Configs)
      requires g.Valid() && Valid(g) && |c0.fws| == |c0.fplp| == |c0.current|
      requires lambda.Length == g.nsymbol && first.Length0 == g.nsymbol
      requires Inv(g, Marked(lambda), Pairs(first), c0, View(), i, |g.rules|) && i < |current|
      modifies this
      ensures Valid(g) && Inv(g, Marked(lambda), Pairs(first), c0, View(), i + 1, |g.rules|)
      ensures old(current) <= current && Missing(g, current) <= Missing(g, old(current))
      ensures |current| > |old(current)| ==> Missing(g, current) < Missing(g, old(current))
      ensures errorcnt == old(errorcnt) + if Undefined(g, errsym, old(current[i])) then 1 else 0
    {
      hide Inv, Grew;
      var cf := current[i];
      var rp := g.rules[cf.rule];
      if Undefined(g, errsym, cf) {
        errorcnt := errorcnt + 1;
      }
      if cf.dot < |rp.rhs| && rp.rhs[cf.dot].Nonterminal? {
        Expand(g, lambda, first, i, c0);
      } else {
        GrewSame(g, current);
        NextConfig(g, Marked(lambda), Pairs(first), c0, View(), i, |g.rules|);
      }
      GrowthBounded(g, old(current), current);
    }
  }

  lemma FirstOfNothing(l: set<nat>, f: set<(nat, nat)>, u: Form)
    ensures AllIn(l, u[..0]) && forall t: nat :: !HasFirst(l, f, u[..0], t)
  {
  }

  lemma FirstOfOneMore(l: set<nat>, f: set<(nat, nat)>, u: Form, i: nat)
    requires i < |u| && AllIn(l, u[..i])
    ensures forall t: nat :: HasFirst(l, f, u[..i + 1], t) <==> HasFirst(l, f, u[..i], t) || InFirst(f, u[i], t)
  {
    assert u[..i + 1] == u[..i] + [u[i]];
    forall t: nat ensures HasFirst(l, f, u[..i + 1], t) <==> HasFirst(l, f, u[..i], t) || InFirst(f, u[i], t) {
      HasFirstConcat(l, f, u[..i], [u[i]], t);
      if InFirst(f, u[i], t) {
        assert AllIn(l, [u[i]][..0]) && InFirst(f, [u[i]][0], t);
      }
    }
  }

  lemma FirstStopsHere(l: set<nat>, f: set<(nat, nat)>, u: Form, i: nat)
    requires i < |u| && !AllIn(l, [u[i]])
    ensures forall t: nat :: HasFirst(l, f, u, t) <==> HasFirst(l, f, u[..i + 1], t)
    ensures !AllIn(l, u)
  {
    assert u == u[..i + 1] + u[i + 1..] && u[..i + 1] == u[..i] + [u[i]];
    AllInConcat(l, u[..i], [u[i]]);
    AllInConcat(l, u[..i + 1], u[i + 1..]);
    forall t: nat ensures HasFirst(l, f, u, t) <==> HasFirst(l, f, u[..i + 1], t) {
      HasFirstConcat(l, f, u[..i + 1], u[i + 1..], t);
    }
  }

  lemma CountNone(g: Grammar, errsym: int)
    ensures CountUndefined(g, errsym, []) == 0
  {
  }

  lemma CountNext(g: Grammar, errsym: int, was: seq<Item>, now: seq<Item>, i: nat)
    requires i < |was| && was <= now
    requires forall k :: 0 <= k < |now| ==> now[k].rule < |g.rules|
    ensures forall k :: 0 <= k < |was| ==> was[k] == now[k]
    ensures CountUndefined(g, errsym, now[..i + 1])
      == CountUndefined(g, errsym, was[..i]) + if Undefined(g, errsym, was[i]) then 1 else 0
  {
    assert now[..i + 1][..i] == was[..i];
  }

  lemma GrowthBounded(g: Grammar, was: seq<Item>, now: seq<Item>)
    requires Grew(g, was, now) && NoDuplicates(now)
    ensures was <= now
    ensures Missing(g, now) <= Missing(g, was)
    ensures |now| > |was| ==> Missing(g, now) < Missing(g, was)
  {
    assert forall k :: 0 <= k < |was| ==> was[k] == now[k];
    if |now| > |was| {
      assert now[|was|] in Missing(g, was) && now[|was|] !in Missing(g, now);
    }
  }

  lemma ScanDone(g: Grammar, l: set<nat>, f: set<(nat, nat)>, c0: Configs, c: Configs)
    requires Inv(g, l, f, c0, c, |c.current|, |g.rules|)
    ensures ClosedUnderExpansion(g, iset p | p in c.current) && Forced(g, c0, c)
    ensures c0.current <= c.current && ExactLinks(g, l, c0, c, |c.current|, |g.rules|)
    ensures LookaheadsExplained(g, l, f, c0, c)
  {
    forall p, q | p in c.current && Expands(g, p, q) ensures q in c.current {
      var i :| 0 <= i < |c.current| && c.current[i] == p;
      assert Handled(|c.current|, |g.rules|, i, q.rule) && q == Item(q.rule, 0);
    }
    forall k: nat, t: nat | k < |c.current|
      ensures t in c.fws[k] <==> FromStart(c0, k, t) || exists p: nat :: Gives(g, l, f, c, p, k, t)
    {
      if p: nat :| Gives(g, l, f, c, p, k, t) {
        assert Handled(|c.current|, |g.rules|, p, c.current[k].rule);
      }
    }
  }

  /** With the tables of `FindFirstSets`, lookaheads and links of the closure mean derivability. */
  lemma ClosureMeaning(g: Grammar, l: set<nat>, f: set<(nat, nat)>, c: Configs, p: nat, k: nat)
    requires LambdaSound(g, l) && LambdaClosed(g, l) && FirstSound(g, f) && FirstClosed(g, l, f)
    requires p < |c.current| && k < |c.current|
    requires c.current[p].rule < |g.rules| && c.current[k].rule < |g.rules|
    ensures var rhs, dot, kid := g.rules[c.current[p].rule].rhs, c.current[p].dot, c.current[k];
      forall t: nat :: Gives(g, l, f, c, p, k, t) <==>
        kid.dot == 0 && dot < |rhs| && rhs[dot] == Nonterminal(g.rules[kid.rule].lhs) && Starts(g, rhs[dot + 1..], t)
    ensures var rhs, dot, kid := g.rules[c.current[p].rule].rhs, c.current[p].dot, c.current[k];
      Linked(g, l, c, p, k) <==>
        kid.dot == 0 && dot < |rhs| && rhs[dot] == Nonterminal(g.rules[kid.rule].lhs) && Nullable(g, rhs[dot + 1..])
  {
    TablesExact(g, l, f, Rest(g, c.current[p]));
  }
}
