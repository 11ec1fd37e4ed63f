/**
 * Propagation of follow sets along the links between LR configurations.  Configurations are
 * numbered; `states[i]` lists the configurations of state i in the order the loops visit them, and
 * `links[c]` the targets of the forward links of configuration c.
 */
module FollowSets {
  import opened SymbolSets

  type Links = seq<seq<nat>>

  ghost predicate ValidLinks(links: Links) {
    forall c, j :: 0 <= c < |links| && 0 <= j < |links[c]| ==> links[c][j] < |links|
  }

  /** Every configuration belongs to some state, and states list nothing else. */
  ghost predicate Covers(states: seq<seq<nat>>, n: nat) {
    && (forall i, j :: 0 <= i < |states| && 0 <= j < |states[i]| ==> states[i][j] < n)
    && (forall c: nat :: c < n ==> Listed(states, c))
  }

  ghost predicate Listed(states: seq<seq<nat>>, c: nat) {
    exists i: nat :: i < |states| && c in states[i]
  }

  ghost predicate IsPath(links: Links, p: seq<nat>) {
    && p != []
    && (forall k :: 0 <= k < |p| ==> p[k] < |links|)
    && (forall k {:trigger p[k]} :: 0 < k < |p| ==> p[k] in links[p[k - 1]])
  }

  ghost predicate Reaches(links: Links, d: nat, c: nat) {
    exists p: seq<nat> :: IsPath(links, p) && p[0] == d && p[|p| - 1] == c
  }

  /** `t` starts out in the follow set of some configuration that reaches `c`. */
  ghost predicate Flows(links: Links, init: set<(nat, nat)>, c: nat, t: nat) {
    exists d: nat :: (d, t) in init && Reaches(links, d, c)
  }

  lemma ReachesSelf(links: Links, c: nat)
    requires c < |links|
    ensures Reaches(links, c, c)
  {
    assert IsPath(links, [c]);
  }

  lemma ReachesLink(links: Links, d: nat, c: nat, c': nat)
    requires ValidLinks(links) && Reaches(links, d, c) && c < |links| && c' in links[c]
    ensures Reaches(links, d, c')
  {
    var p: seq<nat> :| IsPath(links, p) && p[0] == d && p[|p| - 1] == c;
    var p' := p + [c'];
    assert IsPath(links, p');
  }

  /** The follow sets solve the propagation constraint of configuration `c`. */
  ghost predicate Propagated(links: Links, f: set<(nat, nat)>, c: nat)
    requires c < |links|
  {
    forall c' <- links[c] :: forall t: nat :: (c, t) in f ==> (c', t) in f
  }

  lemma {:induction false} PathFlows(links: Links, f: set<(nat, nat)>, p: seq<nat>, t: nat)
    requires IsPath(links, p) && (p[0], t) in f
    requires forall c: nat :: c < |links| ==> Propagated(links, f, c)
    ensures (p[|p| - 1], t) in f
    decreases |p|
  {
    if |p| > 1 {
      var q := p[..|p| - 1];
      assert forall k {:trigger q[k]} :: 0 <= k < |q| ==> q[k] == p[k];
      PathFlows(links, f, q, t);
      assert p[|p| - 1] in links[p[|p| - 2]];
      assert Propagated(links, f, q[|q| - 1]);
    }
  }

  /**
   * Any solution of all constraints above `init` contains what flows, so one that contains nothing
   * else is the least solution.
   */
  lemma SolutionContainsFlows(links: Links, init: set<(nat, nat)>, f: set<(nat, nat)>)
    requires init <= f && forall c: nat :: c < |links| ==> Propagated(links, f, c)
    ensures forall c: nat, t: nat :: Flows(links, init, c, t) ==> (c, t) in f
  {
    forall c: nat, t: nat | Flows(links, init, c, t) ensures (c, t) in f {
      var d: nat :| (d, t) in init && Reaches(links, d, c);
      var p: seq<nat> :| IsPath(links, p) && p[0] == d && p[|p| - 1] == c;
      PathFlows(links, f, p, t);
    }
  }

  ghost predicate OnlyFlows(links: Links, init: set<(nat, nat)>, f: set<(nat, nat)>) {
    forall c: nat, t: nat :: (c, t) in f ==> Flows(links, init, c, t)
  }

  ghost predicate CompleteMeansPropagated(links: Links, complete: seq<bool>, f: set<(nat, nat)>)
    requires |complete| == |links|
  {
    forall c: nat :: c < |links| && complete[c] ==> Propagated(links, f, c)
  }

  ghost predicate Grew(f0: set<(nat, nat)>, f: set<(nat, nat)>, c: nat) {
    exists t: nat :: (c, t) in f && (c, t) !in f0
  }

  /** Exactly the configurations whose follow sets grew are no longer COMPLETE. */
  ghost predicate Woken(f0: set<(nat, nat)>, complete0: seq<bool>, f: set<(nat, nat)>, complete: seq<bool>) {
    |complete| == |complete0| && forall c: nat :: c < |complete| ==> (complete[c] <==> complete0[c] && !Grew(f0, f, c))
  }

  /** The first j links of c are satisfied. */
  ghost predicate LinksDone(links: Links, f: set<(nat, nat)>, c: nat, j: nat)
    requires c < |links| && j <= |links[c]|
  {
    forall k: nat, t: nat :: k < j && (c, t) in f ==> (links[c][k], t) in f
  }

  /** f' is f with the set of c added to that of target. */
  ghost predicate Unioned(f: set<(nat, nat)>, f': set<(nat, nat)>, target: nat, c: nat) {
    forall s: nat, e: nat :: (s, e) in f' <==> (s, e) in f || (s == target && (c, e) in f)
  }

  lemma UnionWakes(f0: set<(nat, nat)>, complete0: seq<bool>, f: set<(nat, nat)>, complete: seq<bool>,
                   f': set<(nat, nat)>, complete': seq<bool>, target: nat, c: nat)
    requires Unioned(f, f', target, c) && f0 <= f && Woken(f0, complete0, f, complete) && target < |complete|
    requires complete' == if f' != f then complete[target := false] else complete
    ensures f <= f' && Woken(f0, complete0, f', complete')
  {
    forall p | p in f ensures p in f' {
      assert (p.0, p.1) in f';
    }
    forall d: nat | d < |complete| ensures Grew(f0, f', d) <==> Grew(f0, f, d) || (f' != f && d == target) {
      if Grew(f0, f, d) {
        var t: nat :| (d, t) in f && (d, t) !in f0;
        assert (d, t) in f';
      }
      if f' != f {
        var p :| p in f' && p !in f;
        assert (p.0, p.1) in f' && p.0 == target;
      }
    }
  }

  lemma UnionKeeps(links: Links, f: set<(nat, nat)>, complete: seq<bool>, f': set<(nat, nat)>, complete': seq<bool>, target: nat, c: nat)
    requires Unioned(f, f', target, c) && |complete| == |links| && target < |links| && CompleteMeansPropagated(links, complete, f)
    requires complete' == if f' != f then complete[target := false] else complete
    ensures CompleteMeansPropagated(links, complete', f')
  {
    forall d: nat | d < |links| && complete'[d] ensures Propagated(links, f', d) {
      assert Propagated(links, f, d);
    }
  }

  lemma UnionFlows(links: Links, init: set<(nat, nat)>, f: set<(nat, nat)>, f': set<(nat, nat)>, target: nat, c: nat)
    requires ValidLinks(links) && Unioned(f, f', target, c) && c < |links| && target in links[c] && OnlyFlows(links, init, f)
    ensures OnlyFlows(links, init, f')
  {
    hide Reaches;
    forall s: nat, t: nat | (s, t) in f' ensures Flows(links, init, s, t) {
      if (s, t) !in f {
        var d: nat :| (d, t) in init && Reaches(links, d, c);
        ReachesLink(links, d, c, target);
      }
    }
  }

  lemma UnionDone(links: Links, f: set<(nat, nat)>, f': set<(nat, nat)>, c: nat, j: nat)
    requires c < |links| && j < |links[c]| && Unioned(f, f', links[c][j], c) && LinksDone(links, f, c, j)
    ensures LinksDone(links, f', c, j + 1)
  {
  }

  lemma AllLinksDone(links: Links, f: set<(nat, nat)>, c: nat)
    requires c < |links| && LinksDone(links, f, c, |links[c]|)
    ensures Propagated(links, f, c)
  {
  }

  /** Adds the follow set of `c` to those of its link targets and wakes the targets that grew. */
  method PropagateFrom(links: Links, complete: array<bool>, fws: array2<bool>, c: nat, ghost init: set<(nat, nat)>)
    returns (progress: bool)
    requires ValidLinks(links) && complete.Length == |links| == fws.Length0 && c < |links|
    requires OnlyFlows(links, init, Pairs(fws))
    requires CompleteMeansPropagated(links, complete[..], Pairs(fws))
    modifies complete, fws
    ensures OnlyFlows(links, init, Pairs(fws))
    ensures CompleteMeansPropagated(links, complete[..], Pairs(fws))
    ensures Propagated(links, Pairs(fws), c)
    ensures old(Pairs(fws)) <= Pairs(fws)
    ensures progress <==> old(Pairs(fws)) != Pairs(fws)
    ensures Woken(old(Pairs(fws)), old(complete[..]), Pairs(fws), complete[..])
    ensures !progress ==> complete[..] == old(complete[..])
  {
    hide OnlyFlows, CompleteMeansPropagated, Propagated, Woken, LinksDone;
    progress := false;
    ghost var f0, complete0 := Pairs(fws), complete[..];
    NobodyWoken(links, f0, complete0, c);
    for j := 0 to |links[c]|
      invariant OnlyFlows(links, init, Pairs(fws))
      invariant CompleteMeansPropagated(links, complete[..], Pairs(fws))
      invariant f0 <= Pairs(fws) && (progress <==> f0 != Pairs(fws))
      invariant Woken(f0, complete0, Pairs(fws), complete[..])
      invariant !progress ==> complete[..] == complete0
      invariant LinksDone(links, Pairs(fws), c, j)
    {
      var target := links[c][j];
      ghost var f, was := Pairs(fws), complete[..];
      var change := SetUnion(fws, target, c);
      if change {
        complete[target] := false;
        progress := true;
      }
      UnionWakes(f0, complete0, f, was, Pairs(fws), complete[..], target, c);
      UnionKeeps(links, f, was, Pairs(fws), complete[..], target, c);
      UnionFlows(links, init, f, Pairs(fws), target, c);
      UnionDone(links, f, Pairs(fws), c, j);
    }
    AllLinksDone(links, Pairs(fws), c);
  }

  lemma NobodyWoken(links: Links, f: set<(nat, nat)>, complete: seq<bool>, c: nat)
    requires c < |links|
    ensures Woken(f, complete, f, complete) && LinksDone(links, f, c, 0)
  {
  }

  /**
   * Each final follow set is the union of the initial sets of all configurations that reach it, so
   * skipping COMPLETE configurations loses nothing.
   */
  method FindFollowSets(states: seq<seq<nat>>, links: Links, fws: array2<bool>)
    requires ValidLinks(links) && fws.Length0 == |links| && Covers(states, |links|)
    modifies fws
    ensures forall c: nat, t: nat :: (c, t) in Pairs(fws) <==> Flows(links, old(Pairs(fws)), c, t)
    ensures forall c: nat :: c < |links| ==> Propagated(links, Pairs(fws), c)
  {
    hide OnlyFlows, CompleteMeansPropagated, Propagated, Flows, Reaches, Covers, ValidLinks;
    ghost var init := Pairs(fws);
    var complete := new bool[|links|](_ => false);
    NothingComplete(links, init, complete[..]);
    ghost var all := Universe(fws.Length0, fws.Length1);
    var progress := true;
    while progress
      invariant init <= Pairs(fws) && OnlyFlows(links, init, Pairs(fws))
      invariant CompleteMeansPropagated(links, complete[..], Pairs(fws))
      invariant !progress ==> forall c: nat :: c < |links| ==> complete[c]
      decreases all - Pairs(fws), progress
    {
      ghost var before := Pairs(fws);
      progress := Pass(states, links, complete, fws, init);
      assert progress ==> all - Pairs(fws) < all - before by {
        assert Pairs(fws) <= all;
      }
    }
    AllDone(links, init, Pairs(fws), complete[..]);
  }

  lemma NothingComplete(links: Links, init: set<(nat, nat)>, complete: seq<bool>)
    requires |complete| == |links| && (forall c :: 0 <= c < |complete| ==> !complete[c])
    requires forall c: nat, t: nat :: (c, t) in init ==> c < |links|
    ensures OnlyFlows(links, init, init) && CompleteMeansPropagated(links, complete, init)
  {
    hide Reaches;
    forall c: nat, t: nat | (c, t) in init ensures Flows(links, init, c, t) {
      ReachesSelf(links, c);
    }
  }

  lemma AllDone(links: Links, init: set<(nat, nat)>, f: set<(nat, nat)>, complete: seq<bool>)
    requires |complete| == |links| && (forall c: nat :: c < |links| ==> complete[c]) && CompleteMeansPropagated(links, complete, f)
    requires init <= f && OnlyFlows(links, init, f)
    ensures forall c: nat :: c < |links| ==> Propagated(links, f, c)
    ensures forall c: nat, t: nat :: (c, t) in f <==> Flows(links, init, c, t)
  {
    hide Propagated, Flows;
    SolutionContainsFlows(links, init, f);
  }

  ghost predicate AllComplete(complete: array<bool>, configs: seq<nat>)
    reads complete
  {
    forall j :: 0 <= j < |configs| ==> configs[j] < complete.Length && complete[configs[j]]
  }

  /** One state of a sweep. */
  method PassState(configs: seq<nat>, links: Links, complete: array<bool>, fws: array2<bool>, ghost init: set<(nat, nat)>)
    returns (progress: bool)
    requires ValidLinks(links) && complete.Length == |links| == fws.Length0
    requires forall j :: 0 <= j < |configs| ==> configs[j] < |links|
    requires OnlyFlows(links, init, Pairs(fws))
    requires CompleteMeansPropagated(links, complete[..], Pairs(fws))
    modifies complete, fws
    ensures OnlyFlows(links, init, Pairs(fws))
    ensures CompleteMeansPropagated(links, complete[..], Pairs(fws))
    ensures old(Pairs(fws)) <= Pairs(fws)
    ensures progress <==> old(Pairs(fws)) != Pairs(fws)
    ensures !progress ==> AllComplete(complete, configs)
    ensures !progress ==> forall c :: 0 <= c < |links| && old(complete[c]) ==> complete[c]
  {
    progress := false;
    for j := 0 to |configs|
      invariant OnlyFlows(links, init, Pairs(fws))
      invariant CompleteMeansPropagated(links, complete[..], Pairs(fws))
      invariant old(Pairs(fws)) <= Pairs(fws)
      invariant progress <==> old(Pairs(fws)) != Pairs(fws)
      invariant !progress ==> forall k :: 0 <= k < j ==> complete[configs[k]]
      invariant !progress ==> forall c :: 0 <= c < |links| && old(complete[c]) ==> complete[c]
    {
      var c := configs[j];
      if complete[c] { continue; }
      ghost var was := complete[..];
      var change := PropagateFrom(links, complete, fws, c, init);
      assert !change ==> forall d :: 0 <= d < |links| ==> complete[d] == complete[..][d] == was[d];
      progress := progress || change;
      complete[c] := true;
    }
  }

  /** One sweep over all configurations of all states; without progress it leaves all COMPLETE. */
  method Pass(states: seq<seq<nat>>, links: Links, complete: array<bool>, fws: array2<bool>, ghost init: set<(nat, nat)>)
    returns (progress: bool)
    requires ValidLinks(links) && complete.Length == |links| == fws.Length0 && Covers(states, |links|)
    requires OnlyFlows(links, init, Pairs(fws))
    requires CompleteMeansPropagated(links, complete[..], Pairs(fws))
    modifies complete, fws
    ensures OnlyFlows(links, init, Pairs(fws))
    ensures CompleteMeansPropagated(links, complete[..], Pairs(fws))
    ensures old(Pairs(fws)) <= Pairs(fws)
    ensures progress <==> old(Pairs(fws)) != Pairs(fws)
    ensures !progress ==> forall c: nat :: c < |links| ==> complete[c]
  {
    progress := false;
    for i := 0 to |states|
      invariant OnlyFlows(links, init, Pairs(fws))
      invariant CompleteMeansPropagated(links, complete[..], Pairs(fws))
      invariant old(Pairs(fws)) <= Pairs(fws)
      invariant progress <==> old(Pairs(fws)) != Pairs(fws)
      invariant !progress ==> forall k :: 0 <= k < i ==> AllComplete(complete, states[k])
    {
      var change := PassState(states[i], links, complete, fws, init);
      progress := progress || change;
    }
    if !progress {
      forall c: nat | c < |links| ensures complete[c] {
        assert Listed(states, c);
        var i: nat :| i < |states| && c in states[i];
        assert AllComplete(complete, states[i]);
      }
    }
  }
}
