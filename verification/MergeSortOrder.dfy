/**
 * In which order the list sort leaves elements that compare equal.  Within a bin later elements come first, since a
 * run is merged in front of the older run it meets; between bins earlier elements come first, since the bins are
 * merged with the older, larger ones in front.  Which bin an element ends in depends on its position only.
 */
module MergeSortOrder {
  import opened Collections
  import opened MergeSort

  ghost predicate InOrder(s: seq<nat>, x: nat, y: nat) {
    exists p, q :: 0 <= p < q < |s| && s[p] == x && s[q] == y
  }

  predicate Tied(le: Cmp, x: nat, y: nat) {
    le(x, y) && le(y, x)
  }

  // ---- Merging.

  lemma InOrderCons(h: nat, s: seq<nat>, x: nat, y: nat)
    requires InOrder(s, x, y)
    ensures InOrder([h] + s, x, y)
  {
    var p, q :| 0 <= p < q < |s| && s[p] == x && s[q] == y;
    assert ([h] + s)[p + 1] == x && ([h] + s)[q + 1] == y;
  }

  lemma InOrderHead(h: nat, s: seq<nat>, y: nat)
    requires y in s
    ensures InOrder([h] + s, h, y)
  {
    var q :| 0 <= q < |s| && s[q] == y;
    assert ([h] + s)[0] == h && ([h] + s)[q + 1] == y;
  }

  lemma InOrderTail(s: seq<nat>, x: nat, y: nat)
    requires InOrder(s, x, y)
    ensures s != [] && (InOrder(s[1..], x, y) || (x == s[0] && y in s[1..]))
  {
    var p, q :| 0 <= p < q < |s| && s[p] == x && s[q] == y;
    assert s[1..][q - 1] == y;
    if p > 0 {
      assert s[1..][p - 1] == x;
    }
  }

  /** Both lists keep their order. */
  lemma {:induction false} MergeKeepsOrder(le: Cmp, a: seq<nat>, b: seq<nat>, x: nat, y: nat)
    requires InOrder(a, x, y) || InOrder(b, x, y)
    ensures InOrder(Merge(le, a, b), x, y)
    decreases |a| + |b|
  {
    hide InOrder;
    if a != [] && b != [] {
      if le(a[0], b[0]) {
        var rest := Merge(le, a[1..], b);
        MergeMembers(le, a[1..], b);
        if InOrder(a, x, y) {
          InOrderTail(a, x, y);
        }
        if InOrder(a[1..], x, y) || InOrder(b, x, y) {
          MergeKeepsOrder(le, a[1..], b, x, y);
          InOrderCons(a[0], rest, x, y);
        } else {
          InOrderHead(a[0], rest, y);
        }
      } else {
        var rest := Merge(le, a, b[1..]);
        MergeMembers(le, a, b[1..]);
        if InOrder(b, x, y) {
          InOrderTail(b, x, y);
        }
        if InOrder(a, x, y) || InOrder(b[1..], x, y) {
          MergeKeepsOrder(le, a, b[1..], x, y);
          InOrderCons(b[0], rest, x, y);
        } else {
          InOrderHead(b[0], rest, y);
        }
      }
    } else {
      NothingInOrder(x, y);
    }
  }

  lemma NothingInOrder(x: nat, y: nat)
    ensures !InOrder([], x, y)
  {
  }

  /** Elements of the first list come before equal ones of the second. */
  lemma {:induction false} MergePutsFirst(le: Cmp, a: seq<nat>, b: seq<nat>, x: nat, y: nat)
    requires TotalPreorder(le) && Sorted(le, a) && x in a && y in b && le(x, y)
    ensures InOrder(Merge(le, a, b), x, y)
    decreases |a| + |b|
  {
    hide InOrder;
    if le(a[0], b[0]) {
      var rest := Merge(le, a[1..], b);
      MergeMembers(le, a[1..], b);
      if x == a[0] {
        InOrderHead(x, rest, y);
      } else {
        MergePutsFirst(le, a[1..], b, x, y);
        InOrderCons(a[0], rest, x, y);
      }
    } else {
      var i :| 0 <= i < |a| && a[i] == x;
      assert le(a[0], x);
      MergePutsFirst(le, a, b[1..], x, y);
      InOrderCons(b[0], Merge(le, a, b[1..]), x, y);
    }
  }

  // ---- The bins and the parts of the list in them.

  /** The run holds the elements of the part, those that compare equal in reverse. */
  ghost predicate TiesReversed(le: Cmp, part: seq<nat>, run: seq<nat>) {
    && |run| == |part| && (forall x :: x in run <==> x in part)
    && forall i, j :: 0 <= i < j < |part| && Tied(le, part[i], part[j]) ==> InOrder(run, part[j], part[i])
  }

  /** A newer run merged in front of an older one. */
  lemma MergeReverses(le: Cmp, older: seq<nat>, a: seq<nat>, newer: seq<nat>, b: seq<nat>)
    requires TotalPreorder(le) && TiesReversed(le, older, a) && TiesReversed(le, newer, b) && Sorted(le, b)
    ensures TiesReversed(le, older + newer, Merge(le, b, a))
  {
    hide InOrder, Merge, Sorted, TotalPreorder;
    MergeContents(le, b, a);
    MergeMembers(le, b, a);
    var part := older + newer;
    forall i, j | 0 <= i < j < |part| && Tied(le, part[i], part[j]) ensures InOrder(Merge(le, b, a), part[j], part[i]) {
      if j < |older| {
        MergeKeepsOrder(le, b, a, part[j], part[i]);
      } else if i >= |older| {
        assert part[i] == newer[i - |older|] && part[j] == newer[j - |older|];
        MergeKeepsOrder(le, b, a, part[j], part[i]);
      } else {
        assert part[i] in older && part[j] in newer;
        MergePutsFirst(le, b, a, part[j], part[i]);
      }
    }
  }

  /** What Carry does to the parts of the list: an older part and a newer one are joined. */
  function CarryParts(parts: seq<seq<nat>>, i: nat, ep: seq<nat>): (r: seq<seq<nat>>)
    requires i < |parts|
    ensures |r| == |parts|
    decreases |parts| - i
  {
    if i < |parts| - 1 && parts[i] != [] then CarryParts(parts[i := []], i + 1, parts[i] + ep) else parts[i := ep]
  }

  function Parts(nbins: nat, list: seq<nat>): (r: seq<seq<nat>>)
    requires nbins > 0
    ensures |r| == nbins
  {
    if list == [] then seq(nbins, _ => []) else CarryParts(Parts(nbins, list[..|list| - 1]), 0, [list[|list| - 1]])
  }

  ghost predicate Matches(le: Cmp, parts: seq<seq<nat>>, bins: seq<seq<nat>>) {
    |parts| == |bins| && forall k :: 0 <= k < |bins| ==> TiesReversed(le, parts[k], bins[k])
  }

  lemma {:induction false} CarryMatches(le: Cmp, parts: seq<seq<nat>>, bins: seq<seq<nat>>, i: nat, part: seq<nat>, ep: seq<nat>)
    requires TotalPreorder(le) && Matches(le, parts, bins) && AllSorted(le, bins) && i < |bins|
    requires TiesReversed(le, part, ep) && Sorted(le, ep)
    ensures Matches(le, CarryParts(parts, i, part), Carry(le, bins, i, ep))
    decreases |bins| - i
  {
    hide TotalPreorder, Sorted, Merge;
    assert |parts[i]| == |bins[i]| by {
      assert TiesReversed(le, parts[i], bins[i]);
    }
    hide TiesReversed;
    if i < |bins| - 1 && bins[i] != [] {
      MergeReverses(le, parts[i], bins[i], part, ep);
      MergeSorted(le, ep, bins[i]);
      NoTies(le);
      SortedNothing(le);
      CarryMatches(le, parts[i := []], bins[i := []], i + 1, parts[i] + part, Merge(le, ep, bins[i]));
    }
  }

  lemma NoTies(le: Cmp)
    ensures TiesReversed(le, [], [])
  {
  }

  lemma SortedNothing(le: Cmp)
    ensures Sorted(le, [])
  {
  }

  lemma {:induction false} FillMatches(le: Cmp, nbins: nat, list: seq<nat>)
    requires nbins > 0 && TotalPreorder(le)
    ensures Matches(le, Parts(nbins, list), Fill(le, nbins, list))
    decreases |list|
  {
    hide TotalPreorder;
    if list == [] {
      NoTies(le);
    } else {
      var n := |list| - 1;
      FillMatches(le, nbins, list[..n]);
      FillSorted(le, nbins, list[..n]);
      CarryMatches(le, Parts(nbins, list[..n]), Fill(le, nbins, list[..n]), 0, [list[n]], [list[n]]);
    }
  }

  // ---- The parts make up the list, the largest first.

  function Joined(parts: seq<seq<nat>>, n: nat): seq<nat>
    requires n <= |parts|
  {
    if n == 0 then [] else parts[n - 1] + Joined(parts, n - 1)
  }

  lemma {:induction false} JoinedUpdate(parts: seq<seq<nat>>, i: nat, part: seq<nat>, n: nat)
    requires i < |parts| && n <= |parts| && forall j :: 0 <= j <= i ==> parts[j] == []
    ensures Joined(parts[i := part], n) == if i < n then Joined(parts, n) + part else Joined(parts, n)
    decreases n
  {
    if n > 0 {
      JoinedUpdate(parts, i, part, n - 1);
      var rest, parts' := Joined(parts, n - 1), parts[i := part];
      assert Joined(parts', n) == parts'[n - 1] + Joined(parts', n - 1);
      if i < n - 1 {
        assert parts[n - 1] + (rest + part) == (parts[n - 1] + rest) + part;
      } else if i == n - 1 {
        JoinedNothing(parts, n - 1);
        assert part + [] == [] + [] + part;
      }
    }
  }

  lemma {:induction false} JoinedNothing(parts: seq<seq<nat>>, n: nat)
    requires n <= |parts| && forall j :: 0 <= j < n ==> parts[j] == []
    ensures Joined(parts, n) == []
    decreases n
  {
    if n > 0 {
      JoinedNothing(parts, n - 1);
    }
  }

  lemma {:induction false} CarryJoins(parts: seq<seq<nat>>, i: nat, part: seq<nat>)
    requires i < |parts| && forall j :: 0 <= j < i ==> parts[j] == []
    requires parts[|parts| - 1] == [] || exists j :: i <= j < |parts| - 1 && parts[j] == []
    ensures Joined(CarryParts(parts, i, part), |parts|) == Joined(parts, |parts|) + part
    decreases |parts| - i
  {
    if i < |parts| - 1 && parts[i] != [] {
      var parts' := parts[i := []];
      if parts[|parts| - 1] != [] {
        var j :| i <= j < |parts| - 1 && parts[j] == [];
        assert parts'[j] == [];
      }
      CarryJoins(parts', i + 1, parts[i] + part);
      JoinedUpdate(parts', i, parts[i], |parts|);
      assert parts'[i := parts[i]] == parts;
    } else {
      JoinedUpdate(parts, i, part, |parts|);
    }
  }

  lemma {:induction false} PartsJoin(le: Cmp, nbins: nat, list: seq<nat>)
    requires nbins > 0 && TotalPreorder(le) && |list| < Pow2(nbins)
    ensures Joined(Parts(nbins, list), nbins) == list
    decreases |list|
  {
    hide TotalPreorder;
    if list == [] {
      JoinedNothing(Parts(nbins, list), nbins);
    } else {
      var n := |list| - 1;
      var parts := Parts(nbins, list[..n]);
      PartsJoin(le, nbins, list[..n]);
      NoOverflow(le, nbins, list[..n]);
      SameSizes(le, nbins, list[..n]);
      CarryJoins(parts, 0, [list[n]]);
    }
  }

  lemma SameSizes(le: Cmp, nbins: nat, list: seq<nat>)
    requires nbins > 0 && TotalPreorder(le)
    ensures forall k :: 0 <= k < nbins ==> |Parts(nbins, list)[k]| == |Fill(le, nbins, list)[k]|
  {
    hide Parts, Fill;
    FillMatches(le, nbins, list);
    forall k | 0 <= k < nbins ensures |Parts(nbins, list)[k]| == |Fill(le, nbins, list)[k]| {
      assert TiesReversed(le, Parts(nbins, list)[k], Fill(le, nbins, list)[k]);
    }
  }

  // ---- Which part an element is in, from its position and the binary digits of the length.

  /** The bin, out of the lowest k, of the element at position i of n. */
  function BinOf(n: nat, k: nat, i: nat): (r: nat)
    requires i < n < Pow2(k)
    ensures r < k
    decreases k
  {
    var half := Pow2(k - 1);
    if n < half then BinOf(n, k - 1, i) else if i < half then k - 1 else BinOf(n - half, k - 1, i - half)
  }

  /** Its position there. */
  function OffsetOf(n: nat, k: nat, i: nat): nat
    requires i < n < Pow2(k)
    decreases k
  {
    var half := Pow2(k - 1);
    if n < half then OffsetOf(n, k - 1, i) else if i < half then i else OffsetOf(n - half, k - 1, i - half)
  }

  /** Larger bins hold earlier elements, and a bin holds its elements in order. */
  lemma {:induction false} BinsInOrder(n: nat, k: nat, i: nat, j: nat)
    requires i < j < n < Pow2(k)
    ensures BinOf(n, k, i) > BinOf(n, k, j) || (BinOf(n, k, i) == BinOf(n, k, j) && OffsetOf(n, k, i) < OffsetOf(n, k, j))
    decreases k
  {
    var half := Pow2(k - 1);
    if n < half {
      BinsInOrder(n, k - 1, i, j);
    } else if i >= half {
      BinsInOrder(n - half, k - 1, i - half, j - half);
    }
  }

  lemma {:induction false} InPart(parts: seq<seq<nat>>, k: nat, i: nat)
    requires k <= |parts| && Counter(parts) && i < |Joined(parts, k)| < Pow2(k)
    ensures var n := |Joined(parts, k)|; var b, o := BinOf(n, k, i), OffsetOf(n, k, i);
      o < |parts[b]| && parts[b][o] == Joined(parts, k)[i]
    decreases k
  {
    if k > 0 {
      JoinedBound(parts, k - 1);
      var rest, half := Joined(parts, k - 1), Pow2(k - 1);
      assert Joined(parts, k) == parts[k - 1] + rest;
      if parts[k - 1] == [] {
        assert Joined(parts, k) == rest;
        InPart(parts, k - 1, i);
      } else {
        assert |parts[k - 1]| == half;
        if i >= half {
          assert Joined(parts, k)[i] == rest[i - half];
          InPart(parts, k - 1, i - half);
        }
      }
    }
  }

  lemma {:induction false} JoinedBound(parts: seq<seq<nat>>, k: nat)
    requires k <= |parts| && Counter(parts)
    ensures |Joined(parts, k)| < Pow2(k)
    decreases k
  {
    if k > 0 {
      JoinedBound(parts, k - 1);
    }
  }

  // ---- Merging the bins.

  lemma {:induction false} CollapseKeepsOrder(le: Cmp, bins: seq<seq<nat>>, n: nat, k: nat, x: nat, y: nat)
    requires k < n <= |bins| && InOrder(bins[k], x, y)
    ensures InOrder(Collapse(le, bins, n), x, y)
    decreases n
  {
    hide InOrder, Merge;
    NothingInOrder(x, y);
    if k < n - 1 {
      CollapseKeepsOrder(le, bins, n - 1, k, x, y);
    }
    MergeKeepsOrder(le, bins[n - 1], Collapse(le, bins, n - 1), x, y);
  }

  lemma {:induction false} CollapseMembers(le: Cmp, bins: seq<seq<nat>>, n: nat, k: nat, x: nat)
    requires k < n <= |bins| && x in bins[k]
    ensures x in Collapse(le, bins, n)
    decreases n
  {
    hide Merge;
    MergeMembers(le, bins[n - 1], Collapse(le, bins, n - 1));
    if k < n - 1 {
      CollapseMembers(le, bins, n - 1, k, x);
    }
  }

  /** Elements of a larger bin come before equal ones of a smaller bin. */
  lemma {:induction false} CollapsePutsFirst(le: Cmp, bins: seq<seq<nat>>, n: nat, k: nat, l: nat, x: nat, y: nat)
    requires TotalPreorder(le) && AllSorted(le, bins) && l < k < n <= |bins| && x in bins[k] && y in bins[l] && le(x, y)
    ensures InOrder(Collapse(le, bins, n), x, y)
    decreases n
  {
    hide InOrder, Merge, TotalPreorder, Sorted;
    if k < n - 1 {
      CollapsePutsFirst(le, bins, n - 1, k, l, x, y);
      MergeKeepsOrder(le, bins[n - 1], Collapse(le, bins, n - 1), x, y);
    } else {
      CollapseMembers(le, bins, n - 1, l, y);
      MergePutsFirst(le, bins[n - 1], Collapse(le, bins, n - 1), x, y);
    }
  }

  // ---- The result.

  /** Do positions i and j of the list end in the same bin? */
  predicate SameBin(nbins: nat, n: nat, i: nat, j: nat)
    requires i < n < Pow2(nbins) && j < n
  {
    BinOf(n, nbins, i) == BinOf(n, nbins, j)
  }

  /** Elements that compare equal come out exchanged if they end in the same bin, and in their order otherwise. */
  lemma SortOrder(le: Cmp, nbins: nat, list: seq<nat>, i: nat, j: nat)
    requires nbins > 0 && TotalPreorder(le) && i < j < |list| < Pow2(nbins) && Tied(le, list[i], list[j])
    ensures SameBin(nbins, |list|, i, j) ==> InOrder(Sort(le, nbins, list), list[j], list[i])
    ensures !SameBin(nbins, |list|, i, j) ==> InOrder(Sort(le, nbins, list), list[i], list[j])
  {
    hide TotalPreorder, InOrder, Parts, Fill, Collapse, BinOf, OffsetOf, Joined, AllSorted, Counter;
    var n, parts, bins := |list|, Parts(nbins, list), Fill(le, nbins, list);
    PartsJoin(le, nbins, list);
    FillMatches(le, nbins, list);
    FillSorted(le, nbins, list);
    PartsCounter(le, nbins, list);
    InPart(parts, nbins, i);
    InPart(parts, nbins, j);
    BinsInOrder(n, nbins, i, j);
    var b, c := BinOf(n, nbins, i), BinOf(n, nbins, j);
    assert TiesReversed(le, parts[b], bins[b]) && TiesReversed(le, parts[c], bins[c]);
    if b == c {
      CollapseKeepsOrder(le, bins, nbins, b, list[j], list[i]);
    } else {
      CollapsePutsFirst(le, bins, nbins, b, c, list[i], list[j]);
    }
  }

  lemma PartsCounter(le: Cmp, nbins: nat, list: seq<nat>)
    requires nbins > 0 && TotalPreorder(le)
    ensures Counter(Parts(nbins, list))
  {
    hide Parts, Fill;
    FillCounts(le, nbins, list);
    SameSizes(le, nbins, list);
  }

  // ---- Stability.

  ghost predicate Stable(le: Cmp, list: seq<nat>, r: seq<nat>) {
    forall i, j :: 0 <= i < j < |list| && Tied(le, list[i], list[j]) ==> InOrder(r, list[i], list[j])
  }

  lemma {:induction false} CountOne(s: seq<nat>, x: nat)
    requires NoDuplicates(s)
    ensures multiset(s)[x] <= 1
  {
    if s != [] {
      var n := |s| - 1;
      CountOne(s[..n], x);
      assert s == s[..n] + [s[n]];
      assert s[n] !in s[..n];
    }
  }

  lemma CountTwo(s: seq<nat>, p: nat, q: nat)
    requires p < q < |s| && s[p] == s[q]
    ensures multiset(s)[s[p]] >= 2
  {
    assert s == s[..q] + s[q..];
    assert s[..q][p] == s[p] && s[q..][0] == s[p];
    assert s[p] in multiset(s[..q]) && s[p] in multiset(s[q..]);
  }

  lemma PermutationDistinct(s: seq<nat>, t: seq<nat>)
    requires NoDuplicates(s) && multiset(s) == multiset(t)
    ensures NoDuplicates(t)
  {
    forall p, q | 0 <= p < q < |t| ensures t[p] != t[q] {
      CountOne(s, t[p]);
      if t[p] == t[q] {
        CountTwo(t, p, q);
      }
    }
  }

  lemma OneOrder(s: seq<nat>, x: nat, y: nat)
    requires NoDuplicates(s) && InOrder(s, x, y)
    ensures !InOrder(s, y, x)
  {
  }

  /** Of two list nodes that compare equal, the earlier one comes first exactly if they end in different bins. */
  lemma OrderIff(le: Cmp, nbins: nat, list: seq<nat>, i: nat, j: nat)
    requires nbins > 0 && TotalPreorder(le) && NoDuplicates(list) && i < j < |list| < Pow2(nbins) && Tied(le, list[i], list[j])
    ensures InOrder(Sort(le, nbins, list), list[i], list[j]) <==> !SameBin(nbins, |list|, i, j)
  {
    hide TotalPreorder, InOrder, Sort, SameBin;
    SortOrder(le, nbins, list, i, j);
    SortCorrect(le, nbins, list);
    PermutationDistinct(list, Sort(le, nbins, list));
    if SameBin(nbins, |list|, i, j) {
      OneOrder(Sort(le, nbins, list), list[j], list[i]);
    }
  }

  /** The sort of a list is stable exactly if no two elements that compare equal end in the same bin. */
  lemma StableIff(le: Cmp, nbins: nat, list: seq<nat>)
    requires nbins > 0 && TotalPreorder(le) && NoDuplicates(list) && |list| < Pow2(nbins)
    ensures Stable(le, list, Sort(le, nbins, list)) <==>
      forall i, j :: 0 <= i < j < |list| && Tied(le, list[i], list[j]) ==> !SameBin(nbins, |list|, i, j)
  {
    hide TotalPreorder, InOrder, Sort, SameBin;
    forall i, j | 0 <= i < j < |list| && Tied(le, list[i], list[j])
      ensures InOrder(Sort(le, nbins, list), list[i], list[j]) <==> !SameBin(nbins, |list|, i, j)
    {
      OrderIff(le, nbins, list, i, j);
    }
  }
}
