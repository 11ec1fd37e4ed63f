/**
 * The list sort of the parser generator: a bottom-up merge sort that keeps sorted runs in a fixed
 * array of bins.  List elements are node numbers; `next[n]` is the successor of node n, or -1.
 */
module MergeSort {
  import opened Collections

  const LISTSIZE := 30

  /** `le(a, b)` stands for `cmp(a, b) <= 0`. */
  type Cmp = (nat, nat) -> bool

  // ---- Lists in memory.

  ghost predicate Disjoint(s: seq<nat>, t: seq<nat>) {
    forall x :: x in s ==> x !in t
  }

  function Head(s: seq<nat>): int {
    if s == [] then -1 else s[0]
  }

  /** The nodes `s` form a null-terminated list in memory `m`. */
  ghost predicate IsList(m: seq<int>, s: seq<nat>) {
    NoDuplicates(s) && Linked(m, s) && (s != [] ==> m[s[|s| - 1]] == -1)
  }

  /** Consecutive nodes are linked; the successor of the last one is left open. */
  ghost predicate Linked(m: seq<int>, s: seq<nat>) {
    && (forall k :: 0 <= k < |s| ==> s[k] < |m|)
    && (forall k {:trigger s[k]} :: 0 <= k < |s| - 1 ==> m[s[k]] == s[k + 1])
  }

  /** Memory changed at most at the nodes `touched`. */
  ghost predicate ChangedOnly(m: seq<int>, m': seq<int>, touched: seq<nat>) {
    |m'| == |m| && forall n: nat :: n < |m| && n !in touched ==> m'[n] == m[n]
  }

  lemma Untouched(m: seq<int>, m': seq<int>, s: seq<nat>, touched: seq<nat>)
    requires IsList(m, s) && Disjoint(s, touched) && ChangedOnly(m, m', touched)
    ensures IsList(m', s)
  {
    assert forall k :: 0 <= k < |s| ==> s[k] in s;
  }

  // ---- Specification.

  function Merge(le: Cmp, a: seq<nat>, b: seq<nat>): seq<nat>
    decreases |a| + |b|
  {
    if a == [] then b
    else if b == [] then a
    else if le(a[0], b[0]) then [a[0]] + Merge(le, a[1..], b)
    else [b[0]] + Merge(le, a, b[1..])
  }

  /** Puts run `ep` into the bins from bin i on, merging with every run in its way. */
  function Carry(le: Cmp, bins: seq<seq<nat>>, i: nat, ep: seq<nat>): (r: seq<seq<nat>>)
    requires i < |bins|
    ensures |r| == |bins|
    decreases |bins| - i
  {
    if i < |bins| - 1 && bins[i] != [] then Carry(le, bins[i := []], i + 1, Merge(le, ep, bins[i]))
    else bins[i := ep]
  }

  function Fill(le: Cmp, nbins: nat, list: seq<nat>): (r: seq<seq<nat>>)
    requires nbins > 0
    ensures |r| == nbins
  {
    if list == [] then seq(nbins, _ => [])
    else Carry(le, Fill(le, nbins, list[..|list| - 1]), 0, [list[|list| - 1]])
  }

  /** Merges the first n bins, small ones first. */
  function Collapse(le: Cmp, bins: seq<seq<nat>>, n: nat): seq<nat>
    requires n <= |bins|
  {
    if n == 0 then []
    else if bins[n - 1] == [] then Collapse(le, bins, n - 1)
    else Merge(le, bins[n - 1], Collapse(le, bins, n - 1))
  }

  function Sort(le: Cmp, nbins: nat, list: seq<nat>): seq<nat>
    requires nbins > 0
  {
    Collapse(le, Fill(le, nbins, list), nbins)
  }

  // ---- Merging keeps the elements and, for a total preorder, the order.

  ghost predicate TotalPreorder(le: Cmp) {
    && (forall x: nat, y: nat :: le(x, y) || le(y, x))
    && (forall x: nat, y: nat, z: nat :: le(x, y) && le(y, z) ==> le(x, z))
  }

  ghost predicate Sorted(le: Cmp, s: seq<nat>) {
    forall i, j :: 0 <= i < j < |s| ==> le(s[i], s[j])
  }

  /** A merge that took one more element, from the front of a. */
  lemma OneMore(merged: seq<nat>, rest: seq<nat>, a: seq<nat>, tail: seq<nat>, b: seq<nat>)
    requires a != [] && a == [a[0]] + tail && merged == [a[0]] + rest
    requires multiset(rest) == multiset(tail) + multiset(b)
    ensures multiset(merged) == multiset(a) + multiset(b)
  {
  }

  lemma {:induction false} MergeContents(le: Cmp, a: seq<nat>, b: seq<nat>)
    ensures multiset(Merge(le, a, b)) == multiset(a) + multiset(b)
    ensures |Merge(le, a, b)| == |a| + |b|
    decreases |a| + |b|
  {
    if a != [] && b != [] {
      if le(a[0], b[0]) {
        MergeContents(le, a[1..], b);
        OneMore(Merge(le, a, b), Merge(le, a[1..], b), a, a[1..], b);
      } else {
        MergeContents(le, a, b[1..]);
        OneMore(Merge(le, a, b), Merge(le, a, b[1..]), b, b[1..], a);
      }
    }
  }

  lemma MergeMembers(le: Cmp, a: seq<nat>, b: seq<nat>)
    ensures forall x :: x in Merge(le, a, b) <==> x in a || x in b
    ensures Merge(le, a, b) == [] <==> a == [] && b == []
  {
    MergeContents(le, a, b);
    forall x ensures x in Merge(le, a, b) <==> x in a || x in b {
      assert x in Merge(le, a, b) <==> x in multiset(Merge(le, a, b));
    }
  }

  lemma {:induction false} MergeSorted(le: Cmp, a: seq<nat>, b: seq<nat>)
    requires TotalPreorder(le) && Sorted(le, a) && Sorted(le, b)
    ensures Sorted(le, Merge(le, a, b))
    decreases |a| + |b|
  {
    if a != [] && b != [] {
      var (x, rest) := if le(a[0], b[0]) then (a[0], Merge(le, a[1..], b)) else (b[0], Merge(le, a, b[1..]));
      if le(a[0], b[0]) {
        MergeSorted(le, a[1..], b);
        MergeMembers(le, a[1..], b);
      } else {
        MergeSorted(le, a, b[1..]);
        MergeMembers(le, a, b[1..]);
      }
      assert le(x, a[0]) && le(x, b[0]);
      forall j | 0 <= j < |rest| ensures le(x, rest[j]) {
        assert rest[j] in rest;
      }
    }
  }

  lemma DistinctCons(x: nat, s: seq<nat>)
    requires NoDuplicates(s) && x !in s
    ensures NoDuplicates([x] + s)
  {
  }

  lemma {:induction false} MergeDistinct(le: Cmp, a: seq<nat>, b: seq<nat>)
    requires NoDuplicates(a) && NoDuplicates(b) && Disjoint(a, b)
    ensures NoDuplicates(Merge(le, a, b))
    decreases |a| + |b|
  {
    if a != [] && b != [] {
      if le(a[0], b[0]) {
        MergeDistinct(le, a[1..], b);
        MergeMembers(le, a[1..], b);
        DistinctCons(a[0], Merge(le, a[1..], b));
      } else {
        MergeDistinct(le, a, b[1..]);
        MergeMembers(le, a, b[1..]);
        DistinctCons(b[0], Merge(le, a, b[1..]));
      }
    }
  }

  // ---- The binary counter: bin i is empty or holds a sorted run of exactly 2^i elements.

  function Pow2(i: nat): (r: nat)
    ensures r > 0
  {
    if i == 0 then 1 else 2 * Pow2(i - 1)
  }

  ghost predicate Counter(bins: seq<seq<nat>>) {
    forall i :: 0 <= i < |bins| ==> |bins[i]| == 0 || |bins[i]| == Pow2(i)
  }

  ghost function Size(bins: seq<seq<nat>>, n: nat): nat
    requires n <= |bins|
  {
    if n == 0 then 0 else Size(bins, n - 1) + |bins[n - 1]|
  }

  ghost function Contents(bins: seq<seq<nat>>, n: nat): multiset<nat>
    requires n <= |bins|
  {
    if n == 0 then multiset{} else Contents(bins, n - 1) + multiset(bins[n - 1])
  }

  lemma {:induction false} SizeUpdate(bins: seq<seq<nat>>, i: nat, run: seq<nat>, n: nat)
    requires i < |bins| && n <= |bins|
    ensures Size(bins[i := run], n) == Size(bins, n) + if i < n then |run| - |bins[i]| else 0
    decreases n
  {
    if n > 0 {
      SizeUpdate(bins, i, run, n - 1);
    }
  }

  lemma {:induction false} ContentsUpdate(bins: seq<seq<nat>>, i: nat, run: seq<nat>, n: nat)
    requires i < |bins| && n <= |bins|
    ensures i >= n ==> Contents(bins[i := run], n) == Contents(bins, n)
    ensures i < n ==> Contents(bins[i := run], n) + multiset(bins[i]) == Contents(bins, n) + multiset(run)
    decreases n
  {
    if n > 0 {
      ContentsUpdate(bins, i, run, n - 1);
      var bins' := bins[i := run];
      if i < n - 1 {
        Swapped(Contents(bins', n - 1), multiset(bins[n - 1]), multiset(bins[i]));
        Swapped(Contents(bins, n - 1), multiset(bins[n - 1]), multiset(run));
      } else if i == n - 1 {
        Swapped(Contents(bins, n - 1), multiset(bins[i]), multiset(run));
      }
    }
  }

  lemma Swapped(a: multiset<nat>, b: multiset<nat>, c: multiset<nat>)
    ensures a + b + c == a + c + b
  {
  }

  lemma {:induction false} SizeBound(bins: seq<seq<nat>>, n: nat)
    requires n <= |bins| && Counter(bins)
    ensures Size(bins, n) < Pow2(n)
    ensures Size(bins, n) == Pow2(n) - 1 <==> forall i :: 0 <= i < n ==> bins[i] != []
    decreases n
  {
    if n > 0 {
      SizeBound(bins, n - 1);
    }
  }

  /** Adding a run of 2^i elements counts up by 2^i; on overflow the last bin is overwritten. */
  lemma {:induction false} CarryCounts(le: Cmp, bins: seq<seq<nat>>, i: nat, ep: seq<nat>)
    requires i < |bins| && Counter(bins) && |ep| == Pow2(i)
    requires forall j :: 0 <= j < i ==> bins[j] == []
    ensures var r := Carry(le, bins, i, ep); var top := |bins| - 1;
      && Counter(r)
      && (if Size(bins, top) + Pow2(i) == Pow2(top)
          then Size(r, top) == 0 && |r[top]| == Pow2(top)
          else Size(r, top) == Size(bins, top) + Pow2(i) && r[top] == bins[top])
    decreases |bins| - i
  {
    hide Merge;
    var top := |bins| - 1;
    if i < top && bins[i] != [] {
      MergeContents(le, ep, bins[i]);
      SizeUpdate(bins, i, [], top);
      CarryCounts(le, bins[i := []], i + 1, Merge(le, ep, bins[i]));
    } else if i < top {
      SizeUpdate(bins, i, ep, top);
      EmptyBelow(bins, i, top);
    } else {
      EmptyPrefix(bins, i);
      SizeUpdate(bins, i, ep, top);
    }
  }

  /** Nothing is lost unless the lower bins overflow into an occupied last bin. */
  lemma {:induction false} CarryContents(le: Cmp, bins: seq<seq<nat>>, i: nat, ep: seq<nat>)
    requires i < |bins|
    requires bins[|bins| - 1] == [] || exists j :: i <= j < |bins| - 1 && bins[j] == []
    ensures Contents(Carry(le, bins, i, ep), |bins|) == Contents(bins, |bins|) + multiset(ep)
    decreases |bins| - i
  {
    hide Merge;
    if i < |bins| - 1 && bins[i] != [] {
      var bins', ep' := bins[i := []], Merge(le, ep, bins[i]);
      MergeContents(le, ep, bins[i]);
      ContentsUpdate(bins, i, [], |bins|);
      if bins[|bins| - 1] != [] {
        var j :| i <= j < |bins| - 1 && bins[j] == [];
        assert bins'[j] == [];
      }
      CarryContents(le, bins', i + 1, ep');
      var c' := Contents(bins', |bins|);
      assert c' + (multiset(ep) + multiset(bins[i])) == (c' + multiset(bins[i])) + multiset(ep);
    } else {
      ContentsUpdate(bins, i, ep, |bins|);
    }
  }

  lemma {:induction false} EmptyPrefix(bins: seq<seq<nat>>, i: nat)
    requires i <= |bins| && forall j :: 0 <= j < i ==> bins[j] == []
    ensures Size(bins, i) == 0
    decreases i
  {
    if i > 0 {
      EmptyPrefix(bins, i - 1);
    }
  }

  /** With bin i free, a run of 2^i elements cannot overflow the bins below n. */
  lemma {:induction false} EmptyBelow(bins: seq<seq<nat>>, i: nat, n: nat)
    requires i < n <= |bins| && Counter(bins) && forall j :: 0 <= j <= i ==> bins[j] == []
    ensures Size(bins, n) + Pow2(i) < Pow2(n)
    decreases n
  {
    if n == i + 1 {
      EmptyPrefix(bins, n);
    } else {
      EmptyBelow(bins, i, n - 1);
    }
  }

  /** After n insertions the lower bins count n modulo 2^(nbins-1); the last one is in use from there on. */
  lemma {:induction false} FillCounts(le: Cmp, nbins: nat, list: seq<nat>)
    requires nbins > 0
    ensures var r := Fill(le, nbins, list); var half := Pow2(nbins - 1);
      && Counter(r)
      && Size(r, nbins - 1) == Rem(|list|, half)
      && |r[nbins - 1]| == (if |list| < half then 0 else half)
    decreases |list|
  {
    hide Rem;
    var half := Pow2(nbins - 1);
    if list == [] {
      RemZero(half);
      EmptyPrefix(Fill(le, nbins, list), nbins - 1);
    } else {
      var n := |list| - 1;
      var bins := Fill(le, nbins, list[..n]);
      FillCounts(le, nbins, list[..n]);
      assert Pow2(0) == 1;
      CarryCounts(le, bins, 0, [list[n]]);
      NextMod(n, half);
    }
  }

  /** Below 2^nbins elements the last bin is never overwritten. */
  lemma {:induction false} FillContents(le: Cmp, nbins: nat, list: seq<nat>)
    requires nbins > 0 && |list| < Pow2(nbins)
    ensures Contents(Fill(le, nbins, list), nbins) == multiset(list)
    decreases |list|
  {
    if list == [] {
      EmptyContents(Fill(le, nbins, list), nbins);
    } else {
      var n := |list| - 1;
      var bins := Fill(le, nbins, list[..n]);
      FillContents(le, nbins, list[..n]);
      NoOverflow(le, nbins, list[..n]);
      CarryContents(le, bins, 0, [list[n]]);
      assert list == list[..n] + [list[n]];
    }
  }

  /** Another element finds the last bin empty, or an empty bin before it. */
  lemma NoOverflow(le: Cmp, nbins: nat, list: seq<nat>)
    requires nbins > 0 && |list| + 1 < Pow2(nbins)
    ensures var bins := Fill(le, nbins, list); bins[nbins - 1] == [] || exists j :: 0 <= j < nbins - 1 && bins[j] == []
  {
    var bins := Fill(le, nbins, list);
    FillCounts(le, nbins, list);
    if bins[nbins - 1] != [] {
      ModOfRange(|list|, Pow2(nbins - 1));
      SizeBound(bins, nbins - 1);
    }
  }

  lemma {:induction false} EmptyContents(bins: seq<seq<nat>>, n: nat)
    requires n <= |bins| && forall j :: 0 <= j < n ==> bins[j] == []
    ensures Contents(bins, n) == multiset{}
    decreases n
  {
    if n > 0 {
      EmptyContents(bins, n - 1);
    }
  }

  function Rem(n: nat, m: nat): (r: nat)
    requires m > 0
    ensures r < m
  {
    n % m
  }

  lemma RemZero(m: nat)
    requires m > 0
    ensures Rem(0, m) == 0
  {
  }

  lemma NextMod(n: nat, m: nat)
    requires m > 0
    ensures Rem(n + 1, m) == if Rem(n, m) + 1 == m then 0 else Rem(n, m) + 1
    ensures n < m ==> Rem(n, m) == n
  {
    var q, r := n / m, n % m;
    if n < m {
      ModUnique(n, m, 0, n);
    }
    if r + 1 == m {
      assert m * (q + 1) == m * q + m;
      ModUnique(n + 1, m, q + 1, 0);
    } else {
      ModUnique(n + 1, m, q, r + 1);
    }
  }

  lemma ModOfRange(n: nat, m: nat)
    requires m > 0 && m <= n < 2 * m
    ensures Rem(n, m) == n - m
  {
    ModUnique(n, m, 1, n - m);
  }

  lemma ModUnique(n: nat, m: nat, q: nat, r: nat)
    requires m > 0 && n == m * q + r && r < m
    ensures n % m == r
  {
    var q', r' := n / m, n % m;
    assert n == m * q' + r';
    if q > q' {
      MulApart(m, q', q);
    } else if q < q' {
      MulApart(m, q, q');
    }
  }

  lemma MulApart(m: nat, x: nat, y: nat)
    requires x < y
    ensures m * x + m <= m * y
  {
    assert m * y == m * x + m * (y - x);
    assert m * (y - x) == m + m * (y - x - 1);
  }

  lemma {:induction false} CollapseContents(le: Cmp, bins: seq<seq<nat>>, n: nat)
    requires n <= |bins|
    ensures multiset(Collapse(le, bins, n)) == Contents(bins, n)
    ensures |Collapse(le, bins, n)| == Size(bins, n)
    decreases n
  {
    hide Merge;
    if n > 0 {
      CollapseContents(le, bins, n - 1);
      MergeContents(le, bins[n - 1], Collapse(le, bins, n - 1));
    }
  }

  ghost predicate AllSorted(le: Cmp, bins: seq<seq<nat>>) {
    forall i :: 0 <= i < |bins| ==> Sorted(le, bins[i])
  }

  lemma {:induction false} CarrySorted(le: Cmp, bins: seq<seq<nat>>, i: nat, ep: seq<nat>)
    requires i < |bins| && TotalPreorder(le) && AllSorted(le, bins) && Sorted(le, ep)
    ensures AllSorted(le, Carry(le, bins, i, ep))
    decreases |bins| - i
  {
    if i < |bins| - 1 && bins[i] != [] {
      MergeSorted(le, ep, bins[i]);
      CarrySorted(le, bins[i := []], i + 1, Merge(le, ep, bins[i]));
    }
  }

  lemma {:induction false} FillSorted(le: Cmp, nbins: nat, list: seq<nat>)
    requires nbins > 0 && TotalPreorder(le)
    ensures AllSorted(le, Fill(le, nbins, list))
    decreases |list|
  {
    if list != [] {
      var n := |list| - 1;
      FillSorted(le, nbins, list[..n]);
      CarrySorted(le, Fill(le, nbins, list[..n]), 0, [list[n]]);
    }
  }

  lemma {:induction false} CollapseSorted(le: Cmp, bins: seq<seq<nat>>, n: nat)
    requires n <= |bins| && TotalPreorder(le) && AllSorted(le, bins)
    ensures Sorted(le, Collapse(le, bins, n))
    decreases n
  {
    if n > 0 {
      CollapseSorted(le, bins, n - 1);
      MergeSorted(le, bins[n - 1], Collapse(le, bins, n - 1));
    }
  }

  /**
   * The sort is correct exactly for lists shorter than 2^nbins: a longer list loses the run in the
   * last bin every time the lower bins overflow.
   */
  lemma SortCorrect(le: Cmp, nbins: nat, list: seq<nat>)
    requires nbins > 0
    ensures TotalPreorder(le) ==> Sorted(le, Sort(le, nbins, list))
    ensures multiset(Sort(le, nbins, list)) == multiset(list) <==> |list| < Pow2(nbins)
    ensures var half := Pow2(nbins - 1);
      |list| >= half ==> |Sort(le, nbins, list)| == half + Rem(|list|, half)
  {
    var bins, half := Fill(le, nbins, list), Pow2(nbins - 1);
    FillCounts(le, nbins, list);
    CollapseContents(le, bins, nbins);
    if |list| < Pow2(nbins) {
      FillContents(le, nbins, list);
    }
    if TotalPreorder(le) {
      FillSorted(le, nbins, list);
      CollapseSorted(le, bins, nbins);
    }
    if |list| >= 2 * half {
      assert |Sort(le, nbins, list)| < |list|;
      assert |multiset(Sort(le, nbins, list))| < |multiset(list)|;
    }
  }

  /** The sort is not stable: two elements that compare equal come out exchanged. */
  lemma NotStable(le: Cmp, nbins: nat, x: nat, y: nat)
    requires nbins > 1 && le(x, y) && le(y, x)
    ensures Sort(le, nbins, [x, y]) == [y, x]
  {
    var b0 := Fill(le, nbins, []);
    assert [x][..0] == [] && [x, y][..1] == [x];
    var b1 := b0[0 := [x]];
    assert Fill(le, nbins, [x]) == b1;
    assert Merge(le, [y], [x]) == [y, x] by {
      assert [y][1..] == [];
      assert Merge(le, [], [x]) == [x];
    }
    var b2 := b1[0 := []][1 := [y, x]];
    assert Carry(le, b1[0 := []], 1, [y, x]) == b2;
    assert Fill(le, nbins, [x, y]) == b2;
    assert Collapse(le, b2, 1) == [] by { assert Collapse(le, b2, 0) == []; }
    CollapseOnly(le, b2, nbins);
  }

  lemma {:induction false} CollapseOnly(le: Cmp, bins: seq<seq<nat>>, n: nat)
    requires 2 <= n <= |bins| && bins[0] == [] && bins[1] != [] && forall i :: 2 <= i < |bins| ==> bins[i] == []
    ensures Collapse(le, bins, n) == bins[1]
    decreases n
  {
    if n > 2 {
      CollapseOnly(le, bins, n - 1);
    } else {
      assert Collapse(le, bins, 0) == [] && Collapse(le, bins, 1) == [];
    }
  }

  // ---- Splicing two lists, half way: `done` is linked, `ra` and `rb` are still to be merged.

  ghost predicate Splicing(le: Cmp, m0: seq<int>, m: seq<int>, sa: seq<nat>, sb: seq<nat>,
                           done: seq<nat>, ra: seq<nat>, rb: seq<nat>) {
    && done != [] && Linked(m, done)
    && IsList(m, ra) && IsList(m, rb)
    && NoDuplicates(done + Merge(le, ra, rb))
    && done + Merge(le, ra, rb) == Merge(le, sa, sb)
    && ChangedOnly(m0, m, sa + sb)
  }

  lemma Apart(le: Cmp, done: seq<nat>, ra: seq<nat>, rb: seq<nat>)
    requires NoDuplicates(done + Merge(le, ra, rb))
    ensures NoDuplicates(done) && Disjoint(done, ra) && Disjoint(done, rb)
  {
    var s, r := done + Merge(le, ra, rb), Merge(le, ra, rb);
    MergeMembers(le, ra, rb);
    assert forall i :: 0 <= i < |done| ==> s[i] == done[i];
    forall x | x in done ensures x !in r {
      var i :| 0 <= i < |done| && done[i] == x;
      forall j | 0 <= j < |r| ensures r[j] != x {
        assert s[|done| + j] == r[j] && s[i] == x;
      }
    }
  }

  /** Relinking the end of `done` to the first node of list `r` moves that node over. */
  lemma Move(m: seq<int>, m': seq<int>, done: seq<nat>, r: seq<nat>)
    requires done != [] && r != [] && Linked(m, done) && IsList(m, r)
    requires NoDuplicates(done) && Disjoint(done, r)
    requires m' == m[done[|done| - 1] := r[0]]
    ensures Linked(m', done + [r[0]]) && IsList(m', r[1..])
    ensures m'[r[0]] == Head(r[1..])
  {
    var last := done[|done| - 1];
    assert last in done;
    assert forall k :: 0 <= k < |r| ==> r[k] in r && r[k] != last;
    assert forall k :: 0 <= k < |done| - 1 ==> done[k] != last;
    assert |r| > 1 ==> m[r[0]] == r[1];
  }

  lemma SpliceFacts(le: Cmp, m0: seq<int>, m: seq<int>, sa: seq<nat>, sb: seq<nat>,
                    done: seq<nat>, ra: seq<nat>, rb: seq<nat>)
    requires Splicing(le, m0, m, sa, sb, done, ra, rb)
    ensures done != [] && done[|done| - 1] < |m|
    ensures ra != [] ==> ra[0] < |m|
    ensures rb != [] ==> rb[0] < |m|
  {
  }

  lemma SpliceStart(le: Cmp, m: seq<int>, sa: seq<nat>, sb: seq<nat>)
    requires IsList(m, sa) && IsList(m, sb) && Disjoint(sa, sb) && sa != [] && sb != []
    ensures le(sa[0], sb[0]) ==> Splicing(le, m, m, sa, sb, [sa[0]], sa[1..], sb)
    ensures !le(sa[0], sb[0]) ==> Splicing(le, m, m, sa, sb, [sb[0]], sa, sb[1..])
    ensures sa[0] < |m| && sb[0] < |m| && m[sa[0]] == Head(sa[1..]) && m[sb[0]] == Head(sb[1..])
  {
    MergeDistinct(le, sa, sb);
    TailList(m, sa);
    TailList(m, sb);
    OneLinked(m, sa[0]);
    OneLinked(m, sb[0]);
    hide NoDuplicates, Linked, IsList, Disjoint;
  }

  lemma TailList(m: seq<int>, s: seq<nat>)
    requires IsList(m, s) && s != []
    ensures s[0] < |m| && IsList(m, s[1..]) && m[s[0]] == Head(s[1..])
  {
    assert |s| > 1 ==> m[s[0]] == s[1];
  }

  lemma OneLinked(m: seq<int>, x: nat)
    requires x < |m|
    ensures Linked(m, [x])
  {
  }

  lemma SpliceStep(le: Cmp, m0: seq<int>, m: seq<int>, m': seq<int>, sa: seq<nat>, sb: seq<nat>,
                   done: seq<nat>, ra: seq<nat>, rb: seq<nat>)
    requires Splicing(le, m0, m, sa, sb, done, ra, rb) && ra != [] && rb != []
    requires m' == m[done[|done| - 1] := if le(ra[0], rb[0]) then ra[0] else rb[0]]
    ensures le(ra[0], rb[0]) ==> Splicing(le, m0, m', sa, sb, done + [ra[0]], ra[1..], rb) && m'[ra[0]] == Head(ra[1..])
    ensures !le(ra[0], rb[0]) ==> Splicing(le, m0, m', sa, sb, done + [rb[0]], ra, rb[1..]) && m'[rb[0]] == Head(rb[1..])
  {
    hide Merge;
    var last := done[|done| - 1];
    Apart(le, done, ra, rb);
    SpliceChanges(le, m0, m, m', sa, sb, done, Merge(le, ra, rb), last, m'[last]);
    assert last in done;
    if le(ra[0], rb[0]) {
      Move(m, m', done, ra);
      Untouched(m, m', rb, [last]);
      MergeUnfold(le, ra, rb);
      assert done + ([ra[0]] + Merge(le, ra[1..], rb)) == (done + [ra[0]]) + Merge(le, ra[1..], rb);
    } else {
      Move(m, m', done, rb);
      Untouched(m, m', ra, [last]);
      MergeUnfold(le, ra, rb);
      assert done + ([rb[0]] + Merge(le, ra, rb[1..])) == (done + [rb[0]]) + Merge(le, ra, rb[1..]);
    }
  }

  lemma MergeUnfold(le: Cmp, a: seq<nat>, b: seq<nat>)
    ensures a == [] ==> Merge(le, a, b) == b
    ensures b == [] ==> Merge(le, a, b) == a
    ensures a != [] && b != [] && le(a[0], b[0]) ==> Merge(le, a, b) == [a[0]] + Merge(le, a[1..], b)
    ensures a != [] && b != [] && !le(a[0], b[0]) ==> Merge(le, a, b) == [b[0]] + Merge(le, a, b[1..])
  {
  }

  lemma SpliceChanges(le: Cmp, m0: seq<int>, m: seq<int>, m': seq<int>, sa: seq<nat>, sb: seq<nat>,
                      done: seq<nat>, r: seq<nat>, last: nat, v: int)
    requires ChangedOnly(m0, m, sa + sb) && done + r == Merge(le, sa, sb) && last in done && last < |m|
    requires m' == m[last := v]
    ensures ChangedOnly(m0, m', sa + sb) && ChangedOnly(m, m', [last])
  {
    MergeMembers(le, sa, sb);
    assert last in done + r;
  }

  lemma SpliceEnd(le: Cmp, m0: seq<int>, m: seq<int>, m': seq<int>, sa: seq<nat>, sb: seq<nat>,
                  done: seq<nat>, ra: seq<nat>, rb: seq<nat>, rest: seq<nat>)
    requires Splicing(le, m0, m, sa, sb, done, ra, rb)
    requires (ra == [] && rest == rb) || (rb == [] && rest == ra)
    requires m' == m[done[|done| - 1] := Head(rest)]
    ensures IsList(m', Merge(le, sa, sb)) && Merge(le, sa, sb) != [] && Merge(le, sa, sb)[0] == done[0]
    ensures ChangedOnly(m0, m', sa + sb)
  {
    hide Merge, ChangedOnly;
    var last := done[|done| - 1];
    Apart(le, done, ra, rb);
    MergeUnfold(le, ra, rb);
    assert last in done;
    SpliceChanges(le, m0, m, m', sa, sb, done, rest, last, Head(rest));
    Join(m, m', done, rest);
  }

  /** Linking the end of `done` to list `rest` makes one list of them. */
  lemma Join(m: seq<int>, m': seq<int>, done: seq<nat>, rest: seq<nat>)
    requires done != [] && Linked(m, done) && IsList(m, rest) && NoDuplicates(done + rest) && Disjoint(done, rest)
    requires m' == m[done[|done| - 1] := Head(rest)]
    ensures IsList(m', done + rest)
  {
    var last, s := done[|done| - 1], done + rest;
    assert last in done && s[|done| - 1] == last;
    assert ChangedOnly(m, m', [last]);
    Untouched(m, m', rest, [last]);
    forall k {:trigger s[k]} | 0 <= k < |s| - 1 ensures m'[s[k]] == s[k + 1] {
      if k >= |done| {
        assert s[k] == rest[k - |done|] && s[k + 1] == rest[k + 1 - |done|];
      } else if k < |done| - 1 {
        assert s[k] == done[k] && m[done[k]] == done[k + 1];
      }
    }
  }

  // ---- The bins in memory.

  ghost predicate Apartness(bins: seq<seq<nat>>) {
    forall i, j :: 0 <= i < |bins| && 0 <= j < |bins| && i != j ==> Disjoint(bins[i], bins[j])
  }

  /** The heads store the bins, and the nodes of different bins and of `others` are apart. */
  ghost predicate Stored(m: seq<int>, heads: seq<int>, bins: seq<seq<nat>>, others: seq<nat>) {
    && |heads| == |bins|
    && (forall i :: 0 <= i < |bins| ==> heads[i] == Head(bins[i]) && IsList(m, bins[i]) && Disjoint(bins[i], others))
    && Apartness(bins)
  }

  lemma StoredMerge(le: Cmp, m: seq<int>, m': seq<int>, heads: seq<int>, bins: seq<seq<nat>>, i: nat,
                    run: seq<nat>, rest: seq<nat>)
    requires i < |bins| && Stored(m, heads, bins, run + rest) && Disjoint(run, rest)
    requires ChangedOnly(m, m', run + bins[i])
    ensures Stored(m', heads[i := -1], bins[i := []], Merge(le, run, bins[i]) + rest)
    ensures Disjoint(Merge(le, run, bins[i]), rest)
  {
    MergeMembers(le, run, bins[i]);
    forall j | 0 <= j < |bins| && j != i
      ensures IsList(m', bins[j]) && Disjoint(bins[j], Merge(le, run, bins[i]) + rest)
    {
      assert Disjoint(bins[j], run + rest) && Disjoint(bins[j], bins[i]);
      forall x | x in bins[j] ensures x !in run + bins[i] && x !in Merge(le, run, bins[i]) + rest {
        assert x !in run + rest;
      }
      Untouched(m, m', bins[j], run + bins[i]);
    }
    assert forall x :: x in rest ==> x in run + rest;
  }

  lemma StoredPut(m: seq<int>, heads: seq<int>, bins: seq<seq<nat>>, i: nat, run: seq<nat>, rest: seq<nat>)
    requires i < |bins| && Stored(m, heads, bins, run + rest) && Disjoint(run, rest) && IsList(m, run)
    ensures Stored(m, heads[i := Head(run)], bins[i := run], rest)
  {
    assert forall x :: x in rest ==> x in run + rest;
    assert forall x :: x in run ==> x in run + rest;
    assert forall j :: 0 <= j < |bins| ==> Disjoint(bins[j], run) && Disjoint(bins[j], rest);
  }

  /** Collapsing so far: bins from i on are in memory, and apart from what bins below i were merged to. */
  ghost predicate Collapsing(le: Cmp, m: seq<int>, heads: seq<int>, bins: seq<seq<nat>>, i: nat)
    requires i <= |bins|
  {
    var tail := Collapse(le, bins, i);
    && |heads| == |bins| && Apartness(bins) && IsList(m, tail)
    && (forall j :: i <= j < |bins| ==> heads[j] == Head(bins[j]) && IsList(m, bins[j]) && Disjoint(bins[j], tail))
  }

  lemma CollapseStep(le: Cmp, m: seq<int>, m': seq<int>, heads: seq<int>, bins: seq<seq<nat>>, i: nat)
    requires i < |bins| && Collapsing(le, m, heads, bins, i)
    requires bins[i] == [] ==> m' == m
    requires bins[i] != [] ==>
      var tail := Collapse(le, bins, i);
      ChangedOnly(m, m', bins[i] + tail) && IsList(m', Merge(le, bins[i], tail))
    ensures Collapsing(le, m', heads, bins, i + 1)
  {
    if bins[i] != [] {
      var tail := Collapse(le, bins, i);
      MergeMembers(le, bins[i], tail);
      forall j | i < j < |bins| ensures IsList(m', bins[j]) && Disjoint(bins[j], Merge(le, bins[i], tail)) {
        assert Disjoint(bins[j], bins[i]) && Disjoint(bins[j], tail);
        Untouched(m, m', bins[j], bins[i] + tail);
      }
    }
  }

  // ---- The code.

  /** Splices two lists into one by relinking their nodes. */
  method MergeLists(le: Cmp, next: array<int>, a0: int, b0: int, ghost sa: seq<nat>, ghost sb: seq<nat>) returns (head: int)
    requires IsList(next[..], sa) && IsList(next[..], sb) && Disjoint(sa, sb)
    requires a0 == Head(sa) && b0 == Head(sb)
    modifies next
    ensures IsList(next[..], Merge(le, sa, sb)) && head == Head(Merge(le, sa, sb))
    ensures ChangedOnly(old(next[..]), next[..], sa + sb)
  {
    if a0 == -1 {
      head := b0;
    } else if b0 == -1 {
      head := a0;
    } else {
      head := Splice(le, next, a0, b0, sa, sb);
    }
  }

  method Splice(le: Cmp, next: array<int>, a0: nat, b0: nat, ghost sa: seq<nat>, ghost sb: seq<nat>) returns (head: int)
    requires IsList(next[..], sa) && IsList(next[..], sb) && Disjoint(sa, sb)
    requires sa != [] && sb != [] && a0 == sa[0] && b0 == sb[0]
    modifies next
    ensures IsList(next[..], Merge(le, sa, sb)) && head == Head(Merge(le, sa, sb))
    ensures ChangedOnly(old(next[..]), next[..], sa + sb)
  {
    hide Merge, ChangedOnly, Disjoint, Splicing, IsList;
    var a: int, b: int, ptr: nat := a0, b0, 0;
    ghost var ra, rb, m0 := sa, sb, next[..];
    SpliceStart(le, m0, sa, sb);
    if le(a, b) {
      ptr := a;
      ra := sa[1..];
      a := next[a];
    } else {
      ptr := b;
      rb := sb[1..];
      b := next[b];
    }
    head := ptr;
    ghost var done: seq<nat> := [ptr];
    while a != -1 && b != -1
      invariant a == Head(ra) && b == Head(rb)
      invariant done != [] && head == done[0] && ptr == done[|done| - 1]
      invariant Splicing(le, m0, next[..], sa, sb, done, ra, rb)
      decreases |ra| + |rb|
    {
      ghost var m := next[..];
      SpliceFacts(le, m0, m, sa, sb, done, ra, rb);
      if le(a, b) {
        next[ptr] := a;
        SpliceStep(le, m0, m, next[..], sa, sb, done, ra, rb);
        ptr := a;
        a := next[a];
        done, ra := done + [ptr], ra[1..];
      } else {
        next[ptr] := b;
        SpliceStep(le, m0, m, next[..], sa, sb, done, ra, rb);
        ptr := b;
        b := next[b];
        done, rb := done + [ptr], rb[1..];
      }
    }
    ghost var m := next[..];
    SpliceFacts(le, m0, m, sa, sb, done, ra, rb);
    next[ptr] := if a != -1 then a else b;
    SpliceEnd(le, m0, m, next[..], sa, sb, done, ra, rb, if a != -1 then ra else rb);
  }

  /** One list node goes into the bins. */
  method InsertRun(le: Cmp, next: array<int>, heads: array<int>, x: nat, ghost bins: seq<seq<nat>>, ghost rest: seq<nat>)
    requires next != heads && |bins| > 0
    requires Stored(next[..], heads[..], bins, [x] + rest) && x !in rest
    requires IsList(next[..], [x]) && IsList(next[..], rest)
    modifies next, heads
    ensures Stored(next[..], heads[..], Carry(le, bins, 0, [x]), rest) && IsList(next[..], rest)
  {
    hide IsList, Apartness, Merge;
    var ep: int, i := x, 0;
    ghost var run, now := [x], bins;
    while i < heads.Length - 1 && heads[i] != -1
      invariant 0 <= i < |now| == |bins| == heads.Length
      invariant Stored(next[..], heads[..], now, run + rest) && Disjoint(run, rest) && IsList(next[..], run)
      invariant ep == Head(run)
      invariant Carry(le, now, i, run) == Carry(le, bins, 0, [x])
      invariant IsList(next[..], rest)
    {
      ghost var m, hs, other := next[..], heads[..], now[i];
      assert hs[i] == Head(other);
      ApartFromRun(now, i, run, rest);
      ep := MergeLists(le, next, ep, heads[i], run, other);
      Untouched(m, next[..], rest, run + other);
      StoredMerge(le, m, next[..], hs, now, i, run, rest);
      heads[i] := -1;
      assert heads[..] == hs[i := -1];
      run, now := Merge(le, run, other), now[i := []];
      i := i + 1;
    }
    ghost var hs := heads[..];
    heads[i] := ep;
    assert heads[..] == hs[i := ep];
    StoredPut(next[..], hs, now, i, run, rest);
  }

  lemma ApartFromRun(bins: seq<seq<nat>>, i: nat, run: seq<nat>, rest: seq<nat>)
    requires i < |bins| && Disjoint(bins[i], run + rest)
    ensures Disjoint(run, bins[i]) && Disjoint(rest, bins[i])
  {
    assert forall x :: x in rest ==> x in run + rest;
    assert forall x :: x in run ==> x in run + rest;
  }

  /** The list is sorted for lists of any length; SortCorrect tells when it is a permutation. */
  method Msort(le: Cmp, next: array<int>, head: int, ghost s: seq<nat>) returns (sorted: int)
    requires IsList(next[..], s) && head == Head(s)
    modifies next
    ensures IsList(next[..], Sort(le, LISTSIZE, s)) && sorted == Head(Sort(le, LISTSIZE, s))
    ensures TotalPreorder(le) ==> Sorted(le, Sort(le, LISTSIZE, s))
    ensures multiset(Sort(le, LISTSIZE, s)) == multiset(s) <==> |s| < 0x4000_0000
  {
    hide IsList, Merge, Sorted, TotalPreorder, Pow2, Fill;
    var heads := new int[LISTSIZE](_ => -1);
    FillAll(le, next, heads, head, s);
    ghost var bins := Fill(le, LISTSIZE, s);
    sorted := -1;
    for i := 0 to LISTSIZE
      invariant Collapsing(le, next[..], heads[..], bins, i)
      invariant sorted == Head(Collapse(le, bins, i))
    {
      ghost var m, tail := next[..], Collapse(le, bins, i);
      if heads[i] != -1 {
        sorted := MergeLists(le, next, heads[i], sorted, bins[i], tail);
      }
      CollapseStep(le, m, next[..], heads[..], bins, i);
    }
    SortCorrect(le, LISTSIZE, s);
    ThirtyBins();
  }

  lemma ThirtyBins()
    ensures Pow2(LISTSIZE) == 0x4000_0000
  {
    TenMore(0);
    TenMore(10);
    TenMore(20);
  }

  lemma TenMore(k: nat)
    ensures Pow2(k + 10) == 1024 * Pow2(k)
  {
    assert Pow2(k + 2) == 4 * Pow2(k) && Pow2(k + 4) == 4 * Pow2(k + 2) && Pow2(k + 6) == 4 * Pow2(k + 4);
    assert Pow2(k + 8) == 4 * Pow2(k + 6) && Pow2(k + 10) == 4 * Pow2(k + 8);
  }

  /** The first loop: takes the list apart and puts its nodes into the bins. */
  method FillAll(le: Cmp, next: array<int>, heads: array<int>, head: int, ghost s: seq<nat>)
    requires IsList(next[..], s) && head == Head(s) && heads.Length > 0 && next != heads
    requires forall i :: 0 <= i < heads.Length ==> heads[i] == -1
    modifies next, heads
    ensures Collapsing(le, next[..], heads[..], Fill(le, heads.Length, s), 0)
  {
    var list := head;
    ghost var k, bins := 0, Fill(le, heads.Length, []);
    assert s[0..] == s && s[..0] == [];
    StoredEmpty(next[..], heads[..], bins, s);
    hide IsList, Stored, Collapsing, Carry, Fill;
    while list != -1
      invariant 0 <= k <= |s| && list == Head(s[k..]) && IsList(next[..], s[k..])
      invariant |bins| == heads.Length && bins == Fill(le, heads.Length, s[..k])
      invariant Stored(next[..], heads[..], bins, s[k..])
      decreases |s| - k
    {
      var ep := list;
      ghost var m, rest := next[..], s[k + 1..];
      ListInMemory(m, s[k..]);
      list := next[list];
      next[ep] := -1;
      FillNext(le, heads.Length, s, k);
      Detach(m, next[..], bins, heads[..], ep, rest);
      InsertRun(le, next, heads, ep, bins, rest);
      bins := Carry(le, bins, 0, [s[k]]);
      k := k + 1;
    }
    assert s[..k] == s;
    StartCollapse(le, next[..], heads[..], bins, s[k..]);
  }

  lemma StoredEmpty(m: seq<int>, heads: seq<int>, bins: seq<seq<nat>>, others: seq<nat>)
    requires |heads| == |bins| && forall i :: 0 <= i < |bins| ==> heads[i] == -1 && bins[i] == []
    ensures Stored(m, heads, bins, others)
  {
  }

  lemma ListInMemory(m: seq<int>, s: seq<nat>)
    requires IsList(m, s)
    ensures forall k :: 0 <= k < |s| ==> s[k] < |m|
  {
  }

  lemma FillNext(le: Cmp, nbins: nat, s: seq<nat>, k: nat)
    requires nbins > 0 && k < |s|
    ensures Fill(le, nbins, s[..k + 1]) == Carry(le, Fill(le, nbins, s[..k]), 0, [s[k]])
    ensures s[k..] == [s[k]] + s[k + 1..]
  {
    assert s[..k + 1][..k] == s[..k];
  }

  lemma StartCollapse(le: Cmp, m: seq<int>, heads: seq<int>, bins: seq<seq<nat>>, others: seq<nat>)
    requires Stored(m, heads, bins, others)
    ensures Collapsing(le, m, heads, bins, 0)
  {
  }

  /** Cutting off the first node leaves a list of one and the remaining list. */
  lemma Detach(m: seq<int>, m': seq<int>, bins: seq<seq<nat>>, heads: seq<int>, x: nat, rest: seq<nat>)
    requires IsList(m, [x] + rest) && Stored(m, heads, bins, [x] + rest) && x < |m| && m' == m[x := -1]
    ensures Stored(m', heads, bins, [x] + rest) && IsList(m', [x]) && IsList(m', rest)
    ensures x !in rest && m[x] == Head(rest)
  {
    hide IsList;
    TailOfList(m, x, rest);
    assert ChangedOnly(m, m', [x]) && x in [x] + rest;
    forall i | 0 <= i < |bins| ensures IsList(m', bins[i]) {
      Untouched(m, m', bins[i], [x]);
    }
    Untouched(m, m', rest, [x]);
    SingleList(m', x);
  }

  lemma SingleList(m: seq<int>, x: nat)
    requires x < |m| && m[x] == -1
    ensures IsList(m, [x])
  {
  }

  lemma TailOfList(m: seq<int>, x: nat, rest: seq<nat>)
    requires IsList(m, [x] + rest)
    ensures IsList(m, rest) && x !in rest && x < |m| && m[x] == Head(rest)
  {
    var s := [x] + rest;
    assert s[0] == x;
    assert forall j :: 0 <= j < |rest| ==> rest[j] == s[j + 1];
    assert rest != [] ==> s[|s| - 1] == rest[|rest| - 1];
  }
}
