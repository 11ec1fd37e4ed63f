/** What a full iteration over a hash table is: its tuples by directory slots, chain position and page slot. */
module HashTableOrder {
  import opened TablePages
  import opened HashPages
  import opened Options
  import opened Collections

  // ---- The positions of the tuples, in order.

  ghost function PageRids(pages: Pages, id: int, from: nat): seq<Rid>
    requires IsTab(pages, id)
    decreases |pages[id].cells| - from
  {
    var cells := pages[id].cells;
    if from >= |cells| then []
    else if cells[from].Some? then [Rid(id, from)] + PageRids(pages, id, from + 1)
    else PageRids(pages, id, from + 1)
  }

  ghost function ChainRids(pages: Pages, chain: seq<int>, k: nat): seq<Rid>
    requires AllTabs(pages, chain)
    decreases |chain| - k
  {
    if k >= |chain| then [] else PageRids(pages, chain[k], 0) + ChainRids(pages, chain, k + 1)
  }

  ghost predicate RowTabs(pages: Pages, row: seq<seq<int>>) {
    forall b :: 0 <= b < |row| ==> AllTabs(pages, row[b])
  }

  ghost function RowRids(pages: Pages, row: seq<seq<int>>, b: nat): seq<Rid>
    requires RowTabs(pages, row)
    decreases |row| - b
  {
    if b >= |row| then [] else ChainRids(pages, row[b], 0) + RowRids(pages, row, b + 1)
  }

  ghost predicate GridTabs(pages: Pages, grid: seq<seq<seq<int>>>) {
    forall a :: 0 <= a < |grid| ==> RowTabs(pages, grid[a])
  }

  ghost function GridRids(pages: Pages, grid: seq<seq<seq<int>>>, a: nat): seq<Rid>
    requires GridTabs(pages, grid)
    decreases |grid| - a
  {
    if a >= |grid| then [] else RowRids(pages, grid[a], 0) + GridRids(pages, grid, a + 1)
  }

  // ---- The directory.

  /** The second-level page pg refers to the chains row; the first page of a chain holds a tuple. */
  ghost predicate RowOf(pages: Pages, pg: int, row: seq<seq<int>>) {
    if pg == NO_PAGE then row == [] else
    && IsDir(pages, pg) && |row| == SLOT_NUM
    && forall b: nat :: b < SLOT_NUM ==> Chain(pages, pages[pg].slots[b], row[b]) && HeadLive(pages, row[b])
  }

  ghost predicate HeadLive(pages: Pages, chain: seq<int>) {
    chain != [] ==> IsTab(pages, chain[0]) && NextLive(pages[chain[0]].cells, 0) >= 0
  }

  /** The first-level page refers to the rows of grid. */
  ghost predicate GridOf(pages: Pages, first: int, grid: seq<seq<seq<int>>>) {
    && IsDir(pages, first) && |grid| == SLOT_NUM
    && forall a: nat :: a < SLOT_NUM ==> RowOf(pages, pages[first].slots[a], grid[a])
  }

  lemma ChainTabs(pages: Pages, head: int, chain: seq<int>)
    requires Chain(pages, head, chain)
    ensures AllTabs(pages, chain)
  {
    forall k | 0 <= k < |chain| ensures IsTab(pages, chain[k]) {
      assert Link(pages, chain, k);
    }
  }

  lemma RowOfTabs(pages: Pages, pg: int, row: seq<seq<int>>)
    requires RowOf(pages, pg, row)
    ensures RowTabs(pages, row)
  {
    forall b | 0 <= b < |row| ensures AllTabs(pages, row[b]) {
      ChainTabs(pages, pages[pg].slots[b], row[b]);
    }
  }

  lemma GridOfTabs(pages: Pages, first: int, grid: seq<seq<seq<int>>>)
    requires GridOf(pages, first, grid)
    ensures GridTabs(pages, grid)
  {
    hide RowOf, RowTabs;
    forall a | 0 <= a < |grid| ensures RowTabs(pages, grid[a]) {
      RowOfTabs(pages, pages[first].slots[a], grid[a]);
    }
  }

  // ---- Looking ahead.

  /** The tuples of a page from a slot on start at the next live slot. */
  lemma {:induction false} PageAhead(pages: Pages, id: int, from: nat)
    requires IsTab(pages, id)
    ensures var n := NextLive(pages[id].cells, from);
      PageRids(pages, id, from) == if n < 0 then [] else [Rid(id, n)] + PageRids(pages, id, n + 1)
    decreases |pages[id].cells| - from
  {
    if from < |pages[id].cells| && pages[id].cells[from].None? {
      PageAhead(pages, id, from + 1);
    }
  }

  /** Empty chains add nothing. */
  lemma {:induction false} RowAhead(pages: Pages, row: seq<seq<int>>, b: nat, i: nat)
    requires RowTabs(pages, row) && b <= i && forall j :: b <= j < i && j < |row| ==> row[j] == []
    ensures RowRids(pages, row, b) == RowRids(pages, row, i)
    decreases i - b
  {
    if b < i {
      RowAhead(pages, row, b + 1, i);
    }
  }

  lemma {:induction false} GridAhead(pages: Pages, grid: seq<seq<seq<int>>>, a: nat, i: nat)
    requires GridTabs(pages, grid) && a <= i && forall j :: a <= j < i && j < |grid| ==> RowRids(pages, grid[j], 0) == []
    ensures GridRids(pages, grid, a) == GridRids(pages, grid, i)
    decreases i - a
  {
    if a < i {
      GridAhead(pages, grid, a + 1, i);
    }
  }

  // ---- Every live tuple once.

  ghost predicate LiveAt(pages: Pages, r: Rid) {
    IsTab(pages, r.pageId) && 0 <= r.slot < |pages[r.pageId].cells| && pages[r.pageId].cells[r.slot].Some?
  }

  /** The tuple of each position. */
  ghost predicate TuplesAt(pages: Pages, rids: seq<Rid>, tuples: seq<Tuple>) {
    && |tuples| == |rids|
    && forall i :: 0 <= i < |rids| ==> LiveAt(pages, rids[i]) && pages[rids[i].pageId].cells[rids[i].slot] == Some(tuples[i])
  }

  lemma NoTuples(pages: Pages)
    ensures TuplesAt(pages, [], [])
  {
  }

  lemma TuplesNext(pages: Pages, rids: seq<Rid>, tuples: seq<Tuple>, r: Rid)
    requires TuplesAt(pages, rids, tuples) && LiveAt(pages, r)
    ensures TuplesAt(pages, rids + [r], tuples + [pages[r.pageId].cells[r.slot].value])
  {
  }

  lemma DistinctConcat(s: seq<Rid>, t: seq<Rid>)
    requires NoDuplicates(s) && NoDuplicates(t) && forall r :: r in s ==> r !in t
    ensures NoDuplicates(s + t)
  {
    forall i, j | 0 <= i < j < |s + t| ensures (s + t)[i] != (s + t)[j] {
      if i < |s| <= j {
        assert s[i] in s && t[j - |s|] in t;
      }
    }
  }

  lemma {:induction false} PageExact(pages: Pages, id: int, from: nat)
    requires IsTab(pages, id)
    ensures NoDuplicates(PageRids(pages, id, from))
    ensures forall r :: r in PageRids(pages, id, from) <==> r.pageId == id && from <= r.slot && LiveAt(pages, r)
    decreases |pages[id].cells| - from
  {
    if from < |pages[id].cells| {
      PageExact(pages, id, from + 1);
      var rest := PageRids(pages, id, from + 1);
      if pages[id].cells[from].Some? {
        assert PageRids(pages, id, from) == [Rid(id, from)] + rest;
        DistinctConcat([Rid(id, from)], rest);
      } else {
        assert PageRids(pages, id, from) == rest;
      }
    }
  }

  ghost predicate InChain(chain: seq<int>, k: nat, id: int) {
    exists j: nat :: k <= j < |chain| && chain[j] == id
  }

  lemma {:induction false} ChainExact(pages: Pages, chain: seq<int>, k: nat)
    requires AllTabs(pages, chain) && forall i, j :: 0 <= i < j < |chain| ==> chain[i] != chain[j]
    ensures NoDuplicates(ChainRids(pages, chain, k))
    ensures forall r :: r in ChainRids(pages, chain, k) <==> InChain(chain, k, r.pageId) && LiveAt(pages, r)
    decreases |chain| - k
  {
    if k < |chain| {
      ChainExact(pages, chain, k + 1);
      PageExact(pages, chain[k], 0);
      ChainStep(chain, k);
      DistinctConcat(PageRids(pages, chain[k], 0), ChainRids(pages, chain, k + 1));
    }
  }

  lemma ChainStep(chain: seq<int>, k: nat)
    requires k < |chain| && forall i, j :: 0 <= i < j < |chain| ==> chain[i] != chain[j]
    ensures forall id :: InChain(chain, k, id) <==> id == chain[k] || InChain(chain, k + 1, id)
    ensures !InChain(chain, k + 1, chain[k])
  {
  }

  ghost predicate InRow(row: seq<seq<int>>, b: nat, id: int) {
    exists j: nat :: b <= j < |row| && InChain(row[j], 0, id)
  }

  ghost predicate RowDistinct(row: seq<seq<int>>) {
    && (forall b, i, j :: 0 <= b < |row| && 0 <= i < j < |row[b]| ==> row[b][i] != row[b][j])
    && (forall b, c, id: int {:trigger InChain(row[b], 0, id), InChain(row[c], 0, id)} ::
      0 <= b < c < |row| ==> !(InChain(row[b], 0, id) && InChain(row[c], 0, id)))
  }

  lemma {:induction false} RowExact(pages: Pages, row: seq<seq<int>>, b: nat)
    requires RowTabs(pages, row) && RowDistinct(row)
    ensures NoDuplicates(RowRids(pages, row, b))
    ensures forall r :: r in RowRids(pages, row, b) <==> InRow(row, b, r.pageId) && LiveAt(pages, r)
    decreases |row| - b
  {
    if b < |row| {
      hide InChain, LiveAt;
      RowExact(pages, row, b + 1);
      ChainExact(pages, row[b], 0);
      DistinctConcat(ChainRids(pages, row[b], 0), RowRids(pages, row, b + 1));
    }
  }

  ghost predicate InGrid(grid: seq<seq<seq<int>>>, a: nat, id: int) {
    exists i: nat :: a <= i < |grid| && InRow(grid[i], 0, id)
  }

  /** No page is in two places of the table. */
  ghost predicate GridDistinct(grid: seq<seq<seq<int>>>) {
    && (forall a :: 0 <= a < |grid| ==> RowDistinct(grid[a]))
    && (forall a, c, id: int {:trigger InRow(grid[a], 0, id), InRow(grid[c], 0, id)} ::
      0 <= a < c < |grid| ==> !(InRow(grid[a], 0, id) && InRow(grid[c], 0, id)))
  }

  lemma {:induction false} GridExact(pages: Pages, grid: seq<seq<seq<int>>>, a: nat)
    requires GridTabs(pages, grid) && GridDistinct(grid)
    ensures NoDuplicates(GridRids(pages, grid, a))
    ensures forall r :: r in GridRids(pages, grid, a) <==> InGrid(grid, a, r.pageId) && LiveAt(pages, r)
    decreases |grid| - a
  {
    if a < |grid| {
      hide InRow, LiveAt, RowDistinct;
      GridExact(pages, grid, a + 1);
      RowExact(pages, grid[a], 0);
      DistinctConcat(RowRids(pages, grid[a], 0), GridRids(pages, grid, a + 1));
    }
  }

  // ---- The order.

  ghost predicate ChainLess(chain: seq<int>, r: Rid, r': Rid) {
    exists j: nat, k: nat :: j <= k < |chain| && chain[j] == r.pageId && chain[k] == r'.pageId && (j == k ==> r.slot < r'.slot)
  }

  ghost predicate RowLess(row: seq<seq<int>>, r: Rid, r': Rid) {
    exists b: nat, c: nat :: b <= c < |row| && r.pageId in row[b] && r'.pageId in row[c] && (b == c ==> ChainLess(row[b], r, r'))
  }

  /** By first-level slot, second-level slot, place in the chain and slot of the page. */
  ghost predicate GridLess(grid: seq<seq<seq<int>>>, r: Rid, r': Rid) {
    exists a: nat, c: nat :: a <= c < |grid| && InRow(grid[a], 0, r.pageId) && InRow(grid[c], 0, r'.pageId) && (a == c ==> RowLess(grid[a], r, r'))
  }

  ghost predicate Ascending(less: (Rid, Rid) -> bool, s: seq<Rid>) {
    forall i, j :: 0 <= i < j < |s| ==> less(s[i], s[j])
  }

  lemma AscendingConcat(less: (Rid, Rid) -> bool, s: seq<Rid>, t: seq<Rid>)
    requires Ascending(less, s) && Ascending(less, t) && forall r, r' :: r in s && r' in t ==> less(r, r')
    ensures Ascending(less, s + t)
  {
    forall i, j | 0 <= i < j < |s + t| ensures less((s + t)[i], (s + t)[j]) {
      if i < |s| <= j {
        assert s[i] in s && t[j - |s|] in t;
      }
    }
  }

  lemma {:induction false} PageAscends(pages: Pages, id: int, from: nat)
    requires IsTab(pages, id)
    ensures forall i, j :: 0 <= i < j < |PageRids(pages, id, from)| ==> PageRids(pages, id, from)[i].slot < PageRids(pages, id, from)[j].slot
    decreases |pages[id].cells| - from
  {
    if from < |pages[id].cells| {
      PageAscends(pages, id, from + 1);
      PageExact(pages, id, from + 1);
    }
  }

  lemma {:induction false} ChainAscends(pages: Pages, chain: seq<int>, k: nat)
    requires AllTabs(pages, chain) && forall i, j :: 0 <= i < j < |chain| ==> chain[i] != chain[j]
    ensures Ascending((r, r') => ChainLess(chain, r, r'), ChainRids(pages, chain, k))
    decreases |chain| - k
  {
    if k < |chain| {
      var less := (r, r') => ChainLess(chain, r, r');
      var page, rest := PageRids(pages, chain[k], 0), ChainRids(pages, chain, k + 1);
      ChainAscends(pages, chain, k + 1);
      PageAscends(pages, chain[k], 0);
      PageExact(pages, chain[k], 0);
      ChainExact(pages, chain, k + 1);
      forall i, j | 0 <= i < j < |page| ensures less(page[i], page[j]) {
        assert page[i] in page && page[j] in page;
      }
      forall r, r' | r in page && r' in rest ensures less(r, r') {
        var j: nat :| k + 1 <= j < |chain| && chain[j] == r'.pageId;
        assert k <= j && chain[k] == r.pageId;
      }
      AscendingConcat(less, page, rest);
    }
  }

  lemma {:induction false} RowAscends(pages: Pages, row: seq<seq<int>>, b: nat)
    requires RowTabs(pages, row) && RowDistinct(row)
    ensures Ascending((r, r') => RowLess(row, r, r'), RowRids(pages, row, b))
    decreases |row| - b
  {
    if b < |row| {
      var less := (r, r') => RowLess(row, r, r');
      var chain, rest := ChainRids(pages, row[b], 0), RowRids(pages, row, b + 1);
      RowAscends(pages, row, b + 1);
      ChainAscends(pages, row[b], 0);
      ChainExact(pages, row[b], 0);
      RowExact(pages, row, b + 1);
      forall i, j | 0 <= i < j < |chain| ensures less(chain[i], chain[j]) {
        assert chain[i] in chain && chain[j] in chain && ChainLess(row[b], chain[i], chain[j]);
      }
      forall r, r' | r in chain && r' in rest ensures less(r, r') {
        var c: nat :| b + 1 <= c < |row| && InChain(row[c], 0, r'.pageId);
        assert b <= c && r.pageId in row[b] && r'.pageId in row[c];
      }
      AscendingConcat(less, chain, rest);
    }
  }

  /** The tuples come in the order of the directory, of the chains and of the slots of each page. */
  lemma {:induction false} GridAscends(pages: Pages, grid: seq<seq<seq<int>>>, a: nat)
    requires GridTabs(pages, grid) && GridDistinct(grid)
    ensures Ascending((r, r') => GridLess(grid, r, r'), GridRids(pages, grid, a))
    decreases |grid| - a
  {
    if a < |grid| {
      hide InRow, RowDistinct, RowLess, LiveAt, RowTabs;
      var less := (r, r') => GridLess(grid, r, r');
      var row, rest := RowRids(pages, grid[a], 0), GridRids(pages, grid, a + 1);
      GridAscends(pages, grid, a + 1);
      RowAscends(pages, grid[a], 0);
      RowExact(pages, grid[a], 0);
      GridExact(pages, grid, a + 1);
      forall i, j | 0 <= i < j < |row| ensures less(row[i], row[j]) {
        assert row[i] in row && row[j] in row && RowLess(grid[a], row[i], row[j]);
      }
      forall r, r' | r in row && r' in rest ensures less(r, r') {
        var c: nat :| a + 1 <= c < |grid| && InRow(grid[c], 0, r'.pageId);
        assert a <= c && InRow(grid[a], 0, r.pageId);
      }
      AscendingConcat(less, row, rest);
    }
  }
}

/** The iterator over a hash table: a tuple, its position, and the directory slots it was reached through. */
module HashTableIters {
  import opened TablePages
  import opened HashPages
  import opened Options
  import opened Collections
  import opened HashTableOrder

  // ---- The tuples still ahead while a step looks for the next one.

  /** Behind cur in its own page, or the whole page if cur is elsewhere; then the rest of the chain. */
  ghost function ChainPending(pages: Pages, chain: seq<int>, k: nat, cur: Rid): seq<Rid>
    requires AllTabs(pages, chain) && (cur.pageId in chain ==> cur.slot >= 0)
  {
    if k >= |chain| then [] else
    PageRids(pages, chain[k], if chain[k] == cur.pageId then cur.slot + 1 else 0) + ChainRids(pages, chain, k + 1)
  }

  lemma PendingElsewhere(pages: Pages, chain: seq<int>, k: nat, cur: Rid)
    requires AllTabs(pages, chain) && !InChain(chain, k, cur.pageId) && (cur.pageId in chain ==> cur.slot >= 0)
    ensures ChainPending(pages, chain, k, cur) == ChainRids(pages, chain, k)
  {
  }

  function Behind(id: int, cur: Rid): nat
    requires id == cur.pageId ==> cur.slot >= 0
  {
    if id == cur.pageId then cur.slot + 1 else 0
  }

  lemma ChainFound(pages: Pages, chain: seq<int>, k: nat, cur: Rid, slot: nat)
    requires AllTabs(pages, chain) && k < |chain| && (cur.pageId in chain ==> cur.slot >= 0)
    requires chain[k] in chain && NextLive(pages[chain[k]].cells, Behind(chain[k], cur)) == slot
    ensures ChainPending(pages, chain, k, cur) == PageRids(pages, chain[k], slot) + ChainRids(pages, chain, k + 1)
  {
    PageAhead(pages, chain[k], Behind(chain[k], cur));
    PageAhead(pages, chain[k], slot);
  }

  lemma ChainNotFound(pages: Pages, chain: seq<int>, k: nat, cur: Rid)
    requires AllTabs(pages, chain) && k < |chain| && (cur.pageId in chain ==> cur.slot >= 0) && !InChain(chain, k + 1, cur.pageId)
    requires chain[k] in chain && NextLive(pages[chain[k]].cells, Behind(chain[k], cur)) == -1
    ensures ChainPending(pages, chain, k, cur) == ChainPending(pages, chain, k + 1, cur)
    ensures !InChain(chain, k + 2, cur.pageId)
  {
    PageAhead(pages, chain[k], Behind(chain[k], cur));
    PendingElsewhere(pages, chain, k + 1, cur);
  }

  /** The innermost loop: the next tuple in the page and, failing that, in the pages linked behind it. */
  method ScanChain(pages: Pages, start: int, cur: Rid, ghost chain: seq<int>, ghost k0: nat)
    returns (ok: bool, rid: Rid, ghost k: nat)
    requires k0 < |chain| && chain[k0] == start && AllTabs(pages, chain)
    requires forall j: nat :: k0 <= j < |chain| ==> Link(pages, chain, j)
    requires !InChain(chain, k0 + 1, cur.pageId) && (cur.pageId in chain ==> cur.slot >= 0)
    ensures !ok ==> ChainPending(pages, chain, k0, cur) == []
    ensures ok ==> k0 <= k < |chain| && rid.pageId == chain[k] != NO_PAGE && LiveAt(pages, rid)
    ensures ok ==> ChainPending(pages, chain, k0, cur) == PageRids(pages, rid.pageId, rid.slot) + ChainRids(pages, chain, k + 1)
  {
    hide InChain, PageRids, ChainRids, AllTabs;
    var curTb := start;
    k := k0;
    while curTb != NO_PAGE
      invariant k0 <= k <= |chain| && curTb == (if k < |chain| then chain[k] else NO_PAGE)
      invariant !InChain(chain, k + 1, cur.pageId)
      invariant k < |chain| ==> Link(pages, chain, k)
      invariant ChainPending(pages, chain, k0, cur) == ChainPending(pages, chain, k, cur)
      decreases |chain| - k
    {
      assert chain[k] in chain;
      var slot := FindNextLive(pages[curTb].cells, Behind(curTb, cur));
      if slot >= 0 {
        ChainFound(pages, chain, k, cur, slot);
        return true, Rid(curTb, slot), k;
      }
      ChainNotFound(pages, chain, k, cur);
      curTb := pages[curTb].next;
      k := k + 1;
    }
    return false, NO_RID, k;
  }

  /** The next slot in use behind a given one, or one past the last slot. */
  method NextUsed(slots: seq<int>, from: int) returns (i: int, id: int)
    requires |slots| == SLOT_NUM && -1 <= from < SLOT_NUM
    ensures from < i <= SLOT_NUM && id == PgidInSlot(slots, i) && (id != NO_PAGE <==> i < SLOT_NUM)
    ensures forall j :: from < j < i ==> slots[j] == NO_PAGE
  {
    i := from + 1;
    id := PgidInSlot(slots, i);
    while i < SLOT_NUM && id == NO_PAGE
      invariant from < i <= SLOT_NUM && id == PgidInSlot(slots, i)
      invariant forall j :: from < j < i ==> slots[j] == NO_PAGE
    {
      i := i + 1;
      id := PgidInSlot(slots, i);
    }
  }

  // ---- One row.

  ghost predicate Elsewhere(row: seq<seq<int>>, b: nat, id: int) {
    forall j: nat :: b <= j < |row| ==> !InChain(row[j], 0, id)
  }

  ghost function RowPending(pages: Pages, row: seq<seq<int>>, b: nat, k: nat, cur: Rid): seq<Rid>
    requires RowTabs(pages, row) && cur.slot >= 0
  {
    if b >= |row| then [] else ChainPending(pages, row[b], k, cur) + RowRids(pages, row, b + 1)
  }

  /** The tuples of a row from a tuple on. */
  ghost function RowFrom(pages: Pages, row: seq<seq<int>>, b: nat, k: nat, rid: Rid): seq<Rid>
    requires RowTabs(pages, row) && b < |row| && LiveAt(pages, rid)
  {
    PageRids(pages, rid.pageId, rid.slot) + ChainRids(pages, row[b], k + 1) + RowRids(pages, row, b + 1)
  }

  lemma RowPendingNone(pages: Pages, row: seq<seq<int>>, b: nat, k: nat, i: nat, cur: Rid)
    requires RowTabs(pages, row) && cur.slot >= 0 && b < |row| && ChainPending(pages, row[b], k, cur) == []
    requires b < i <= |row| && Elsewhere(row, b + 1, cur.pageId) && forall j :: b < j < i ==> row[j] == []
    ensures RowPending(pages, row, b, k, cur) == RowPending(pages, row, i, 0, cur)
  {
    hide ChainPending, Elsewhere;
    RowPendingElsewhere(pages, row, b + 1, i, cur);
  }

  lemma RowPendingElsewhere(pages: Pages, row: seq<seq<int>>, b: nat, i: nat, cur: Rid)
    requires RowTabs(pages, row) && cur.slot >= 0 && b <= i <= |row| && Elsewhere(row, b, cur.pageId)
    requires forall j :: b <= j < i ==> row[j] == []
    ensures RowRids(pages, row, b) == RowPending(pages, row, i, 0, cur)
  {
    RowAhead(pages, row, b, i);
    if i < |row| {
      PendingElsewhere(pages, row[i], 0, cur);
    }
  }

  lemma UsedSlots(pages: Pages, pg: int, row: seq<seq<int>>, b: nat)
    requires RowOf(pages, pg, row) && pg != NO_PAGE && b < SLOT_NUM
    ensures IsDir(pages, pg) && |row| == SLOT_NUM && AllTabs(pages, row[b])
    ensures pages[pg].slots[b] == (if row[b] == [] then NO_PAGE else row[b][0])
    ensures pages[pg].slots[b] == NO_PAGE <==> row[b] == []
    ensures forall k: nat :: k < |row[b]| ==> Link(pages, row[b], k)
    ensures row[b] != [] ==> NextLive(pages[row[b][0]].cells, 0) >= 0
  {
    ChainTabs(pages, pages[pg].slots[b], row[b]);
    if row[b] != [] {
      assert Link(pages, row[b], 0);
    }
  }

  /** Between two used slots of a directory page there are only empty chains. */
  lemma NextChain(pages: Pages, pg: int, row: seq<seq<int>>, b: int, i: nat)
    requires RowOf(pages, pg, row) && pg != NO_PAGE && -1 <= b < i <= SLOT_NUM && IsDir(pages, pg)
    requires forall j :: b < j < i ==> pages[pg].slots[j] == NO_PAGE
    requires PgidInSlot(pages[pg].slots, i) != NO_PAGE <==> i < SLOT_NUM
    ensures |row| == SLOT_NUM && forall j :: b < j < i ==> row[j] == []
    ensures i < SLOT_NUM ==> row[i] != [] && row[i][0] == pages[pg].slots[i] && NextLive(pages[row[i][0]].cells, 0) >= 0
  {
    hide RowOf, Link, AllTabs;
    RowLength(pages, pg, row);
    forall j | b < j < i ensures row[j] == [] {
      UsedSlots(pages, pg, row, j);
    }
    if i < SLOT_NUM {
      UsedSlots(pages, pg, row, i);
    }
  }

  lemma ElsewhereTail(row: seq<seq<int>>, b: nat, i: nat, id: int)
    requires Elsewhere(row, b, id) && b <= i < |row|
    ensures !InChain(row[i], 0, id) && !InChain(row[i], 1, id)
  {
  }

  /** The loop over the chains of a second-level page. */
  method ScanRow(pages: Pages, pg: int, b0: nat, start: int, cur: Rid, ghost row: seq<seq<int>>, ghost k0: nat)
    returns (ok: bool, rid: Rid, b: nat, ghost k: nat)
    requires pg != NO_PAGE && RowOf(pages, pg, row) && RowTabs(pages, row) && cur.slot >= 0
    requires b0 <= SLOT_NUM && (b0 == SLOT_NUM ==> start == NO_PAGE)
    requires b0 < SLOT_NUM ==> k0 < |row[b0]| && row[b0][k0] == start && !InChain(row[b0], k0 + 1, cur.pageId)
    requires Elsewhere(row, b0 + 1, cur.pageId)
    ensures !ok ==> RowPending(pages, row, b0, k0, cur) == []
    ensures ok ==> b < SLOT_NUM && k < |row[b]| && rid.pageId == row[b][k] != NO_PAGE && LiveAt(pages, rid)
    ensures ok ==> RowPending(pages, row, b0, k0, cur) == RowFrom(pages, row, b, k, rid)
  {
    hide RowOf, RowTabs, LiveAt, PageRids, ChainRids, ChainPending, RowRids, InChain, Elsewhere, AllTabs, Link;
    b, k := b0, k0;
    var curTb := start;
    RowLength(pages, pg, row);
    while b < SLOT_NUM
      invariant b0 <= b <= SLOT_NUM
      invariant b < SLOT_NUM ==> k < |row[b]| && row[b][k] == curTb && !InChain(row[b], k + 1, cur.pageId)
      invariant RowPending(pages, row, b0, k0, cur) == RowPending(pages, row, b, k, cur)
    {
      UsedSlots(pages, pg, row, b);
      ghost var k1 := k;
      ok, rid, k := ScanChain(pages, curTb, cur, row[b], k);
      if ok {
        return;
      }
      var i, id := NextUsed(pages[pg].slots, b);
      NextChain(pages, pg, row, b, i);
      ElsewhereLater(row, b0 + 1, b + 1, cur.pageId);
      RowPendingNone(pages, row, b, k1, i, cur);
      if i < SLOT_NUM {
        ElsewhereTail(row, b + 1, i, cur.pageId);
      }
      b, curTb, k := i, id, 0;
    }
    ok, rid := false, NO_RID;
  }

  lemma RowLength(pages: Pages, pg: int, row: seq<seq<int>>)
    requires RowOf(pages, pg, row) && pg != NO_PAGE
    ensures |row| == SLOT_NUM && IsDir(pages, pg)
  {
  }

  lemma ElsewhereLater(row: seq<seq<int>>, b: nat, b': nat, id: int)
    requires Elsewhere(row, b, id) && b <= b'
    ensures Elsewhere(row, b', id)
  {
  }

  // ---- The whole table.

  type Grid = seq<seq<seq<int>>>

  /** A table whose directory refers to the chains of grid, no page in two places. */
  ghost predicate TableOf(pages: Pages, first: int, grid: Grid) {
    GridOf(pages, first, grid) && GridTabs(pages, grid) && GridDistinct(grid)
  }

  /** A live tuple in page k of chain (a, b). */
  ghost predicate Reached(pages: Pages, grid: Grid, a: int, b: int, k: nat, rid: Rid) {
    && 0 <= a < |grid| && 0 <= b < |grid[a]| && k < |grid[a][b]| && grid[a][b][k] == rid.pageId
    && rid.pageId != NO_PAGE && LiveAt(pages, rid)
  }

  /** The tuples of the table from a tuple on. */
  ghost function GridFrom(pages: Pages, grid: Grid, a: nat, b: nat, k: nat, rid: Rid): seq<Rid>
    requires GridTabs(pages, grid) && Reached(pages, grid, a, b, k, rid)
  {
    RowFrom(pages, grid[a], b, k, rid) + GridRids(pages, grid, a + 1)
  }

  /** What a step looks for: in row a behind (b, k), or in the whole row if it is new; then in the rows behind it. */
  ghost function GridPending(pages: Pages, grid: Grid, a: nat, b: int, k: nat, cur: Rid): seq<Rid>
    requires GridTabs(pages, grid) && cur.slot >= 0
  {
    if a >= |grid| then [] else
    (if b < 0 then RowRids(pages, grid[a], 0) else RowPending(pages, grid[a], b, k, cur)) + GridRids(pages, grid, a + 1)
  }

  lemma TableSize(pages: Pages, first: int, grid: Grid)
    requires TableOf(pages, first, grid)
    ensures IsDir(pages, first) && |grid| == SLOT_NUM
  {
  }

  lemma GridRow(pages: Pages, first: int, grid: Grid, a: nat)
    requires TableOf(pages, first, grid) && a < SLOT_NUM
    ensures IsDir(pages, first) && |grid| == SLOT_NUM
    ensures RowOf(pages, pages[first].slots[a], grid[a]) && RowTabs(pages, grid[a])
  {
    hide RowOf, RowTabs, GridDistinct;
  }

  /** Behind a tuple, its page does not come again. */
  lemma NotAgain(grid: Grid, a: nat, b: nat, k: nat, id: int)
    requires GridDistinct(grid) && a < |grid| && b < |grid[a]| && k < |grid[a][b]| && grid[a][b][k] == id
    ensures !InChain(grid[a][b], k + 1, id) && Elsewhere(grid[a], b + 1, id)
    ensures forall i: nat :: a < i < |grid| ==> Elsewhere(grid[i], 0, id)
  {
    assert RowDistinct(grid[a]);
    assert InChain(grid[a][b], 0, id);
    assert InRow(grid[a], 0, id);
    forall i: nat | a < i < |grid| ensures Elsewhere(grid[i], 0, id) {
      assert !InRow(grid[i], 0, id);
    }
  }

  /** The tuples from a tuple on are that tuple and what a step looks for. */
  lemma FromPending(pages: Pages, grid: Grid, a: nat, b: nat, k: nat, rid: Rid)
    requires GridTabs(pages, grid) && Reached(pages, grid, a, b, k, rid)
    ensures GridFrom(pages, grid, a, b, k, rid) == [rid] + GridPending(pages, grid, a, b, k, rid)
  {
    hide PageRids, ChainRids, RowRids, GridRids, GridTabs, RowTabs;
    GridTabsAt(pages, grid, a);
    PageAhead(pages, rid.pageId, rid.slot);
    var p, q, r, t := PageRids(pages, rid.pageId, rid.slot + 1), ChainRids(pages, grid[a][b], k + 1),
      RowRids(pages, grid[a], b + 1), GridRids(pages, grid, a + 1);
    ConcatHead(rid, p, q, r, t);
  }

  lemma ConcatHead(x: Rid, p: seq<Rid>, q: seq<Rid>, r: seq<Rid>, t: seq<Rid>)
    ensures (([x] + p) + q) + r + t == [x] + (((p + q) + r) + t)
  {
  }

  lemma GridTabsAt(pages: Pages, grid: Grid, a: nat)
    requires GridTabs(pages, grid) && a < |grid|
    ensures RowTabs(pages, grid[a])
  {
  }

  /** A row without second-level page holds no chains. */
  lemma UnusedRows(pages: Pages, first: int, grid: Grid, a: int, i: nat)
    requires TableOf(pages, first, grid) && -1 <= a < i <= SLOT_NUM && |grid| == SLOT_NUM && IsDir(pages, first)
    requires forall j :: a < j < i ==> pages[first].slots[j] == NO_PAGE
    ensures GridRids(pages, grid, a + 1) == GridRids(pages, grid, i)
  {
    hide RowTabs, GridDistinct;
    forall j | a < j < i ensures RowRids(pages, grid[j], 0) == [] {
      GridRow(pages, first, grid, j);
    }
    GridAhead(pages, grid, a + 1, i);
  }

  class LinkHashTableIter {
    const pages: Pages
    const first: int
    ghost const grid: Grid
    var rid: Rid // of the tuple the iterator refers to; its page id is NO_PAGE at the end
    var tuple: Option<Tuple>
    var slot1: int
    var slot2: int
    ghost var k: nat

    ghost predicate Valid()
      reads this
    {
      && TableOf(pages, first, grid)
      && (rid.pageId != NO_PAGE ==> Reached(pages, grid, slot1, slot2, k, rid) && tuple == pages[rid.pageId].cells[rid.slot])
    }

    /** The tuple the iterator refers to and all behind it. */
    ghost function Remaining(): seq<Rid>
      requires Valid()
      reads this
    {
      if rid.pageId == NO_PAGE then [] else GridFrom(pages, grid, slot1, slot2, k, rid)
    }

    lemma Current()
      requires Valid() && rid.pageId != NO_PAGE
      ensures Remaining() != [] && Remaining()[0] == rid && LiveAt(pages, rid) && tuple == Some(pages[rid.pageId].cells[rid.slot].value)
    {
      hide GridFrom;
      FromPending(pages, grid, slot1, slot2, k, rid);
    }

    /** Stands on the first tuple of the table, if there is one. */
    constructor (pages: Pages, first: int, ghost grid: Grid)
      requires TableOf(pages, first, grid)
      ensures Valid() && Remaining() == GridRids(pages, grid, 0)
      ensures this.pages == pages && this.first == first && this.grid == grid
    {
      hide RowOf, RowTabs, GridTabs, GridOf, GridDistinct, RowFrom, RowRids, GridRids, LiveAt;
      this.pages, this.first, this.grid := pages, first, grid;
      rid, tuple, slot1, slot2, k := NO_RID, None, -1, -1, 0;
      new;
      TableSize(pages, first, grid);
      var a := 0;
      while a < SLOT_NUM
        invariant 0 <= a <= SLOT_NUM && rid == NO_RID && this.pages == pages && this.first == first && this.grid == grid
        invariant GridRids(pages, grid, 0) == GridRids(pages, grid, a)
      {
        GridRow(pages, first, grid, a);
        var pg := PgidInSlot(pages[first].slots, a);
        if pg != NO_PAGE {
          RowLength(pages, pg, grid[a]);
          var b, id := NextUsed(pages[pg].slots, -1);
          FirstOfRow(pages, pg, grid[a], b);
          if id != NO_PAGE {
            var slot := FindNextLive(pages[id].cells, 0);
            rid, tuple := Rid(id, slot), pages[id].cells[slot];
            slot1, slot2, k := a, b, 0;
            GridFirst(pages, grid, a);
            return;
          }
        } else {
          NoRow(pages, grid[a]);
        }
        GridFirst(pages, grid, a);
        a := a + 1;
      }
      GridEnd(pages, grid);
    }

    /** Moves to the next tuple; none is left out and none comes twice. */
    method Next()
      requires Valid()
      modifies this
      ensures Valid() && Remaining() == (if old(Remaining()) == [] then [] else old(Remaining())[1..])
    {
      hide RowOf, RowTabs, GridTabs, GridOf, GridDistinct, RowFrom, RowRids, GridRids, InChain, Elsewhere, RowPending;
      var cur, curTb := rid, rid.pageId;
      if curTb == NO_PAGE {
        rid := NO_RID;
        return;
      }
      TableSize(pages, first, grid);
      var a, b := slot1, slot2;
      ghost var kk := k;
      var pg := PgidInSlot(pages[first].slots, a);
      FromPending(pages, grid, a, b, kk, cur);
      ghost var rest := GridPending(pages, grid, a, b, kk, cur);
      StepStarts(pages, first, grid, a, b, kk, cur);
      while a < SLOT_NUM
        invariant 0 <= a <= SLOT_NUM && -1 <= b && cur.slot >= 0 && (curTb == NO_PAGE <==> b == -1)
        invariant a < SLOT_NUM ==> pg == pages[first].slots[a] && Stepping(pages, grid, a, b, kk, pg, curTb, cur)
        invariant rest == GridPending(pages, grid, a, b, kk, cur)
        invariant unchanged(this)
      {
        GridRow(pages, first, grid, a);
        RowLength(pages, pg, grid[a]);
        if curTb == NO_PAGE {
          b, curTb := NextUsed(pages[pg].slots, b);
          NewRow(pages, grid, a, b, kk, pg, cur);
          kk := 0;
        }
        ghost var k1 := kk;
        var ok, next, c;
        ok, next, c, kk := ScanRow(pages, pg, b, curTb, cur, grid[a], kk);
        if ok {
          tuple := pages[next.pageId].cells[next.slot];
          rid, slot1, slot2, k := next, a, c, kk;
          return;
        }
        var i, id := NextUsed(pages[first].slots, a);
        UnusedRows(pages, first, grid, a, i);
        NextRow(pages, first, grid, a, b, k1, i, cur);
        a, pg, b, curTb := i, id, -1, NO_PAGE;
      }
      rid := NO_RID;
      slot1, slot2 := -1, -1;
    }
  }

  // ---- Steps of the two operations.

  /** The position of a step in row a: at page k of chain b, or before the first chain; cur does not come again. */
  ghost predicate Stepping(pages: Pages, grid: Grid, a: nat, b: int, k: nat, pg: int, tb: int, cur: Rid) {
    && a < |grid| && pg != NO_PAGE && cur.slot >= 0
    && (b >= 0 ==>
      && b < |grid[a]| && k < |grid[a][b]| && grid[a][b][k] == tb && !InChain(grid[a][b], k + 1, cur.pageId)
      && Elsewhere(grid[a], b + 1, cur.pageId))
    && (b < 0 ==> Elsewhere(grid[a], 0, cur.pageId))
    && (forall i: nat :: a < i < |grid| ==> Elsewhere(grid[i], 0, cur.pageId))
  }

  lemma StepStarts(pages: Pages, first: int, grid: Grid, a: nat, b: nat, k: nat, cur: Rid)
    requires TableOf(pages, first, grid) && IsDir(pages, first) && |grid| == SLOT_NUM && Reached(pages, grid, a, b, k, cur)
    ensures Stepping(pages, grid, a, b, k, pages[first].slots[a], cur.pageId, cur)
  {
    GridRow(pages, first, grid, a);
    NotAgain(grid, a, b, k, cur.pageId);
  }

  lemma NextRow(pages: Pages, first: int, grid: Grid, a: nat, b: nat, k: nat, i: nat, cur: Rid)
    requires TableOf(pages, first, grid) && IsDir(pages, first) && |grid| == SLOT_NUM && cur.slot >= 0
    requires a < i <= SLOT_NUM && GridRids(pages, grid, a + 1) == GridRids(pages, grid, i)
    requires RowTabs(pages, grid[a]) && RowPending(pages, grid[a], b, k, cur) == []
    requires forall j: nat :: a < j < |grid| ==> Elsewhere(grid[j], 0, cur.pageId)
    ensures GridPending(pages, grid, a, b, k, cur) == GridPending(pages, grid, i, -1, k, cur)
    ensures i < SLOT_NUM && pages[first].slots[i] != NO_PAGE ==> Stepping(pages, grid, i, -1, k, pages[first].slots[i], NO_PAGE, cur)
  {
    hide RowPending, RowRids, GridRids, Elsewhere, RowTabs, RowOf, GridDistinct;
    if i < SLOT_NUM {
      GridFirst(pages, grid, i);
    } else {
      GridEnd(pages, grid);
    }
  }

  lemma NewRow(pages: Pages, grid: Grid, a: nat, b: nat, k: nat, pg: int, cur: Rid)
    requires GridTabs(pages, grid) && Stepping(pages, grid, a, -1, k, pg, NO_PAGE, cur)
    requires RowOf(pages, pg, grid[a]) && IsDir(pages, pg) && b <= SLOT_NUM
    requires forall j :: 0 <= j < b ==> pages[pg].slots[j] == NO_PAGE
    requires PgidInSlot(pages[pg].slots, b) != NO_PAGE <==> b < SLOT_NUM
    ensures GridPending(pages, grid, a, -1, k, cur) == GridPending(pages, grid, a, b, 0, cur)
    ensures b < SLOT_NUM ==> Stepping(pages, grid, a, b, 0, pg, pages[pg].slots[b], cur)
    ensures Elsewhere(grid[a], b + 1, cur.pageId)
  {
    hide RowOf, RowRids, GridRids;
    NextChain(pages, pg, grid[a], -1, b);
    RowPendingElsewhere(pages, grid[a], 0, b, cur);
    if b < SLOT_NUM {
      ElsewhereTail(grid[a], 0, b, cur.pageId);
    }
    ElsewhereLater(grid[a], 0, b + 1, cur.pageId);
  }

  function FirstRid(pages: Pages, id: int): Rid
    requires IsTab(pages, id)
  {
    Rid(id, NextLive(pages[id].cells, 0))
  }

  lemma FirstOfRow(pages: Pages, pg: int, row: seq<seq<int>>, b: nat)
    requires RowOf(pages, pg, row) && RowTabs(pages, row) && pg != NO_PAGE && IsDir(pages, pg) && b <= SLOT_NUM
    requires forall j :: 0 <= j < b ==> pages[pg].slots[j] == NO_PAGE
    requires PgidInSlot(pages[pg].slots, b) != NO_PAGE <==> b < SLOT_NUM
    ensures b == SLOT_NUM ==> RowRids(pages, row, 0) == []
    ensures b < SLOT_NUM ==> IsTab(pages, pages[pg].slots[b]) && |row| == SLOT_NUM && row[b] != [] && row[b][0] == pages[pg].slots[b]
    ensures b < SLOT_NUM ==> FirstRid(pages, row[b][0]).slot >= 0 && LiveAt(pages, FirstRid(pages, row[b][0]))
    ensures b < SLOT_NUM ==> RowRids(pages, row, 0) == RowFrom(pages, row, b, 0, FirstRid(pages, row[b][0]))
  {
    hide RowOf;
    RowLength(pages, pg, row);
    NextChain(pages, pg, row, -1, b);
    RowAhead(pages, row, 0, b);
    if b < SLOT_NUM {
      assert AllTabs(pages, row[b]);
      PageAhead(pages, row[b][0], 0);
      PageAhead(pages, row[b][0], NextLive(pages[row[b][0]].cells, 0));
    }
  }

  lemma GridFirst(pages: Pages, grid: Grid, a: nat)
    requires GridTabs(pages, grid) && a < |grid|
    ensures GridRids(pages, grid, a) == RowRids(pages, grid[a], 0) + GridRids(pages, grid, a + 1)
    ensures RowRids(pages, grid[a], 0) == [] ==> GridRids(pages, grid, a) == GridRids(pages, grid, a + 1)
  {
  }

  lemma NoRow(pages: Pages, row: seq<seq<int>>)
    requires RowOf(pages, NO_PAGE, row) && RowTabs(pages, row)
    ensures RowRids(pages, row, 0) == []
  {
  }

  lemma GridEnd(pages: Pages, grid: Grid)
    requires GridTabs(pages, grid)
    ensures GridRids(pages, grid, |grid|) == []
  {
  }

  lemma MoveHead(s: seq<Rid>, t: seq<Rid>)
    requires t != []
    ensures s + t == (s + [t[0]]) + t[1..]
  {
  }

  /** Iterating to the end gives every tuple of the table exactly once, in the order of the directory. */
  method Iterate(pages: Pages, first: int, ghost grid: Grid) returns (rids: seq<Rid>, tuples: seq<Tuple>)
    requires TableOf(pages, first, grid)
    ensures rids == GridRids(pages, grid, 0) && NoDuplicates(rids)
    ensures forall r :: r in rids <==> InGrid(grid, 0, r.pageId) && LiveAt(pages, r)
    ensures TuplesAt(pages, rids, tuples)
    ensures forall i, j :: 0 <= i < j < |rids| ==> GridLess(grid, rids[i], rids[j])
  {
    hide GridOf, GridRids, GridFrom, InGrid, NoDuplicates, GridDistinct, GridTabs, TuplesAt, LiveAt, Reached, GridLess;
    var iter := new LinkHashTableIter(pages, first, grid);
    rids, tuples := [], [];
    ghost var all := GridRids(pages, grid, 0);
    NoTuples(pages);
    while iter.rid.pageId != NO_PAGE
      invariant fresh(iter) && iter.Valid() && iter.pages == pages && iter.first == first && iter.grid == grid
      invariant rids + iter.Remaining() == all
      invariant TuplesAt(pages, rids, tuples)
      decreases |iter.Remaining()|
    {
      iter.Current();
      MoveHead(rids, iter.Remaining());
      TuplesNext(pages, rids, tuples, iter.rid);
      rids, tuples := rids + [iter.rid], tuples + [iter.tuple.value];
      iter.Next();
    }
    GridExact(pages, grid, 0);
    GridAscends(pages, grid, 0);
  }
}
