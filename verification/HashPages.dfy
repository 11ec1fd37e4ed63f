/**
 * The pages of a hash table: two levels of directory pages, whose slots hold page ids, and chains of table
 * pages. A table page is seen as its slots, each empty or with a tuple.
 */
module HashPages {
  import opened Bytes
  import opened Options

  const SLOT_NUM := 1008 // slots of a directory page
  const NO_PAGE := INVALID_PAGE_ID

  datatype Tuple = Tuple(key: int, data: Mem)
  datatype Page = Dir(slots: seq<int>) | Tab(prev: int, next: int, cells: seq<Option<Tuple>>)
  type Pages = map<int, Page>

  predicate IsDir(pages: Pages, id: int) {
    id in pages && pages[id].Dir? && |pages[id].slots| == SLOT_NUM
  }

  predicate IsTab(pages: Pages, id: int) {
    id in pages && pages[id].Tab?
  }

  function PgidInSlot(slots: seq<int>, i: int): int
    requires |slots| == SLOT_NUM
  {
    if i < 0 || i >= SLOT_NUM then NO_PAGE else slots[i]
  }

  /** The table pages linked from head on, in order, are chain. */
  ghost predicate Chain(pages: Pages, head: int, chain: seq<int>) {
    && head == (if chain == [] then NO_PAGE else chain[0])
    && forall k: nat :: k < |chain| ==> Link(pages, chain, k)
  }

  ghost predicate Link(pages: Pages, chain: seq<int>, k: nat)
    requires k < |chain|
  {
    chain[k] != NO_PAGE && IsTab(pages, chain[k]) && pages[chain[k]].next == NextOf(chain, k)
  }

  function NextOf(chain: seq<int>, k: nat): int {
    if k + 1 < |chain| then chain[k + 1] else NO_PAGE
  }

  ghost predicate AllTabs(pages: Pages, chain: seq<int>) {
    forall k :: 0 <= k < |chain| ==> IsTab(pages, chain[k])
  }

  // ---- The slots of a table page.

  /** The first slot with a tuple from slot i on, or -1. */
  function NextLive(cells: seq<Option<Tuple>>, i: nat): (r: int)
    ensures r == -1 || (i <= r < |cells| && cells[r].Some?)
    ensures forall k :: i <= k < |cells| && (r == -1 || k < r) ==> cells[k].None?
    decreases |cells| - i
  {
    if i >= |cells| then -1 else if cells[i].Some? then i else NextLive(cells, i + 1)
  }

  method FindNextLive(cells: seq<Option<Tuple>>, from: nat) returns (r: int)
    ensures r == NextLive(cells, from)
  {
    var i := from;
    while i < |cells|
      invariant from <= i && NextLive(cells, from) == NextLive(cells, i)
    {
      if cells[i].Some? {
        return i;
      }
      i := i + 1;
    }
    return -1;
  }
}
