/** The link-hash index: a map from keys to tuples over a two-level directory of chained table pages. */
module LinkHashes {
  import opened TablePages
  import opened HashPages
  import opened Options
  import opened Collections
  import opened LinkHashTree

  const OP_SUCCESS := 0
  const DUP_KEY := -1
  const NEW_PG_FAIL := -2
  const TUPLE_NOT_FOUND := -3

  // ---- Chains.

  lemma ChainLinks(pages: Pages, head: int, chain: seq<int>, k: nat)
    requires Chain(pages, head, chain) && k < |chain|
    ensures IsTab(pages, chain[k]) && chain[k] != NO_PAGE && pages[chain[k]].next == NextOf(chain, k)
  {
    assert Link(pages, chain, k);
  }

  /** What a search along the chain sees: it gives up at the first empty page. */
  ghost predicate Visible(pages: Pages, chain: seq<int>, key: int)
    requires AllTabs(pages, chain)
  {
    exists k: nat :: k < |chain| && HasKey(pages[chain[k]].cells, key) && AllNonEmpty(pages, chain, k)
  }

  ghost predicate AllNonEmpty(pages: Pages, chain: seq<int>, n: nat)
    requires AllTabs(pages, chain)
  {
    forall j: nat :: j < n && j < |chain| ==> NonEmpty(pages[chain[j]].cells)
  }

  ghost predicate Present(pages: Pages, chain: seq<int>, key: int)
    requires AllTabs(pages, chain)
  {
    exists k: nat :: k < |chain| && HasKey(pages[chain[k]].cells, key)
  }

  ghost predicate FindsAll(pages: Pages, chain: seq<int>)
    requires AllTabs(pages, chain)
  {
    forall key :: Present(pages, chain, key) ==> Visible(pages, chain, key)
  }

  /** No empty page comes before one with tuples. */
  ghost predicate NoGap(pages: Pages, chain: seq<int>)
    requires AllTabs(pages, chain)
  {
    forall j: nat, k: nat :: j < k < |chain| && NonEmpty(pages[chain[k]].cells) ==> NonEmpty(pages[chain[j]].cells)
  }

  /** A search along a chain finds every key exactly if the chain has no gap. */
  lemma FindsAllIff(pages: Pages, chain: seq<int>)
    requires AllTabs(pages, chain)
    requires forall j: nat, k: nat, key: int {:trigger HasKey(pages[chain[j]].cells, key), HasKey(pages[chain[k]].cells, key)} ::
      j < k < |chain| ==> !(HasKey(pages[chain[j]].cells, key) && HasKey(pages[chain[k]].cells, key))
    ensures FindsAll(pages, chain) <==> NoGap(pages, chain)
  {
    if FindsAll(pages, chain) {
      forall j: nat, k: nat | j < k < |chain| && NonEmpty(pages[chain[k]].cells) ensures NonEmpty(pages[chain[j]].cells) {
        var t :| Some(t) in pages[chain[k]].cells;
        assert HasKey(pages[chain[k]].cells, t.key);
        assert Present(pages, chain, t.key);
        var i: nat :| i < |chain| && HasKey(pages[chain[i]].cells, t.key) && AllNonEmpty(pages, chain, i);
        assert i == k;
      }
    }
    if NoGap(pages, chain) {
      forall key | Present(pages, chain, key) ensures Visible(pages, chain, key) {
        var k: nat :| k < |chain| && HasKey(pages[chain[k]].cells, key);
        assert NonEmpty(pages[chain[k]].cells);
        assert AllNonEmpty(pages, chain, k);
      }
    }
  }

  predicate KeyAt(pages: Pages, rid: Rid, key: int) {
    && IsTab(pages, rid.pageId) && 0 <= rid.slot < |pages[rid.pageId].cells|
    && pages[rid.pageId].cells[rid.slot].Some? && pages[rid.pageId].cells[rid.slot].value.key == key
  }

  // ---- A chain that grows.

  /** A page as the pool hands it out: with whatever its frame held. */
  datatype Spare = Spare(id: int, page: Page)

  ghost predicate FullBefore(pages: Pages, chain: seq<int>, k: nat, capacity: nat)
    requires AllTabs(pages, chain)
  {
    forall j: nat :: j < k && j < |chain| ==> LiveCount(pages[chain[j]].cells) >= capacity
  }

  /** The bytes of the page read as a table page with room. */
  ghost predicate SpareFits(pages: Pages, spare: Spare, capacity: nat) {
    spare.id !in pages && spare.id != NO_PAGE && spare.page.Tab? && LiveCount(spare.page.cells) < capacity
  }

  /** The first slot without a tuple, i, has got the tuple; all other slots are the same. */
  ghost predicate CellPut(cells: seq<Option<Tuple>>, cells': seq<Option<Tuple>>, i: int, t: Tuple) {
    && 0 <= i <= |cells| && |cells'| == (if i < |cells| then |cells| else |cells| + 1) && cells'[i] == Some(t)
    && (i < |cells| ==> cells[i].None?) && (forall j :: 0 <= j < i ==> cells[j].Some?)
    && (forall j :: 0 <= j < |cells| && j != i ==> cells'[j] == cells[j])
  }

  lemma PutCellAt(cells: seq<Option<Tuple>>, t: Tuple)
    ensures CellPut(cells, PutCell(cells, t), FirstFree(cells), t)
    ensures FirstFree(cells) < |PutCell(cells, t)| && PutCell(cells, t)[FirstFree(cells)] == Some(t)
  {
  }

  /** Exactly one slot, with that key, is empty now. */
  ghost predicate CellCleared(was: Page, now: Page, key: int)
    requires was.Tab? && now.Tab?
  {
    && now.prev == was.prev && now.next == was.next && |now.cells| == |was.cells|
    && exists i :: 0 <= i < |was.cells| && was.cells[i].Some? && was.cells[i].value.key == key && now.cells == was.cells[i := None]
  }

  /** No page but those in s has changed, come or gone. */
  ghost predicate OnlyPages(pages: Pages, pages': Pages, s: set<int>) {
    forall id :: id !in s ==> (id in pages' <==> id in pages) && (id in pages ==> pages'[id] == pages[id])
  }

  /** The spare page linked behind the last page and with the tuple in it. */
  function Extended(pages: Pages, last: int, spare: Spare, t: Tuple): Pages
    requires IsTab(pages, last) && spare.page.Tab?
  {
    pages[last := pages[last].(next := spare.id)][spare.id := Tab(last, spare.page.next, PutCell(spare.page.cells, t))]
  }

  ghost predicate InBucketOf(pages: Pages, chain: seq<int>, u: Tuple)
    requires AllTabs(pages, chain)
  {
    exists k: nat :: k < |chain| && Some(u) in pages[chain[k]].cells
  }

  lemma ExtendedLinks(pages: Pages, head: int, chain: seq<int>, spare: Spare, t: Tuple)
    requires Chain(pages, head, chain) && AllTabs(pages, chain) && NoDuplicates(chain) && chain != []
    requires spare.id !in pages && spare.id != NO_PAGE && spare.page.Tab?
    ensures var pages' := Extended(pages, chain[|chain| - 1], spare, t);
      AllTabs(pages', chain + [spare.id]) && (Chain(pages', head, chain + [spare.id]) <==> spare.page.next == NO_PAGE)
  {
    var n := |chain|;
    var pages', chain' := Extended(pages, chain[n - 1], spare, t), chain + [spare.id];
    forall k: nat | k < n ensures Link(pages', chain', k) {
      assert Link(pages, chain, k);
    }
    assert Link(pages', chain', n) <==> spare.page.next == NO_PAGE;
  }

  lemma ExtendedPages(pages: Pages, last: int, spare: Spare, t: Tuple)
    requires IsTab(pages, last) && spare.id !in pages && spare.page.Tab?
    ensures var pages' := Extended(pages, last, spare, t);
      && OnlyPages(pages, pages', {last, spare.id}) && last != spare.id && last in pages' && pages'[last] == pages[last].(next := spare.id)
      && IsTab(pages', spare.id) && pages'[spare.id].prev == last
  {
  }

  lemma ExtendedTuple(pages: Pages, chain: seq<int>, spare: Spare, t: Tuple, u: Tuple)
    requires AllTabs(pages, chain) && chain != [] && spare.id !in pages && spare.page.Tab?
    requires AllTabs(Extended(pages, chain[|chain| - 1], spare, t), chain + [spare.id])
    ensures InBucketOf(Extended(pages, chain[|chain| - 1], spare, t), chain + [spare.id], u) <==>
      InBucketOf(pages, chain, u) || u == t || Some(u) in spare.page.cells
  {
    hide PutCell;
    PutCellExact(spare.page.cells, t);
    var n := |chain|;
    var pages', chain' := Extended(pages, chain[n - 1], spare, t), chain + [spare.id];
    assert chain'[n] == spare.id;
    forall k: nat | k < n ensures chain'[k] == chain[k] && pages'[chain'[k]].cells == pages[chain[k]].cells {
    }
    if InBucketOf(pages, chain, u) {
      var k: nat :| k < n && Some(u) in pages[chain[k]].cells;
      assert Some(u) in pages'[chain'[k]].cells;
    }
    if u == t || Some(u) in spare.page.cells {
      assert Some(u) in pages'[chain'[n]].cells;
    }
  }

  /** The longer bucket has the old tuples and the new one, and no other. */
  ghost predicate OneMore(pages: Pages, chain: seq<int>, pages': Pages, chain': seq<int>, t: Tuple)
    requires AllTabs(pages, chain) && AllTabs(pages', chain')
  {
    forall u :: InBucketOf(pages', chain', u) <==> u == t || InBucketOf(pages, chain, u)
  }

  /**
   * The page is not initialised, so the longer chain ends with it exactly if its bytes name no next page, and the
   * bucket gains the new tuple only exactly if its bytes show no foreign tuple.
   */
  lemma ExtendedIff(pages: Pages, head: int, chain: seq<int>, spare: Spare, t: Tuple)
    requires Chain(pages, head, chain) && AllTabs(pages, chain) && NoDuplicates(chain) && chain != []
    requires spare.id !in pages && spare.id != NO_PAGE && spare.page.Tab?
    ensures var last := chain[|chain| - 1]; var pages' := Extended(pages, last, spare, t);
      && OnlyPages(pages, pages', {last, spare.id}) && last != spare.id && last in pages' && pages'[last] == pages[last].(next := spare.id)
      && IsTab(pages', spare.id) && pages'[spare.id].prev == last
    ensures var pages' := Extended(pages, chain[|chain| - 1], spare, t);
      AllTabs(pages', chain + [spare.id]) && (Chain(pages', head, chain + [spare.id]) <==> spare.page.next == NO_PAGE)
    ensures OneMore(pages, chain, Extended(pages, chain[|chain| - 1], spare, t), chain + [spare.id], t) <==>
      forall u :: Some(u) in spare.page.cells ==> u == t || InBucketOf(pages, chain, u)
  {
    hide Chain, Extended, InBucketOf;
    var pages', chain' := Extended(pages, chain[|chain| - 1], spare, t), chain + [spare.id];
    ExtendedLinks(pages, head, chain, spare, t);
    ExtendedPages(pages, chain[|chain| - 1], spare, t);
    forall u ensures InBucketOf(pages', chain', u) <==> InBucketOf(pages, chain, u) || u == t || Some(u) in spare.page.cells {
      ExtendedTuple(pages, chain, spare, t, u);
    }
    if OneMore(pages, chain, pages', chain', t) {
      forall u | Some(u) in spare.page.cells ensures u == t || InBucketOf(pages, chain, u) {
        assert InBucketOf(pages', chain', u);
      }
    }
  }

  /** A chain is extended when all its pages are full, so that a search still gets to every key of the longer one. */
  lemma ExtendedFinds(pages: Pages, chain: seq<int>, spare: Spare, t: Tuple, capacity: nat)
    requires AllTabs(pages, chain) && chain != [] && spare.id !in pages && spare.page.Tab?
    requires capacity > 0 && FullBefore(pages, chain, |chain|, capacity)
    ensures var pages' := Extended(pages, chain[|chain| - 1], spare, t);
      AllTabs(pages', chain + [spare.id]) && FindsAll(pages', chain + [spare.id]) && Visible(pages', chain + [spare.id], t.key)
  {
    hide PutCell;
    PutCellExact(spare.page.cells, t);
    var n := |chain|;
    var pages', chain' := Extended(pages, chain[n - 1], spare, t), chain + [spare.id];
    forall j: nat | j < n ensures NonEmpty(pages'[chain'[j]].cells) {
      assert LiveCount(pages[chain[j]].cells) >= capacity;
      LiveCountZero(pages[chain[j]].cells);
    }
    assert AllNonEmpty(pages', chain', n);
    assert HasKey(pages'[chain'[n]].cells, t.key);
  }

  /** A bucket of two pages, the first of them empty: the tuple of the second is there and is not seen. */
  lemma GapHides(t: Tuple)
    ensures var pages := map[1 := Tab(NO_PAGE, 2, []), 2 := Tab(1, NO_PAGE, [Some(t)])];
      && Chain(pages, 1, [1, 2]) && AllTabs(pages, [1, 2])
      && Present(pages, [1, 2], t.key) && !Visible(pages, [1, 2], t.key)
  {
    var pages := map[1 := Tab(NO_PAGE, 2, []), 2 := Tab(1, NO_PAGE, [Some(t)])];
    var chain := [1, 2];
    assert forall k: nat :: k < 2 ==> Link(pages, chain, k);
    assert Some(t) == [Some(t)][0];
    assert HasKey(pages[chain[1]].cells, t.key);
    assert !NonEmpty(pages[chain[0]].cells);
    Hidden(pages, chain, 0, t.key);
  }

  // ---- One page.

  /** The loop over the tuples of a page: the first slot with this key, or -1. */
  method FindInPage(cells: seq<Option<Tuple>>, key: int) returns (slot: int)
    ensures slot == -1 || (0 <= slot < |cells| && cells[slot].Some? && cells[slot].value.key == key)
    ensures slot == -1 <==> !HasKey(cells, key)
  {
    slot := FindNextLive(cells, 0);
    while slot >= 0
      invariant slot == -1 || (0 <= slot < |cells| && cells[slot].Some?)
      invariant forall i :: 0 <= i < |cells| && (slot == -1 || i < slot) && cells[i].Some? ==> cells[i].value.key != key
      decreases if slot < 0 then 0 else |cells| - slot
    {
      if cells[slot].value.key == key {
        assert Some(cells[slot].value) in cells;
        return;
      }
      slot := FindNextLive(cells, slot + 1);
    }
  }

  // ---- Pin counts.

  /** A page fetched, or a new page. */
  function Pinned(pins: map<int, nat>, id: int): map<int, nat> {
    pins[id := if id in pins then pins[id] + 1 else 1]
  }

  function Unpinned(pins: map<int, nat>, id: int): map<int, nat>
    requires id in pins && pins[id] > 0
  {
    pins[id := pins[id] - 1]
  }

  /** The pin counts of all pages in pins, and none of the other pages pinned. */
  ghost predicate PinsKept(pins: map<int, nat>, pins': map<int, nat>) {
    forall id :: id in pins' ==> pins'[id] == if id in pins then pins[id] else 0
  }

  /** Every page of s pinned once more. */
  ghost function PinSet(pins: map<int, nat>, s: set<int>): map<int, nat> {
    map id | id in pins :: pins[id] + if id in s then 1 else 0
  }

  ghost function Prefix(chain: seq<int>, n: nat): set<int>
    requires n <= |chain|
  {
    set k | 0 <= k < n :: chain[k]
  }

  lemma PrefixNext(pins: map<int, nat>, chain: seq<int>, n: nat)
    requires n < |chain| && chain[n] in pins && NoDuplicates(chain)
    ensures chain[n] !in Prefix(chain, n) && Prefix(chain, n + 1) == Prefix(chain, n) + {chain[n]}
    ensures chain[n] in PinSet(pins, Prefix(chain, n)) && PinSet(pins, Prefix(chain, n))[chain[n]] == pins[chain[n]]
    ensures PinSet(pins, Prefix(chain, n + 1)) == PinSet(pins, Prefix(chain, n))[chain[n] := pins[chain[n]] + 1]
  {
    assert Prefix(chain, n + 1) == Prefix(chain, n) + {chain[n]};
  }

  lemma PinsSame(pins: map<int, nat>, pins': map<int, nat>)
    requires PinsKept(pins, pins') && pins.Keys == pins'.Keys
    ensures pins' == pins
  {
    assert forall id :: id in pins ==> id in pins' && pins'[id] == pins[id];
  }

  lemma PinsExtended(pins: map<int, nat>, pins': map<int, nat>, id: int)
    requires PinsKept(pins, pins') && pins.Keys == pins'.Keys && id !in pins
    ensures pins'[id := 0] == pins[id := 0] && PinsKept(pins, pins'[id := 0])
  {
    PinsSame(pins, pins');
  }

  lemma PinRoundTrip(pins: map<int, nat>, id: int)
    requires id in pins
    ensures pins[id := pins[id] + 1][id := pins[id]] == pins
  {
  }

  class LinkHashIndex {
    const first: int
    const hash: Hash
    const capacity: nat // tuples of one table page
    var pages: Pages
    var pins: map<int, nat>
    ghost var model: map<int, Tuple>

    /** A new index is the empty map. */
    constructor (first: int, hash: Hash, capacity: nat)
      requires first != NO_PAGE && capacity > 0
      ensures Valid() && model == map[] && pins == map[first := 0]
    {
      this.first, this.hash, this.capacity := first, hash, capacity;
      pages, pins, model := map[first := EmptyDir()], map[first := 0], map[];
    }

    // ---- The buffer pool.

    method GetPage(id: int)
      requires id in pins
      modifies this`pins
      ensures pins == old(pins)[id := old(pins)[id] + 1]
    {
      pins := pins[id := pins[id] + 1];
    }

    method UnpinPage(id: int)
      requires id in pins && pins[id] > 0
      modifies this`pins
      ensures pins == old(pins)[id := old(pins)[id] - 1]
    {
      pins := pins[id := pins[id] - 1];
    }

    // ---- Searching.

    /** The loop along a chain; every page is unpinned again. */
    method FindInChain(key: int, start: int, ghost chain: seq<int>) returns (found: bool, rid: Rid)
      requires pins.Keys == pages.Keys && Chain(pages, start, chain) && AllTabs(pages, chain)
      modifies this`pins
      ensures pins == old(pins)
      ensures found <==> Visible(pages, chain, key)
      ensures found ==> rid.pageId in chain && KeyAt(pages, rid, key)
    {
      hide Chain, HasKey, NonEmpty;
      var cur := start;
      ghost var k := 0;
      ChainHead(pages, start, chain);
      while cur != NO_PAGE
        invariant k <= |chain| && cur == (if k < |chain| then chain[k] else NO_PAGE)
        invariant pins == old(pins) && AllNonEmpty(pages, chain, k)
        invariant forall j: nat :: j < k ==> !HasKey(pages[chain[j]].cells, key)
        decreases |chain| - k
      {
        ChainLinks(pages, start, chain, k);
        PinRoundTrip(pins, cur);
        GetPage(cur);
        var cells := pages[cur].cells;
        var slot := FindNextLive(cells, 0);
        LiveIffNonEmpty(cells);
        if slot < 0 {
          UnpinPage(cur);
          Hidden(pages, chain, k, key);
          return false, NO_RID;
        }
        slot := FindInPage(cells, key);
        if slot >= 0 {
          UnpinPage(cur);
          return true, Rid(cur, slot);
        }
        var next := pages[cur].next;
        UnpinPage(cur);
        cur := next;
        k := k + 1;
      }
      if k < |chain| {
        ChainLinks(pages, start, chain, k);
      }
      return false, NO_RID;
    }

    // ---- The index.

    ghost predicate Valid()
      reads this
    {
      && capacity > 0 && pins.Keys == pages.Keys
      && IndexInv(pages, first, hash) && Refines(pages, first, hash, model)
    }

    /** lk_ha_check_duplicate_key on a bucket of any length. */
    method CheckDuplicate(key: int, ghost chain: seq<int>) returns (found: bool, rid: Rid)
      requires pins.Keys == pages.Keys && DirShape(pages, first) && AllTabs(pages, chain)
      requires var s := HashToSlot(hash(key)); Chain(pages, Bucket(pages, first, s.a, s.b), chain)
      modifies this`pins
      ensures pins == old(pins)
      ensures found <==> Visible(pages, chain, key)
      ensures found ==> rid.pageId in chain && KeyAt(pages, rid, key)
    {
      hide Visible, AllTabs, KeyAt, HashToSlot;
      var s := HashToSlot(hash(key));
      PinRoundTrip(pins, first);
      GetPage(first);
      var second := PgidInSlot(pages[first].slots, s.a);
      UnpinPage(first);
      assert SecondOK(pages, first, s.a);
      if second == NO_PAGE {
        NothingVisible(pages, chain, key);
        return false, NO_RID;
      }
      PinRoundTrip(pins, second);
      GetPage(second);
      var third := PgidInSlot(pages[second].slots, s.b);
      UnpinPage(second);
      found, rid := FindInChain(key, third, chain);
    }

    /** The tuple last inserted with this key, if it is still there. */
    method GetTuple(key: int) returns (code: int, tuple: Tuple, rid: Rid)
      requires Valid()
      modifies this`pins
      ensures Valid() && pins == old(pins)
      ensures code == (if key in model then OP_SUCCESS else TUPLE_NOT_FOUND)
      ensures key in model ==> tuple == model[key] && KeyAt(pages, rid, key) && pages[rid.pageId].cells[rid.slot] == Some(tuple)
      ensures key in model ==> var s := HashToSlot(hash(key)); rid.pageId == Bucket(pages, first, s.a, s.b)
    {
      hide IndexInv, Refines, Visible, AllTabs, HashToSlot, Bucket, DirShape;
      tuple := Tuple(0, []);
      InvShape(pages, first, hash);
      ghost var s := HashToSlot(hash(key));
      ghost var chain := BucketChain(pages, first, s.a, s.b);
      OnePage(pages, first, hash, s.a, s.b, key);
      KeyInBucket(pages, first, hash, model, key);
      var found;
      found, rid := CheckDuplicate(key, chain);
      if !found {
        return TUPLE_NOT_FOUND, tuple, rid;
      }
      PinRoundTrip(pins, rid.pageId);
      GetPage(rid.pageId);
      tuple := pages[rid.pageId].cells[rid.slot].value;
      UnpinPage(rid.pageId);
      FoundIsStored(pages, first, hash, model, key, rid);
      code := OP_SUCCESS;
    }

    // ---- Inserting.

    /** The second-level page of slot a, created if there is none; it stays pinned. */
    method EnsureSecond(a: nat, ghost b: nat, newId: int) returns (second: int)
      requires pins.Keys == pages.Keys && Tree(pages, first) && a < SLOT_NUM && b < SLOT_NUM && newId !in pages && newId != NO_PAGE
      modifies this`pages, this`pins
      ensures pins.Keys == pages.Keys && Tree(pages, first) && second == pages[first].slots[a] != NO_PAGE
      ensures Prepared(old(pages), pages, first, a, b)
      ensures pages == if old(pages)[first].slots[a] == NO_PAGE then GrowSecond(old(pages), first, a, newId) else old(pages)
      ensures second == newId || second in old(pages)
      ensures pins == Pinned(old(pins), second)
    {
      hide Tree, Prepared;
      TreeShape(pages, first);
      GetPage(first);
      second := PgidInSlot(pages[first].slots, a);
      if second == NO_PAGE {
        GrowSecondPrepares(pages, first, a, b, newId);
        pages := GrowSecond(pages, first, a, newId);
        pins := pins[newId := 1];
        second := newId;
      } else {
        assert SecondOK(pages, first, a);
        PreparedSame(pages, first, a, b);
        GetPage(second);
      }
      UnpinPage(first);
    }

    /** The first table page of slots (a, b), created if there is none; it stays pinned, the second-level page does not. */
    method EnsureBucket(second: int, a: nat, b: nat, newId: int) returns (third: int)
      requires pins.Keys == pages.Keys && Tree(pages, first) && a < SLOT_NUM && b < SLOT_NUM && newId !in pages && newId != NO_PAGE
      requires second == pages[first].slots[a] != NO_PAGE && second in pins && pins[second] > 0
      modifies this`pages, this`pins
      ensures pins.Keys == pages.Keys && Tree(pages, first) && third == Bucket(pages, first, a, b) != NO_PAGE
      ensures IsDir(old(pages), second) && second != third && Prepared(old(pages), pages, first, a, b)
      ensures pages == if old(Bucket(pages, first, a, b)) == NO_PAGE then AddBucket(old(pages), first, a, b, newId) else old(pages)
      ensures third == newId || third in old(pages)
      ensures pins == Pinned(Unpinned(old(pins), second), third)
    {
      hide Tree, Prepared;
      TreeShape(pages, first);
      assert SecondOK(pages, first, a);
      third := PgidInSlot(pages[second].slots, b);
      assert third == Bucket(pages, first, a, b);
      if third == NO_PAGE {
        AddBucketPrepares(pages, first, a, b, newId);
        pages := AddBucket(pages, first, a, b, newId);
        pins := pins[newId := 1];
        third := newId;
      } else {
        TreeTab(pages, first, a, b);
        PreparedSame(pages, first, a, b);
        GetPage(third);
      }
      UnpinPage(second);
    }

    /** Walks to the first page of the chain with room, or else to the last page; only that page stays pinned. */
    method FindRoom(start: int, ghost chain: seq<int>) returns (cur: int, ghost k: nat)
      requires pins.Keys == pages.Keys && Chain(pages, start, chain) && AllTabs(pages, chain) && start in pins && pins[start] > 0
      requires chain != []
      modifies this`pins
      ensures k < |chain| && cur == chain[k] && FullBefore(pages, chain, k, capacity)
      ensures LiveCount(pages[cur].cells) >= capacity ==> k == |chain| - 1
      ensures pins == Pinned(Unpinned(old(pins), start), cur)
    {
      hide Chain, LiveCount;
      ChainHead(pages, start, chain);
      cur, k := start, 0;
      ChainLinks(pages, start, chain, 0);
      while LiveCount(pages[cur].cells) >= capacity
        invariant k < |chain| && cur == chain[k] && IsTab(pages, cur) && FullBefore(pages, chain, k, capacity)
        invariant pins == Pinned(Unpinned(old(pins), start), cur)
        decreases |chain| - k
      {
        ChainLinks(pages, start, chain, k);
        var next := pages[cur].next;
        if k + 1 < |chain| {
          ChainLinks(pages, start, chain, k + 1);
        }
        if next == NO_PAGE {
          return;
        }
        GetPage(next);
        UnpinPage(cur);
        cur, k := next, k + 1;
      }
    }

    /**
     * The first page of the chain with room takes the tuple. Without room, a page that the pool hands out is linked
     * behind the last one as it is and takes the tuple; without such a page the insertion fails.
     */
    method InsertIntoChain(t: Tuple, start: int, spare: Option<Spare>, ghost chain: seq<int>) returns (code: int, rid: Rid, ghost k: nat)
      requires pins.Keys == pages.Keys && Chain(pages, start, chain) && AllTabs(pages, chain) && start in pins && pins[start] > 0
      requires chain != [] && (spare.Some? && FullBefore(pages, chain, |chain|, capacity) ==> SpareFits(pages, spare.value, capacity))
      modifies this`pages, this`pins
      ensures k <= |chain| && FullBefore(old(pages), chain, k, capacity)
      ensures k < |chain| ==> LiveCount(old(pages)[chain[k]].cells) < capacity && code == OP_SUCCESS
      ensures k < |chain| ==> pages == WithCells(old(pages), chain[k], PutCell(old(pages)[chain[k]].cells, t))
      ensures k == |chain| ==> code == if spare.Some? then OP_SUCCESS else NEW_PG_FAIL
      ensures k == |chain| ==> pages == if spare.Some? then Extended(old(pages), chain[|chain| - 1], spare.value, t) else old(pages)
      ensures code == OP_SUCCESS ==> KeyAt(pages, rid, t.key) && pages[rid.pageId].cells[rid.slot] == Some(t)
      ensures code == OP_SUCCESS ==> rid.pageId == if k < |chain| then chain[k] else spare.value.id
      ensures pins == if k == |chain| && spare.Some? then Unpinned(old(pins), start)[spare.value.id := 0] else Unpinned(old(pins), start)
      ensures k < |chain| ==>
        && OnlyPages(old(pages), pages, {chain[k]}) && IsTab(pages, chain[k])
        && pages[chain[k]].prev == old(pages)[chain[k]].prev && pages[chain[k]].next == old(pages)[chain[k]].next
        && CellPut(old(pages)[chain[k]].cells, pages[chain[k]].cells, rid.slot, t)
      ensures k == |chain| && spare.Some? ==>
        && OnlyPages(old(pages), pages, {chain[k - 1], spare.value.id}) && chain[k - 1] != spare.value.id
        && pages[chain[k - 1]] == old(pages)[chain[k - 1]].(next := spare.value.id)
        && IsTab(pages, spare.value.id) && pages[spare.value.id].prev == chain[k - 1] && pages[spare.value.id].next == spare.value.page.next
        && CellPut(spare.value.page.cells, pages[spare.value.id].cells, rid.slot, t)
    {
      hide Chain, LiveCount, PutCell, CellPut;
      var cur;
      cur, k := FindRoom(start, chain);
      var cells := pages[cur].cells;
      if LiveCount(cells) < capacity {
        rid := Rid(cur, FirstFree(cells));
        PutCellAt(cells, t);
        pages := pages[cur := pages[cur].(cells := PutCell(cells, t))];
        UnpinPage(cur);
        return OP_SUCCESS, rid, k;
      }
      k := |chain|;
      if spare.None? {
        UnpinPage(cur);
        return NEW_PG_FAIL, NO_RID, k;
      }
      var id := spare.value.id;
      pages := pages[cur := pages[cur].(next := id)][id := spare.value.page.(prev := cur)];
      pins := pins[id := 1];
      UnpinPage(cur);
      cells := pages[id].cells;
      rid := Rid(id, FirstFree(cells));
      PutCellAt(cells, t);
      pages := pages[id := pages[id].(cells := PutCell(cells, t))];
      UnpinPage(id);
      code := OP_SUCCESS;
    }

    /** Both levels of the directory, with the table page of the bucket pinned and nothing else. */
    method PrepareBucket(a: nat, b: nat, newSecond: int, newTable: int) returns (third: int)
      requires pins.Keys == pages.Keys && Tree(pages, first) && a < SLOT_NUM && b < SLOT_NUM
      requires newSecond !in pages && newTable !in pages && newSecond != newTable && newSecond != NO_PAGE && newTable != NO_PAGE
      modifies this`pages, this`pins
      ensures pins.Keys == pages.Keys && old(pins).Keys <= pins.Keys && Tree(pages, first)
      ensures Prepared(old(pages), pages, first, a, b) && third == Bucket(pages, first, a, b) != NO_PAGE
      ensures third in pins && pins[third] > 0 && PinsKept(old(pins), Unpinned(pins, third))
      ensures old(Bucket(pages, first, a, b)) != NO_PAGE ==> pages == old(pages)
    {
      hide Bucket, DirShape, Tree, Prepared;
      ghost var p := pages;
      TreeShape(pages, first);
      NeedsSecond(p, first, a, b);
      var second := EnsureSecond(a, b, newSecond);
      ghost var q := pages;
      TreeShape(pages, first);
      third := EnsureBucket(second, a, b, newTable);
      TreeShape(pages, first);
      PreparedTrans(p, q, pages, first, a, b);
    }

    /** The page of the key's bucket. */
    ghost function PageOf(key: int): int
      requires Valid()
      reads this
    {
      var s := HashToSlot(hash(key));
      Bucket(pages, first, s.a, s.b)
    }

    /** The bucket of the key has no page yet, or its page has room for another tuple. */
    ghost predicate Room(key: int)
      requires Valid()
      reads this
    {
      var id := PageOf(key);
      id != NO_PAGE ==> IsTab(pages, id) && LiveCount(pages[id].cells) < capacity
    }

    /** The key is new, its bucket is full and the pool has a page. */
    ghost predicate Extends(key: int, spare: Option<Spare>)
      requires Valid()
      reads this
    {
      key !in model && !Room(key) && spare.Some?
    }

    /**
     * newSecond, newTable and spare are the pages the pool would hand out. A key in the map is refused and nothing
     * changes; otherwise, if its bucket has room, the map has the tuple under its key. Without room, the spare page
     * is linked as it is behind the full one and takes the tuple; without such a page the insertion fails and
     * nothing changes. No page keeps a pin.
     */
    method InsertTuple(t: Tuple, newSecond: int, newTable: int, spare: Option<Spare>) returns (code: int, rid: Rid)
      requires Valid() && (Extends(t.key, spare) ==> SpareFits(pages, spare.value, capacity))
      requires newSecond !in pages && newTable !in pages && newSecond != newTable && newSecond != NO_PAGE && newTable != NO_PAGE
      modifies this
      ensures !old(Extends(t.key, spare)) ==> Valid()
      ensures old(Extends(t.key, spare)) ==>
        && IsTab(old(pages), old(PageOf(t.key))) && pages == Extended(old(pages), old(PageOf(t.key)), spare.value, t)
        && rid.pageId == spare.value.id && pins == old(pins)[spare.value.id := 0]
      ensures code == if t.key in old(model) then DUP_KEY else if old(Room(t.key)) || spare.Some? then OP_SUCCESS else NEW_PG_FAIL
      ensures code == DUP_KEY || code == NEW_PG_FAIL ==> model == old(model) && pages == old(pages) && pins == old(pins)
      ensures code == OP_SUCCESS ==> model == old(model)[t.key := t] && KeyAt(pages, rid, t.key) && pages[rid.pageId].cells[rid.slot] == Some(t)
      ensures PinsKept(old(pins), pins) && old(pins).Keys <= pins.Keys
    {
      hide IndexInv, Refines, Visible, AllTabs, HashToSlot, Bucket, DirShape, Tree, Prepared, LiveCount, HasKey, PutCell;
      InvShape(pages, first, hash);
      var s := HashToSlot(hash(t.key));
      ghost var p := pages;
      OnePage(pages, first, hash, s.a, s.b, t.key);
      KeyInBucket(pages, first, hash, model, t.key);
      var found;
      found, rid := CheckDuplicate(t.key, BucketChain(pages, first, s.a, s.b));
      if found {
        return DUP_KEY, rid;
      }
      var third := PrepareBucket(s.a, s.b, newSecond, newTable);
      TreeShape(pages, first);
      PreparedChain(p, pages, first, hash, s.a, s.b, capacity);
      InsertRefines(p, pages, first, hash, model, s.a, s.b, third, t);
      ghost var k;
      assert FullBefore(pages, [third], 1, capacity) ==> LiveCount(pages[[third][0]].cells) >= capacity;
      ghost var pinned := pins;
      code, rid, k := InsertIntoChain(t, third, spare, [third]);
      if code == OP_SUCCESS {
        model := model[t.key := t];
        if old(Extends(t.key, spare)) {
          PinsExtended(old(pins), Unpinned(pinned, third), spare.value.id);
        }
      } else {
        PinsSame(old(pins), pins);
      }
    }

    // ---- Deleting.

    /** Pins the empty pages at the front of the chain, and the first page with tuples if there is one. */
    method CollectEmpty(start: int, ghost chain: seq<int>) returns (empty: seq<int>, checked: int)
      requires pins.Keys == pages.Keys && Chain(pages, start, chain) && AllTabs(pages, chain) && chain != [] && NoDuplicates(chain)
      modifies this`pins
      ensures var e := FirstFull(pages, chain, 0);
        && empty == chain[..e] && checked == (if e < |chain| then chain[e] else NO_PAGE) && (checked == NO_PAGE <==> e == |chain|)
        && pins == PinSet(old(pins), Prefix(chain, if e < |chain| then e + 1 else e))
    {
      hide Chain, AllTabs, LiveCount, Prefix, PinSet, NoDuplicates, FirstFull;
      ChainHead(pages, start, chain);
      ChainLinks(pages, start, chain, 0);
      empty, checked := [], start;
      NonePinned(pins, chain);
      PrefixNext(pins, chain, 0);
      GetPage(checked);
      ghost var k := 0;
      while LiveCount(pages[checked].cells) == 0
        invariant k < |chain| && checked == chain[k] && IsTab(pages, checked) && empty == chain[..k] && FirstFull(pages, chain, 0) == FirstFull(pages, chain, k)
        invariant pins == PinSet(old(pins), Prefix(chain, k + 1))
        decreases |chain| - k
      {
        empty := empty + [checked];
        EmptyStep(pages, chain, k);
        ChainLinks(pages, start, chain, k);
        checked := pages[checked].next;
        k := k + 1;
        if checked == NO_PAGE {
          if k < |chain| {
            ChainLinks(pages, start, chain, k);
          }
          assert chain[..k] == chain;
          break;
        }
        ChainLinks(pages, start, chain, k);
        PrefixNext(old(pins), chain, k);
        GetPage(checked);
      }
      if k < |chain| {
        ChainLinks(pages, start, chain, k);
      }
    }

    /** Succeeds exactly if nobody has pinned the page. */
    method DeletePage(id: int) returns (ok: bool)
      requires id in pages && id in pins
      modifies this`pages, this`pins
      ensures ok <==> old(pins)[id] == 0
      ensures pages == (if ok then old(pages) - {id} else old(pages)) && pins == (if ok then old(pins) - {id} else old(pins))
    {
      if pins[id] != 0 {
        return false;
      }
      pages, pins := pages - {id}, pins - {id};
      return true;
    }

    method DeletePages(empty: seq<int>)
      requires pins.Keys == pages.Keys && NoDuplicates(empty) && forall k :: 0 <= k < |empty| ==> empty[k] in pins && pins[empty[k]] == 1
      modifies this`pages, this`pins
      ensures pages == old(pages) - Prefix(empty, |empty|) && pins == old(pins) - Prefix(empty, |empty|)
    {
      for i := 0 to |empty|
        invariant pages == old(pages) - Prefix(empty, i) && pins == old(pins) - Prefix(empty, i)
      {
        var id := empty[i];
        assert id !in Prefix(empty, i);
        UnpinPage(id);
        var ok := DeletePage(id);
        assert Prefix(empty, i + 1) == Prefix(empty, i) + {id};
      }
    }

    /** Deletes the empty pages at the front of the chain; the page behind them stays pinned. */
    method RemoveEmpty(second: int, start: int, ghost chain: seq<int>, ghost p: map<int, nat>) returns (checked: int)
      requires pins.Keys == pages.Keys && IsDir(pages, second) && p.Keys == pages.Keys && pins == p[second := p[second] + 1]
      requires Chain(pages, start, chain) && AllTabs(pages, chain) && chain != [] && NoDuplicates(chain)
      requires forall k :: 0 <= k < FirstFull(pages, chain, 0) ==> chain[k] in p && p[chain[k]] == 0
      modifies this`pages, this`pins
      ensures var e := FirstFull(old(pages), chain, 0);
        && pages == old(pages) - Prefix(chain, e) && pins == Collected(p, second, chain, e) - Prefix(chain, e)
        && checked == (if e < |chain| then chain[e] else NO_PAGE) && (checked == NO_PAGE <==> e == |chain|)
    {
      hide Chain, AllTabs, Prefix, PinSet, FirstFull, NoDuplicates;
      var empty;
      ghost var e := FirstFull(pages, chain, 0);
      empty, checked := CollectEmpty(start, chain);
      CollectedEmpty(pages, p, second, chain, e);
      CollectedRest(pages, p, second, chain, e);
      if |empty| > 0 {
        DeletePages(empty);
      }
    }

    /**
     * lk_ha_clear_empty_page on a bucket of any length: the empty pages at its front are deleted and the slot
     * refers to the first page with tuples.
     */
    method ClearEmptyPage(a: nat, b: nat, ghost chain: seq<int>)
      requires pins.Keys == pages.Keys && DirShape(pages, first) && a < SLOT_NUM && b < SLOT_NUM
      requires Chain(pages, Bucket(pages, first, a, b), chain) && AllTabs(pages, chain) && chain != [] && NoDuplicates(chain)
      requires forall k :: 0 <= k < FirstFull(pages, chain, 0) ==> chain[k] in pins && pins[chain[k]] == 0
      modifies this`pages, this`pins
      ensures IsDir(old(pages), old(pages)[first].slots[a])
      ensures pages == Cleared(old(pages), old(pages)[first].slots[a], b, chain, FirstFull(old(pages), chain, 0))
      ensures pins == old(pins) - Prefix(chain, FirstFull(old(pages), chain, 0))
    {
      hide Chain, AllTabs, Prefix, Collected, FirstFull, NoDuplicates, DirShape, Bucket;
      BucketSecond(pages, first, a, b, chain);
      ghost var p, n, e := pages, pins, FirstFull(pages, chain, 0);
      PinRoundTrip(pins, first);
      GetPage(first);
      var second := PgidInSlot(pages[first].slots, a);
      UnpinPage(first);
      GetPage(second);
      var checked := RemoveEmpty(second, PgidInSlot(pages[second].slots, b), chain, n);
      CollectedRest(p, n, second, chain, e);
      CollectedUnpinned(p, n, second, chain, e);
      pages := pages[second := Dir(pages[second].slots[b := checked])];
      if checked == NO_PAGE {
        UnpinPage(second);
        return;
      }
      pages := pages[checked := pages[checked].(prev := NO_PAGE)];
      UnpinPage(checked);
      UnpinPage(second);
    }

    /** Nobody else uses the page of the key's bucket. */
    ghost predicate Unused(key: int)
      requires Valid()
      reads this
    {
      var id := PageOf(key);
      id in pins ==> pins[id] == 0
    }

    /** The page of the key's bucket holds one tuple. */
    ghost predicate LastTuple(key: int)
      requires Valid()
      reads this
    {
      var id := PageOf(key);
      IsTab(pages, id) && LiveCount(pages[id].cells) == 1
    }

    /**
     * The map loses the key and nothing else; a page that becomes empty leaves the index. For such a page the
     * caller has waited until nobody else uses it.
     */
    method ApplyDelete(key: int)
      requires Valid() && (key in model && LastTuple(key) ==> Unused(key))
      modifies this
      ensures Valid() && model == old(model) - {key}
      ensures key !in old(model) ==> pages == old(pages)
      ensures PinsKept(old(pins), pins) && pins.Keys <= old(pins).Keys
      ensures key in old(model) && old(LastTuple(key)) ==> pages.Keys == old(pages).Keys - {old(PageOf(key))}
      ensures key in old(model) && !old(LastTuple(key)) ==>
        && OnlyPages(old(pages), pages, {old(PageOf(key))}) && IsTab(old(pages), old(PageOf(key))) && IsTab(pages, old(PageOf(key)))
        && CellCleared(old(pages)[old(PageOf(key))], pages[old(PageOf(key))], key)
    {
      hide IndexInv, Refines, HashToSlot, Bucket, DirShape, Tree, LiveCount, HasKey, NonEmpty, Chain;
      InvShape(pages, first, hash);
      var code, tuple, rid := GetTuple(key);
      if code != OP_SUCCESS {
        assert model - {key} == model;
        return;
      }
      var s := HashToSlot(hash(key));
      ghost var p, n := pages, pins;
      var id := rid.pageId;
      GetPage(id);
      var cells := pages[id].cells[rid.slot := None];
      pages := WithCells(pages, id, cells);
      var count := LiveCount(cells);
      UnpinPage(id);
      LiveCountZero(cells);
      LiveCountClear(p[id].cells, rid.slot);
      InBucket(p, first, id);
      if count != 0 {
        ClearRefines(p, first, hash, model, s.a, s.b, id, rid.slot);
      } else {
        DropRefines(p, first, hash, model, s.a, s.b, id, rid.slot);
        ghost var q := pages;
        InvShape(p, first, hash);
        TreeShape(q, first);
        LastPage(p, q, first, hash, s.a, s.b, id);
        ClearEmptyPage(s.a, s.b, [id]);
        DroppedIsCleared(q, first, s.a, s.b, id);
      }
      model := model - {key};
    }
  }

  lemma InBucket(pages: Pages, first: int, id: int)
    requires DirShape(pages, first) && IsTab(pages, id)
    ensures id != NO_PAGE
  {
  }

  /** An emptied bucket of one page is a chain that clearing removes altogether. */
  lemma LastPage(p: Pages, q: Pages, first: int, hash: Hash, a: nat, b: nat, id: int)
    requires IndexInv(p, first, hash) && DirShape(p, first) && DirShape(q, first) && a < SLOT_NUM && b < SLOT_NUM
    requires Bucket(p, first, a, b) == Bucket(q, first, a, b) == id != NO_PAGE && IsTab(p, id) && IsTab(q, id)
    requires q[id].next == p[id].next && LiveCount(q[id].cells) == 0
    ensures Chain(q, id, [id]) && AllTabs(q, [id]) && NoDuplicates([id]) && FirstFull(q, [id], 0) == 1
  {
    hide DirShape, Bucket, HashToSlot, LiveCount, Tree;
    assert BucketOK(p, first, hash, a, b);
    assert forall k: nat :: k < |[id]| ==> Link(q, [id], k);
    EmptyStep(q, [id], 0);
  }

  lemma DroppedIsCleared(q: Pages, first: int, a: nat, b: nat, id: int)
    requires IsDir(q, first) && a < SLOT_NUM && b < SLOT_NUM && IsDir(q, q[first].slots[a]) && IsTab(q, id)
    requires AllTabs(q, [id]) && NoDuplicates([id])
    ensures Cleared(q, q[first].slots[a], b, [id], 1) == DropBucket(q, first, a, b, id) && Prefix([id], 1) == {id}
  {
    assert [id][0] in Prefix([id], 1);
    assert Prefix([id], 1) == {id};
  }

  /** The pages when the first e pages of a chain are gone and slot b of the second-level page refers to the next. */
  ghost function Cleared(pages: Pages, second: int, b: nat, chain: seq<int>, e: nat): Pages
    requires IsDir(pages, second) && AllTabs(pages, chain) && b < SLOT_NUM && e <= |chain| && NoDuplicates(chain)
  {
    var head := if e < |chain| then chain[e] else NO_PAGE;
    var pages1 := (pages - Prefix(chain, e))[second := Dir(pages[second].slots[b := head])];
    if e < |chain| then pages1[head := pages[head].(prev := NO_PAGE)] else pages1
  }

  /** Afterwards the slot refers to the rest of the chain, which starts with a page with tuples. */
  lemma ClearedChain(pages: Pages, head: int, second: int, b: nat, chain: seq<int>)
    requires IsDir(pages, second) && Chain(pages, head, chain) && AllTabs(pages, chain) && b < SLOT_NUM && NoDuplicates(chain)
    ensures var e := FirstFull(pages, chain, 0); var pages' := Cleared(pages, second, b, chain, e);
      && IsDir(pages', second) && Chain(pages', pages'[second].slots[b], chain[e..])
      && (e < |chain| ==> NonEmpty(pages'[chain[e]].cells) && pages'[chain[e]].prev == NO_PAGE)
      && (forall k :: 0 <= k < e ==> chain[k] !in pages')
      && OnlyPages(pages, pages', Prefix(chain, e) + {second} + if e < |chain| then {chain[e]} else {})
      && (forall j :: 0 <= j < SLOT_NUM && j != b ==> pages'[second].slots[j] == pages[second].slots[j])
      && (e < |chain| ==> pages'[chain[e]].cells == pages[chain[e]].cells && pages'[chain[e]].next == pages[chain[e]].next)
  {
    hide Chain;
    var e := FirstFull(pages, chain, 0);
    var pages' := Cleared(pages, second, b, chain, e);
    forall k: nat | k < |chain| - e ensures Link(pages', chain[e..], k) {
      ChainLinks(pages, head, chain, e + k);
      assert chain[e..][k] == chain[e + k];
    }
    if e < |chain| {
      LiveCountZero(pages[chain[e]].cells);
    }
    assert Chain(pages', pages'[second].slots[b], chain[e..]) by {
      ChainIntro(pages', pages'[second].slots[b], chain[e..]);
    }
  }

  lemma ChainIntro(pages: Pages, head: int, chain: seq<int>)
    requires head == if chain == [] then NO_PAGE else chain[0]
    requires forall k: nat :: k < |chain| ==> Link(pages, chain, k)
    ensures Chain(pages, head, chain)
  {
  }

  lemma BucketSecond(pages: Pages, first: int, a: nat, b: nat, chain: seq<int>)
    requires DirShape(pages, first) && a < SLOT_NUM && b < SLOT_NUM && Chain(pages, Bucket(pages, first, a, b), chain) && chain != []
    ensures IsDir(pages, first) && IsDir(pages, pages[first].slots[a]) && pages[pages[first].slots[a]].slots[b] == Bucket(pages, first, a, b)
  {
    assert SecondOK(pages, first, a);
    assert Link(pages, chain, 0);
  }

  /** Second-level page, the first e pages of the chain and the page behind them pinned. */
  ghost function Collected(pins: map<int, nat>, second: int, chain: seq<int>, e: nat): map<int, nat>
    requires second in pins && e <= |chain|
  {
    PinSet(pins[second := pins[second] + 1], Prefix(chain, if e < |chain| then e + 1 else e))
  }

  lemma CollectedEmpty(pages: Pages, pins: map<int, nat>, second: int, chain: seq<int>, e: nat)
    requires pins.Keys == pages.Keys && IsDir(pages, second) && AllTabs(pages, chain) && NoDuplicates(chain) && e <= |chain|
    requires forall k :: 0 <= k < e ==> chain[k] in pins && pins[chain[k]] == 0
    ensures NoDuplicates(chain[..e]) && Prefix(chain[..e], |chain[..e]|) == Prefix(chain, e) && Collected(pins, second, chain, e).Keys == pins.Keys
    ensures forall k :: 0 <= k < |chain[..e]| ==>
      chain[..e][k] in Collected(pins, second, chain, e) && Collected(pins, second, chain, e)[chain[..e][k]] == 1
  {
  }

  lemma CollectedRest(pages: Pages, pins: map<int, nat>, second: int, chain: seq<int>, e: nat)
    requires pins.Keys == pages.Keys && IsDir(pages, second) && AllTabs(pages, chain) && NoDuplicates(chain) && e <= |chain|
    ensures second in pages - Prefix(chain, e) && (e == 0 ==> Prefix(chain, e) == {})
    ensures var r := Collected(pins, second, chain, e) - Prefix(chain, e); second in r && r[second] == pins[second] + 1
    ensures e < |chain| ==> chain[e] in pages - Prefix(chain, e) && chain[e] != second && IsTab(pages, chain[e])
    ensures var r := Collected(pins, second, chain, e) - Prefix(chain, e); e < |chain| ==> chain[e] in r && r[chain[e]] == pins[chain[e]] + 1
  {
    forall k | 0 <= k < e ensures chain[k] != second {
      assert IsTab(pages, chain[k]);
    }
    if e < |chain| {
      assert IsTab(pages, chain[e]);
    }
  }

  lemma CollectedUnpinned(pages: Pages, pins: map<int, nat>, second: int, chain: seq<int>, e: nat)
    requires pins.Keys == pages.Keys && IsDir(pages, second) && AllTabs(pages, chain) && NoDuplicates(chain) && e <= |chain|
    ensures var r := Collected(pins, second, chain, e) - Prefix(chain, e);
      (if e < |chain| then r[chain[e] := pins[chain[e]]][second := pins[second]] else r[second := pins[second]]) == pins - Prefix(chain, e)
  {
    forall k | 0 <= k < e ensures chain[k] != second {
      assert IsTab(pages, chain[k]);
    }
    if e < |chain| {
      assert Prefix(chain, e + 1) == Prefix(chain, e) + {chain[e]};
    }
  }

  lemma NonePinned(pins: map<int, nat>, chain: seq<int>)
    ensures PinSet(pins, Prefix(chain, 0)) == pins
  {
  }

  lemma EmptyStep(pages: Pages, chain: seq<int>, k: nat)
    requires AllTabs(pages, chain) && k < |chain| && LiveCount(pages[chain[k]].cells) == 0
    ensures FirstFull(pages, chain, k) == FirstFull(pages, chain, k + 1)
  {
  }

  /** The first page with tuples from page k on, or the end of the chain. */
  function FirstFull(pages: Pages, chain: seq<int>, k: nat): (r: nat)
    requires AllTabs(pages, chain) && k <= |chain|
    ensures k <= r <= |chain| && forall j :: k <= j < r ==> LiveCount(pages[chain[j]].cells) == 0
    ensures r < |chain| ==> LiveCount(pages[chain[r]].cells) > 0
    decreases |chain| - k
  {
    if k < |chain| && LiveCount(pages[chain[k]].cells) == 0 then FirstFull(pages, chain, k + 1) else k
  }

  /** A prepared bucket is a chain of one page, with room if it had room before. */
  lemma PreparedChain(p: Pages, q: Pages, first: int, hash: Hash, a: nat, b: nat, capacity: nat)
    requires IndexInv(p, first, hash) && DirShape(p, first) && Tree(q, first) && DirShape(q, first) && a < SLOT_NUM && b < SLOT_NUM
    requires Prepared(p, q, first, a, b) && Bucket(q, first, a, b) != NO_PAGE && capacity > 0
    ensures var id := Bucket(q, first, a, b); Chain(q, id, [id]) && AllTabs(q, [id])
    ensures LiveCount(q[Bucket(q, first, a, b)].cells) < capacity <==>
      var id := Bucket(p, first, a, b); id != NO_PAGE ==> IsTab(p, id) && LiveCount(p[id].cells) < capacity
  {
    hide DirShape, Bucket, OneBucket, HashToSlot, KeysDistinct;
    TreeTab(q, first, a, b);
    assert BucketOK(p, first, hash, a, b);
    var id := Bucket(q, first, a, b);
    assert forall k: nat :: k < |[id]| ==> Link(q, [id], k);
  }

  lemma NeedsSecond(pages: Pages, first: int, a: nat, b: nat)
    requires DirShape(pages, first) && a < SLOT_NUM && b < SLOT_NUM
    ensures IsDir(pages, first) && (Bucket(pages, first, a, b) != NO_PAGE ==> pages[first].slots[a] != NO_PAGE)
  {
  }

  lemma TreeTab(pages: Pages, first: int, a: nat, b: nat)
    requires Tree(pages, first) && a < SLOT_NUM && b < SLOT_NUM && Bucket(pages, first, a, b) != NO_PAGE
    ensures IsTab(pages, Bucket(pages, first, a, b))
  {
    assert BucketTab(pages, first, a, b);
  }

  /** A bucket of at most one page, as a chain. */
  ghost function BucketChain(pages: Pages, first: int, a: nat, b: nat): seq<int>
    requires DirShape(pages, first) && a < SLOT_NUM && b < SLOT_NUM
  {
    if Bucket(pages, first, a, b) == NO_PAGE then [] else [Bucket(pages, first, a, b)]
  }

  lemma InvShape(pages: Pages, first: int, hash: Hash)
    requires IndexInv(pages, first, hash)
    ensures DirShape(pages, first) && Tree(pages, first)
  {
  }

  lemma NothingVisible(pages: Pages, chain: seq<int>, key: int)
    requires Chain(pages, NO_PAGE, chain) && AllTabs(pages, chain)
    ensures !Visible(pages, chain, key)
  {
    if chain != [] {
      ChainLinks(pages, NO_PAGE, chain, 0);
    }
  }

  lemma OnePage(pages: Pages, first: int, hash: Hash, a: nat, b: nat, key: int)
    requires IndexInv(pages, first, hash) && a < SLOT_NUM && b < SLOT_NUM
    ensures DirShape(pages, first)
    ensures var chain := BucketChain(pages, first, a, b);
      Chain(pages, Bucket(pages, first, a, b), chain) && AllTabs(pages, chain)
      && (Visible(pages, chain, key) <==> chain != [] && HasKey(pages[chain[0]].cells, key))
  {
    hide Tree, HasKey, KeysDistinct, HashToSlot;
    InvShape(pages, first, hash);
    assert BucketOK(pages, first, hash, a, b);
    var chain := BucketChain(pages, first, a, b);
    assert forall k: nat :: k < |chain| ==> Link(pages, chain, k);
  }

  lemma FoundIsStored(pages: Pages, first: int, hash: Hash, model: map<int, Tuple>, key: int, rid: Rid)
    requires IndexInv(pages, first, hash) && DirShape(pages, first) && Refines(pages, first, hash, model) && KeyAt(pages, rid, key)
    requires var s := HashToSlot(hash(key)); rid.pageId == Bucket(pages, first, s.a, s.b) != NO_PAGE
    ensures key in model && model[key] == pages[rid.pageId].cells[rid.slot].value
  {
    hide HashToSlot, Bucket, DirShape, IndexInv;
    var t := pages[rid.pageId].cells[rid.slot].value;
    assert pages[rid.pageId].cells[rid.slot] == Some(t);
    assert Stored(pages, first, hash, t);
  }

  lemma ChainHead(pages: Pages, head: int, chain: seq<int>)
    requires Chain(pages, head, chain)
    ensures head == if chain == [] then NO_PAGE else chain[0]
  {
  }

  /** Behind an empty page nothing is seen. */
  lemma Hidden(pages: Pages, chain: seq<int>, k: nat, key: int)
    requires AllTabs(pages, chain) && k < |chain| && !NonEmpty(pages[chain[k]].cells)
    requires forall j: nat :: j < k ==> !HasKey(pages[chain[j]].cells, key)
    ensures !Visible(pages, chain, key)
  {
    KeyNonEmpty(pages[chain[k]].cells, key);
  }

  lemma KeyNonEmpty(cells: seq<Option<Tuple>>, key: int)
    ensures HasKey(cells, key) ==> NonEmpty(cells)
  {
  }
}
