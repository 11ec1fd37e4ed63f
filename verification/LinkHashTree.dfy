/** The link-hash index as values: where a key belongs, and what each change of the directory does to every bucket. */
module LinkHashTree {
  import opened HashPages
  import opened Options

  // ---- Slots.

  const TOTAL_SLOT_NUM := SLOT_NUM * SLOT_NUM

  datatype Slots = Slots(a: nat, b: nat)

  function HashToSlot(h: nat): (r: Slots)
    ensures r.a < SLOT_NUM && r.b < SLOT_NUM
    ensures r.a * SLOT_NUM + r.b == h % TOTAL_SLOT_NUM
  {
    var slot := h % TOTAL_SLOT_NUM;
    Slots(slot / SLOT_NUM, slot % SLOT_NUM)
  }

  // ---- Tuples of a page.

  ghost predicate NonEmpty(cells: seq<Option<Tuple>>) {
    exists t :: Some(t) in cells
  }

  ghost predicate HasKey(cells: seq<Option<Tuple>>, key: int) {
    exists t :: Some(t) in cells && t.key == key
  }

  ghost predicate KeysDistinct(cells: seq<Option<Tuple>>) {
    forall i, j :: 0 <= i < j < |cells| && cells[i].Some? && cells[j].Some? ==> cells[i].value.key != cells[j].value.key
  }

  function LiveCount(cells: seq<Option<Tuple>>): nat {
    if cells == [] then 0 else (if cells[|cells| - 1].Some? then 1 else 0) + LiveCount(cells[..|cells| - 1])
  }

  lemma {:induction false} LiveCountZero(cells: seq<Option<Tuple>>)
    ensures LiveCount(cells) == 0 <==> !NonEmpty(cells)
  {
    if cells != [] {
      var n := |cells| - 1;
      LiveCountZero(cells[..n]);
      if cells[n].Some? {
        assert Some(cells[n].value) in cells;
      } else {
        forall t ensures Some(t) in cells <==> Some(t) in cells[..n] {
          assert cells == cells[..n] + [cells[n]];
        }
      }
    }
  }

  lemma {:induction false} LiveCountClear(cells: seq<Option<Tuple>>, i: nat)
    requires i < |cells| && cells[i].Some?
    ensures LiveCount(cells[i := None]) == LiveCount(cells) - 1
  {
    var n := |cells| - 1;
    if i < n {
      LiveCountClear(cells[..n], i);
      assert cells[i := None][..n] == cells[..n][i := None];
    } else {
      assert cells[i := None][..n] == cells[..n];
    }
  }

  lemma LiveIffNonEmpty(cells: seq<Option<Tuple>>)
    ensures NextLive(cells, 0) >= 0 <==> NonEmpty(cells)
  {
    var n := NextLive(cells, 0);
    if n >= 0 {
      assert cells[n] == Some(cells[n].value);
    } else {
      forall t ensures Some(t) !in cells {
      }
    }
  }

  /** The first empty slot, or one past the last. */
  function FirstFree(cells: seq<Option<Tuple>>): (r: nat)
    ensures r <= |cells| && (r < |cells| ==> cells[r].None?) && forall i :: 0 <= i < r ==> cells[i].Some?
  {
    FreeFrom(cells, 0)
  }

  function FreeFrom(cells: seq<Option<Tuple>>, i: nat): (r: nat)
    requires i <= |cells|
    ensures i <= r <= |cells| && (r < |cells| ==> cells[r].None?) && forall j :: i <= j < r ==> cells[j].Some?
    decreases |cells| - i
  {
    if i == |cells| || cells[i].None? then i else FreeFrom(cells, i + 1)
  }

  function PutCell(cells: seq<Option<Tuple>>, t: Tuple): seq<Option<Tuple>> {
    var i := FirstFree(cells);
    if i < |cells| then cells[i := Some(t)] else cells + [Some(t)]
  }

  /** Inserting adds the tuple and keeps the others. */
  lemma PutCellExact(cells: seq<Option<Tuple>>, t: Tuple)
    ensures forall u :: Some(u) in PutCell(cells, t) <==> u == t || Some(u) in cells
    ensures KeysDistinct(cells) && !HasKey(cells, t.key) ==> KeysDistinct(PutCell(cells, t))
  {
    var i := FirstFree(cells);
    var cells' := PutCell(cells, t);
    assert cells'[i] == Some(t);
    forall u | Some(u) in cells ensures Some(u) in cells' {
      var j :| 0 <= j < |cells| && cells[j] == Some(u);
      assert cells'[j] == Some(u);
    }
    if !HasKey(cells, t.key) {
      forall j | 0 <= j < |cells| && cells[j].Some? ensures cells[j].value.key != t.key {
        assert Some(cells[j].value) in cells;
      }
    }
  }

  /** Deleting takes away the tuple and keeps the others. */
  lemma ClearCellExact(cells: seq<Option<Tuple>>, i: nat)
    requires i < |cells| && cells[i].Some? && KeysDistinct(cells)
    ensures forall u :: Some(u) in cells[i := None] <==> Some(u) in cells && u != cells[i].value
    ensures KeysDistinct(cells[i := None])
  {
    forall u | Some(u) in cells && u != cells[i].value ensures Some(u) in cells[i := None] {
      var j :| 0 <= j < |cells| && cells[j] == Some(u);
      assert cells[i := None][j] == Some(u);
    }
  }

  // ---- The directory.

  ghost predicate SecondOK(pages: Pages, first: int, a: nat)
    requires IsDir(pages, first) && a < SLOT_NUM
  {
    var s := pages[first].slots[a];
    s == NO_PAGE || (s != first && IsDir(pages, s))
  }

  ghost predicate DirShape(pages: Pages, first: int) {
    NO_PAGE !in pages && IsDir(pages, first) && forall a: nat :: a < SLOT_NUM ==> SecondOK(pages, first, a)
  }

  /** The page id in slots (a, b) of the two levels. */
  ghost function Bucket(pages: Pages, first: int, a: nat, b: nat): int
    requires DirShape(pages, first) && a < SLOT_NUM && b < SLOT_NUM
  {
    var s := pages[first].slots[a];
    assert SecondOK(pages, first, a);
    if s == NO_PAGE then NO_PAGE else pages[s].slots[b]
  }

  ghost predicate Apart(slots: seq<int>) {
    forall i, j :: 0 <= i < j < |slots| && slots[i] == slots[j] ==> slots[i] == NO_PAGE
  }

  ghost predicate BucketTab(pages: Pages, first: int, a: nat, b: nat)
    requires DirShape(pages, first) && a < SLOT_NUM && b < SLOT_NUM
  {
    Bucket(pages, first, a, b) == NO_PAGE || IsTab(pages, Bucket(pages, first, a, b))
  }

  ghost predicate SameBucket(pages: Pages, first: int, a: nat, b: nat, a': nat, b': nat)
    requires DirShape(pages, first) && a < SLOT_NUM && b < SLOT_NUM && a' < SLOT_NUM && b' < SLOT_NUM
  {
    Bucket(pages, first, a, b) == Bucket(pages, first, a', b') != NO_PAGE
  }

  /** Second-level pages and buckets belong to one slot each. */
  ghost predicate Tree(pages: Pages, first: int) {
    && DirShape(pages, first) && Apart(pages[first].slots)
    && (forall a: nat, b: nat :: a < SLOT_NUM && b < SLOT_NUM ==> BucketTab(pages, first, a, b))
    && (forall a: nat, b: nat, a': nat, b': nat | a < SLOT_NUM && b < SLOT_NUM && a' < SLOT_NUM && b' < SLOT_NUM ::
      SameBucket(pages, first, a, b, a', b') ==> a == a' && b == b')
  }

  // ---- Changes of the directory.

  function EmptyDir(): Page {
    Dir(seq(SLOT_NUM, i => NO_PAGE))
  }

  function GrowSecond(pages: Pages, first: int, a: nat, id: int): Pages
    requires IsDir(pages, first) && a < SLOT_NUM
  {
    pages[first := Dir(pages[first].slots[a := id])][id := EmptyDir()]
  }

  /** A new second-level page changes no bucket. */
  lemma GrowSecondKeeps(pages: Pages, first: int, a: nat, id: int)
    requires Tree(pages, first) && a < SLOT_NUM && pages[first].slots[a] == NO_PAGE && id !in pages && id != NO_PAGE
    ensures Tree(GrowSecond(pages, first, a, id), first)
    ensures forall x: nat, y: nat :: x < SLOT_NUM && y < SLOT_NUM ==>
      Bucket(GrowSecond(pages, first, a, id), first, x, y) == Bucket(pages, first, x, y)
  {
    var pages' := GrowSecond(pages, first, a, id);
    forall x: nat | x < SLOT_NUM ensures SecondOK(pages', first, x) && pages[first].slots[x] != id {
      assert SecondOK(pages, first, x);
    }
    forall x: nat, y: nat | x < SLOT_NUM && y < SLOT_NUM ensures Bucket(pages', first, x, y) == Bucket(pages, first, x, y) {
      assert SecondOK(pages, first, x);
    }
    TreeSame(pages, pages', first);
  }

  /** The same buckets and table pages under a directory of the same kind. */
  lemma TreeSame(pages: Pages, pages': Pages, first: int)
    requires Tree(pages, first) && DirShape(pages', first) && Apart(pages'[first].slots)
    requires forall x: nat, y: nat :: x < SLOT_NUM && y < SLOT_NUM ==> Bucket(pages', first, x, y) == Bucket(pages, first, x, y)
    requires forall id :: IsTab(pages, id) ==> IsTab(pages', id)
    ensures Tree(pages', first)
  {
    hide DirShape, Apart;
    forall a: nat, b: nat | a < SLOT_NUM && b < SLOT_NUM ensures BucketTab(pages', first, a, b) {
      assert BucketTab(pages, first, a, b);
    }
    forall a: nat, b: nat, a': nat, b': nat
      | a < SLOT_NUM && b < SLOT_NUM && a' < SLOT_NUM && b' < SLOT_NUM && SameBucket(pages', first, a, b, a', b')
      ensures a == a' && b == b'
    {
      assert SameBucket(pages, first, a, b, a', b');
    }
  }

  /** New contents of a table page change no bucket. */
  lemma SetTabKeeps(pages: Pages, first: int, id: int, p: Page)
    requires Tree(pages, first) && IsTab(pages, id) && p.Tab?
    ensures Tree(pages[id := p], first)
    ensures forall x: nat, y: nat :: x < SLOT_NUM && y < SLOT_NUM ==> Bucket(pages[id := p], first, x, y) == Bucket(pages, first, x, y)
  {
    var pages' := pages[id := p];
    forall x: nat | x < SLOT_NUM ensures SecondOK(pages', first, x) {
      assert SecondOK(pages, first, x);
    }
    forall x: nat, y: nat | x < SLOT_NUM && y < SLOT_NUM ensures Bucket(pages', first, x, y) == Bucket(pages, first, x, y) {
      assert SecondOK(pages, first, x);
    }
    TreeSame(pages, pages', first);
  }

  /** Slot b of the second-level page of a now holds head. */
  function SetSlot(pages: Pages, first: int, a: nat, b: nat, head: int): Pages
    requires IsDir(pages, first) && a < SLOT_NUM && b < SLOT_NUM && IsDir(pages, pages[first].slots[a])
  {
    var s := pages[first].slots[a];
    pages[s := Dir(pages[s].slots[b := head])]
  }

  /** A slot set to another head changes that bucket only. */
  lemma SetSlotBuckets(pages: Pages, first: int, a: nat, b: nat, head: int)
    requires Tree(pages, first) && a < SLOT_NUM && b < SLOT_NUM && pages[first].slots[a] != NO_PAGE
    ensures IsDir(pages, pages[first].slots[a]) && DirShape(SetSlot(pages, first, a, b, head), first)
    ensures SetSlot(pages, first, a, b, head)[first] == pages[first]
    ensures forall x: nat, y: nat :: x < SLOT_NUM && y < SLOT_NUM ==>
      Bucket(SetSlot(pages, first, a, b, head), first, x, y) == if x == a && y == b then head else Bucket(pages, first, x, y)
  {
    assert SecondOK(pages, first, a);
    var pages' := SetSlot(pages, first, a, b, head);
    forall x: nat | x < SLOT_NUM ensures SecondOK(pages', first, x) {
      assert SecondOK(pages, first, x);
    }
    forall x: nat, y: nat | x < SLOT_NUM && y < SLOT_NUM
      ensures Bucket(pages', first, x, y) == if x == a && y == b then head else Bucket(pages, first, x, y)
    {
      assert SecondOK(pages, first, x);
      assert x != a ==> pages[first].slots[x] != pages[first].slots[a];
    }
  }

  function AddBucket(pages: Pages, first: int, a: nat, b: nat, id: int): Pages
    requires IsDir(pages, first) && a < SLOT_NUM && b < SLOT_NUM && IsDir(pages, pages[first].slots[a])
  {
    SetSlot(pages, first, a, b, id)[id := Tab(NO_PAGE, NO_PAGE, [])]
  }

  lemma AddBucketKeeps(pages: Pages, first: int, a: nat, b: nat, id: int)
    requires Tree(pages, first) && a < SLOT_NUM && b < SLOT_NUM && pages[first].slots[a] != NO_PAGE
    requires Bucket(pages, first, a, b) == NO_PAGE && id !in pages && id != NO_PAGE
    ensures IsDir(pages, pages[first].slots[a]) && Tree(AddBucket(pages, first, a, b, id), first)
    ensures forall x: nat, y: nat :: x < SLOT_NUM && y < SLOT_NUM ==>
      Bucket(AddBucket(pages, first, a, b, id), first, x, y) == if x == a && y == b then id else Bucket(pages, first, x, y)
  {
    SetSlotBuckets(pages, first, a, b, id);
    var pages1 := SetSlot(pages, first, a, b, id);
    var pages' := AddBucket(pages, first, a, b, id);
    SameDirectory(pages1, pages', first, id);
    TreeChanged(pages, pages', first, a, b, id);
  }

  function DropBucket(pages: Pages, first: int, a: nat, b: nat, id: int): Pages
    requires IsDir(pages, first) && a < SLOT_NUM && b < SLOT_NUM && IsDir(pages, pages[first].slots[a])
  {
    SetSlot(pages, first, a, b, NO_PAGE) - {id}
  }

  lemma DropBucketKeeps(pages: Pages, first: int, a: nat, b: nat, id: int)
    requires Tree(pages, first) && a < SLOT_NUM && b < SLOT_NUM && Bucket(pages, first, a, b) == id != NO_PAGE
    ensures IsDir(pages, pages[first].slots[a]) && Tree(DropBucket(pages, first, a, b, id), first)
    ensures forall x: nat, y: nat :: x < SLOT_NUM && y < SLOT_NUM ==>
      Bucket(DropBucket(pages, first, a, b, id), first, x, y) == if x == a && y == b then NO_PAGE else Bucket(pages, first, x, y)
  {
    SetSlotBuckets(pages, first, a, b, NO_PAGE);
    var pages1 := SetSlot(pages, first, a, b, NO_PAGE);
    var pages' := DropBucket(pages, first, a, b, id);
    assert BucketTab(pages, first, a, b);
    SameDirectory(pages1, pages', first, id);
    TreeChanged(pages, pages', first, a, b, NO_PAGE);
  }

  /** Outside the directory, one page more or less changes no bucket. */
  lemma SameDirectory(pages: Pages, pages': Pages, first: int, id: int)
    requires DirShape(pages, first) && NO_PAGE !in pages' && (id !in pages || !IsDir(pages, id))
    requires forall p :: p != id && p in pages ==> p in pages' && pages'[p] == pages[p]
    ensures DirShape(pages', first) && pages'[first] == pages[first]
    ensures forall x: nat, y: nat :: x < SLOT_NUM && y < SLOT_NUM ==> Bucket(pages', first, x, y) == Bucket(pages, first, x, y)
  {
    forall x: nat | x < SLOT_NUM ensures SecondOK(pages', first, x) {
      assert SecondOK(pages, first, x);
    }
    forall x: nat, y: nat | x < SLOT_NUM && y < SLOT_NUM ensures Bucket(pages', first, x, y) == Bucket(pages, first, x, y) {
      assert SecondOK(pages, first, x);
    }
  }

  /** One bucket replaced by a new page, or by none. */
  lemma TreeChanged(pages: Pages, pages': Pages, first: int, a: nat, b: nat, id: int)
    requires Tree(pages, first) && DirShape(pages', first) && pages'[first] == pages[first] && a < SLOT_NUM && b < SLOT_NUM
    requires forall x: nat, y: nat :: x < SLOT_NUM && y < SLOT_NUM ==>
      Bucket(pages', first, x, y) == if x == a && y == b then id else Bucket(pages, first, x, y)
    requires id == NO_PAGE || (id !in pages && IsTab(pages', id))
    requires forall p :: IsTab(pages, p) && p != Bucket(pages, first, a, b) ==> IsTab(pages', p)
    ensures Tree(pages', first)
  {
    hide DirShape, Apart;
    forall x: nat, y: nat | x < SLOT_NUM && y < SLOT_NUM ensures BucketTab(pages', first, x, y) {
      assert BucketTab(pages, first, x, y);
      if (x != a || y != b) && Bucket(pages, first, x, y) != NO_PAGE {
        assert !SameBucket(pages, first, x, y, a, b);
      }
    }
    forall x: nat, y: nat, x': nat, y': nat
      | x < SLOT_NUM && y < SLOT_NUM && x' < SLOT_NUM && y' < SLOT_NUM && SameBucket(pages', first, x, y, x', y')
      ensures x == x' && y == y'
    {
      assert BucketTab(pages, first, x, y) && BucketTab(pages, first, x', y');
      if x == a && y == b {
      } else if x' == a && y' == b {
      } else {
        assert SameBucket(pages, first, x, y, x', y');
      }
    }
  }

  // ---- The index as a map.

  type Hash = int -> nat

  /** A bucket of one page: its tuples belong there and have different keys. */
  ghost predicate PageOK(p: Page, hash: Hash, a: nat, b: nat) {
    && p.Tab? && p.prev == NO_PAGE && p.next == NO_PAGE && KeysDistinct(p.cells)
    && forall t :: Some(t) in p.cells ==> HashToSlot(hash(t.key)) == Slots(a, b)
  }

  ghost predicate BucketOK(pages: Pages, first: int, hash: Hash, a: nat, b: nat)
    requires DirShape(pages, first) && a < SLOT_NUM && b < SLOT_NUM
  {
    var id := Bucket(pages, first, a, b);
    id != NO_PAGE ==> IsTab(pages, id) && PageOK(pages[id], hash, a, b) && NonEmpty(pages[id].cells)
  }

  ghost predicate IndexInv(pages: Pages, first: int, hash: Hash) {
    Tree(pages, first) && forall a: nat, b: nat :: a < SLOT_NUM && b < SLOT_NUM ==> BucketOK(pages, first, hash, a, b)
  }

  ghost predicate Stored(pages: Pages, first: int, hash: Hash, t: Tuple)
    requires DirShape(pages, first)
  {
    var s := HashToSlot(hash(t.key));
    var id := Bucket(pages, first, s.a, s.b);
    id != NO_PAGE && IsTab(pages, id) && Some(t) in pages[id].cells
  }

  /** The stored tuples are the entries of the map. */
  ghost predicate Refines(pages: Pages, first: int, hash: Hash, model: map<int, Tuple>)
    requires DirShape(pages, first)
  {
    && (forall t :: Stored(pages, first, hash, t) <==> t.key in model && model[t.key] == t)
    && (forall k :: k in model ==> model[k].key == k)
  }

  /** What changes in one bucket, and nowhere else. */
  ghost predicate OneBucket(pages: Pages, pages': Pages, first: int, a: nat, b: nat)
    requires DirShape(pages, first) && DirShape(pages', first)
  {
    forall x: nat, y: nat :: x < SLOT_NUM && y < SLOT_NUM && (x != a || y != b) ==> SamePage(pages, pages', first, x, y)
  }

  ghost predicate SamePage(pages: Pages, pages': Pages, first: int, x: nat, y: nat)
    requires DirShape(pages, first) && DirShape(pages', first) && x < SLOT_NUM && y < SLOT_NUM
  {
    var id := Bucket(pages, first, x, y);
    Bucket(pages', first, x, y) == id && (id != NO_PAGE ==> id in pages && id in pages' && pages'[id] == pages[id])
  }

  lemma OtherStored(pages: Pages, pages': Pages, first: int, hash: Hash, a: nat, b: nat, t: Tuple)
    requires DirShape(pages, first) && DirShape(pages', first) && OneBucket(pages, pages', first, a, b)
    requires HashToSlot(hash(t.key)) != Slots(a, b)
    ensures Stored(pages', first, hash, t) <==> Stored(pages, first, hash, t)
  {
    hide DirShape, Bucket;
    var s := HashToSlot(hash(t.key));
    assert SamePage(pages, pages', first, s.a, s.b);
  }

  lemma OneBucketInv(pages: Pages, pages': Pages, first: int, hash: Hash, a: nat, b: nat)
    requires IndexInv(pages, first, hash) && Tree(pages', first) && OneBucket(pages, pages', first, a, b)
    requires a < SLOT_NUM && b < SLOT_NUM && BucketOK(pages', first, hash, a, b)
    ensures IndexInv(pages', first, hash)
  {
    hide Tree, DirShape, Bucket, PageOK, NonEmpty;
    assert DirShape(pages, first) && DirShape(pages', first) by {
      TreeShape(pages, first);
      TreeShape(pages', first);
    }
    forall x: nat, y: nat | x < SLOT_NUM && y < SLOT_NUM ensures BucketOK(pages', first, hash, x, y) {
      assert BucketOK(pages, first, hash, x, y);
      if x != a || y != b {
        assert SamePage(pages, pages', first, x, y);
      }
    }
  }

  lemma TreeShape(pages: Pages, first: int)
    requires Tree(pages, first)
    ensures DirShape(pages, first)
  {
  }

  /** A key is in the map exactly if its bucket has it. */
  lemma KeyInBucket(pages: Pages, first: int, hash: Hash, model: map<int, Tuple>, key: int)
    requires IndexInv(pages, first, hash) && Refines(pages, first, hash, model)
    ensures var s := HashToSlot(hash(key)); var id := Bucket(pages, first, s.a, s.b);
      key in model <==> id != NO_PAGE && IsTab(pages, id) && HasKey(pages[id].cells, key)
  {
    hide DirShape, Bucket, Tree;
    TreeShape(pages, first);
    var s := HashToSlot(hash(key));
    var id := Bucket(pages, first, s.a, s.b);
    if key in model {
      assert Stored(pages, first, hash, model[key]);
    }
    if id != NO_PAGE && IsTab(pages, id) && HasKey(pages[id].cells, key) {
      var t :| Some(t) in pages[id].cells && t.key == key;
      assert Stored(pages, first, hash, t);
    }
  }

  /** The tuples of bucket (a, b) after a change. */
  ghost predicate Added(pages: Pages, pages': Pages, first: int, hash: Hash, a: nat, b: nat, t: Tuple)
    requires DirShape(pages, first) && DirShape(pages', first)
  {
    forall u: Tuple :: HashToSlot(hash(u.key)) == Slots(a, b) ==> (Stored(pages', first, hash, u) <==> u == t || Stored(pages, first, hash, u))
  }

  ghost predicate Removed(pages: Pages, pages': Pages, first: int, hash: Hash, a: nat, b: nat, t: Tuple)
    requires DirShape(pages, first) && DirShape(pages', first)
  {
    forall u: Tuple :: HashToSlot(hash(u.key)) == Slots(a, b) ==> (Stored(pages', first, hash, u) <==> u != t && Stored(pages, first, hash, u))
  }

  lemma AddedRefines(pages: Pages, pages': Pages, first: int, hash: Hash, model: map<int, Tuple>, a: nat, b: nat, t: Tuple)
    requires DirShape(pages, first) && DirShape(pages', first) && OneBucket(pages, pages', first, a, b)
    requires Refines(pages, first, hash, model) && t.key !in model && HashToSlot(hash(t.key)) == Slots(a, b)
    requires Added(pages, pages', first, hash, a, b, t)
    ensures Refines(pages', first, hash, model[t.key := t])
  {
    hide DirShape, Stored, OneBucket, HashToSlot;
    forall u ensures Stored(pages', first, hash, u) <==> u.key in model[t.key := t] && model[t.key := t][u.key] == u {
      if HashToSlot(hash(u.key)) != Slots(a, b) {
        OtherStored(pages, pages', first, hash, a, b, u);
      }
    }
  }

  lemma RemovedRefines(pages: Pages, pages': Pages, first: int, hash: Hash, model: map<int, Tuple>, a: nat, b: nat, t: Tuple)
    requires DirShape(pages, first) && DirShape(pages', first) && OneBucket(pages, pages', first, a, b)
    requires Refines(pages, first, hash, model) && t.key in model && model[t.key] == t && HashToSlot(hash(t.key)) == Slots(a, b)
    requires Removed(pages, pages', first, hash, a, b, t)
    ensures Refines(pages', first, hash, model - {t.key})
  {
    hide DirShape, Stored, OneBucket, HashToSlot;
    forall u ensures Stored(pages', first, hash, u) <==> u.key in model - {t.key} && (model - {t.key})[u.key] == u {
      if HashToSlot(hash(u.key)) != Slots(a, b) {
        OtherStored(pages, pages', first, hash, a, b, u);
      }
    }
  }

  // ---- The operations on a bucket.

  /** Page id with new cells. */
  function WithCells(pages: Pages, id: int, cells: seq<Option<Tuple>>): Pages
    requires IsTab(pages, id)
  {
    pages[id := pages[id].(cells := cells)]
  }

  /** A tuple with a new key put into the page of its bucket. */
  lemma PutInBucket(pages: Pages, first: int, hash: Hash, a: nat, b: nat, id: int, t: Tuple)
    requires Tree(pages, first) && a < SLOT_NUM && b < SLOT_NUM && Bucket(pages, first, a, b) == id != NO_PAGE
    requires IsTab(pages, id) && PageOK(pages[id], hash, a, b) && !HasKey(pages[id].cells, t.key) && HashToSlot(hash(t.key)) == Slots(a, b)
    ensures var pages' := WithCells(pages, id, PutCell(pages[id].cells, t));
      && Tree(pages', first) && OneBucket(pages, pages', first, a, b) && BucketOK(pages', first, hash, a, b)
      && Added(pages, pages', first, hash, a, b, t)
  {
    hide DirShape, PutCell, HashToSlot, KeysDistinct;
    var cells := PutCell(pages[id].cells, t);
    var pages' := WithCells(pages, id, cells);
    SetTabKeeps(pages, first, id, pages[id].(cells := cells));
    PutCellExact(pages[id].cells, t);
    OthersKept(pages, pages', first, a, b, id);
    assert Some(t) in cells;
  }

  /** A change of one table page leaves the pages of the other buckets. */
  lemma OthersKept(pages: Pages, pages': Pages, first: int, a: nat, b: nat, id: int)
    requires Tree(pages, first) && DirShape(pages', first) && a < SLOT_NUM && b < SLOT_NUM
    requires forall p :: p in pages && pages[p].Tab? && p != id ==> p in pages' && pages'[p] == pages[p]
    requires Bucket(pages, first, a, b) == id || id !in pages
    requires forall x: nat, y: nat :: x < SLOT_NUM && y < SLOT_NUM && (x != a || y != b) ==>
      Bucket(pages', first, x, y) == Bucket(pages, first, x, y)
    ensures OneBucket(pages, pages', first, a, b)
  {
    hide DirShape, Apart;
    forall x: nat, y: nat | x < SLOT_NUM && y < SLOT_NUM && (x != a || y != b) ensures SamePage(pages, pages', first, x, y) {
      assert BucketTab(pages, first, x, y);
      assert !SameBucket(pages, first, x, y, a, b);
    }
  }

  /** A tuple taken out of the page of its bucket. */
  lemma ClearInBucket(pages: Pages, first: int, hash: Hash, a: nat, b: nat, id: int, i: nat)
    requires Tree(pages, first) && a < SLOT_NUM && b < SLOT_NUM && Bucket(pages, first, a, b) == id != NO_PAGE
    requires IsTab(pages, id) && PageOK(pages[id], hash, a, b) && i < |pages[id].cells| && pages[id].cells[i].Some?
    ensures var pages' := WithCells(pages, id, pages[id].cells[i := None]);
      && Tree(pages', first) && OneBucket(pages, pages', first, a, b) && PageOK(pages'[id], hash, a, b)
      && Bucket(pages', first, a, b) == id
      && Removed(pages, pages', first, hash, a, b, pages[id].cells[i].value)
  {
    hide DirShape, HashToSlot, KeysDistinct;
    var cells := pages[id].cells[i := None];
    var pages' := WithCells(pages, id, cells);
    SetTabKeeps(pages, first, id, pages[id].(cells := cells));
    ClearCellExact(pages[id].cells, i);
    OthersKept(pages, pages', first, a, b, id);
  }

  // ---- Making room in the directory.

  lemma OneBucketTrans(p: Pages, q: Pages, r: Pages, first: int, a: nat, b: nat)
    requires DirShape(p, first) && DirShape(q, first) && DirShape(r, first)
    requires OneBucket(p, q, first, a, b) && OneBucket(q, r, first, a, b)
    ensures OneBucket(p, r, first, a, b)
  {
    hide DirShape, Bucket;
    forall x: nat, y: nat | x < SLOT_NUM && y < SLOT_NUM && (x != a || y != b) ensures SamePage(p, r, first, x, y) {
      assert SamePage(p, q, first, x, y) && SamePage(q, r, first, x, y);
    }
  }

  /** The bucket is there and holds what it held before, if anything. */
  ghost predicate Prepared(pages: Pages, pages': Pages, first: int, a: nat, b: nat)
    requires DirShape(pages, first) && DirShape(pages', first) && a < SLOT_NUM && b < SLOT_NUM
  {
    var id, id' := Bucket(pages, first, a, b), Bucket(pages', first, a, b);
    && OneBucket(pages, pages', first, a, b)
    && (if id == NO_PAGE then id' != NO_PAGE ==> id' in pages' && pages'[id'] == Tab(NO_PAGE, NO_PAGE, []) else SamePage(pages, pages', first, a, b))
  }

  lemma GrowSecondPrepares(pages: Pages, first: int, a: nat, b: nat, id: int)
    requires Tree(pages, first) && a < SLOT_NUM && b < SLOT_NUM && pages[first].slots[a] == NO_PAGE && id !in pages && id != NO_PAGE
    ensures Tree(GrowSecond(pages, first, a, id), first) && Prepared(pages, GrowSecond(pages, first, a, id), first, a, b)
  {
    GrowSecondKeeps(pages, first, a, id);
    var pages' := GrowSecond(pages, first, a, id);
    forall x: nat, y: nat | x < SLOT_NUM && y < SLOT_NUM ensures SamePage(pages, pages', first, x, y) {
      assert BucketTab(pages, first, x, y);
    }
  }

  lemma AddBucketPrepares(pages: Pages, first: int, a: nat, b: nat, id: int)
    requires Tree(pages, first) && a < SLOT_NUM && b < SLOT_NUM && pages[first].slots[a] != NO_PAGE
    requires Bucket(pages, first, a, b) == NO_PAGE && id !in pages && id != NO_PAGE
    ensures IsDir(pages, pages[first].slots[a]) && Tree(AddBucket(pages, first, a, b, id), first)
    ensures Prepared(pages, AddBucket(pages, first, a, b, id), first, a, b)
  {
    AddBucketKeeps(pages, first, a, b, id);
    OthersKept(pages, AddBucket(pages, first, a, b, id), first, a, b, id);
  }

  lemma PreparedTrans(p: Pages, q: Pages, r: Pages, first: int, a: nat, b: nat)
    requires DirShape(p, first) && DirShape(q, first) && DirShape(r, first) && a < SLOT_NUM && b < SLOT_NUM
    requires Prepared(p, q, first, a, b) && Prepared(q, r, first, a, b)
    ensures Prepared(p, r, first, a, b)
  {
    hide DirShape, Bucket, OneBucket;
    OneBucketTrans(p, q, r, first, a, b);
  }

  lemma PreparedSame(pages: Pages, first: int, a: nat, b: nat)
    requires Tree(pages, first) && a < SLOT_NUM && b < SLOT_NUM
    ensures Prepared(pages, pages, first, a, b)
  {
    hide DirShape, Bucket;
    forall x: nat, y: nat | x < SLOT_NUM && y < SLOT_NUM ensures SamePage(pages, pages, first, x, y) {
      assert BucketTab(pages, first, x, y);
    }
  }

  /** Putting a tuple with a new key into a prepared bucket adds it to the index. */
  lemma InsertRefines(p: Pages, q: Pages, first: int, hash: Hash, model: map<int, Tuple>, a: nat, b: nat, id: int, t: Tuple)
    requires IndexInv(p, first, hash) && Refines(p, first, hash, model) && t.key !in model && HashToSlot(hash(t.key)) == Slots(a, b)
    requires a < SLOT_NUM && b < SLOT_NUM && Tree(q, first) && Prepared(p, q, first, a, b) && Bucket(q, first, a, b) == id != NO_PAGE
    ensures IsTab(q, id)
    ensures var r := WithCells(q, id, PutCell(q[id].cells, t)); IndexInv(r, first, hash) && Refines(r, first, hash, model[t.key := t])
  {
    hide DirShape, Bucket, HashToSlot, Refines, OneBucket, PutCell, Apart;
    KeyInBucket(p, first, hash, model, t.key);
    assert BucketTab(q, first, a, b) && BucketTab(p, first, a, b) && BucketOK(p, first, hash, a, b);
    var r := WithCells(q, id, PutCell(q[id].cells, t));
    PutInBucket(q, first, hash, a, b, id, t);
    TreeShape(r, first);
    OneBucketTrans(p, q, r, first, a, b);
    OneBucketInv(p, r, first, hash, a, b);
    AddedTrans(p, q, r, first, hash, a, b, t);
    AddedRefines(p, r, first, hash, model, a, b, t);
  }

  lemma AddedTrans(p: Pages, q: Pages, r: Pages, first: int, hash: Hash, a: nat, b: nat, t: Tuple)
    requires DirShape(p, first) && DirShape(q, first) && DirShape(r, first) && a < SLOT_NUM && b < SLOT_NUM
    requires Prepared(p, q, first, a, b) && Added(q, r, first, hash, a, b, t)
    ensures Added(p, r, first, hash, a, b, t)
  {
    hide DirShape, Bucket, OneBucket, HashToSlot;
    forall u: Tuple | HashToSlot(hash(u.key)) == Slots(a, b)
      ensures Stored(r, first, hash, u) <==> u == t || Stored(p, first, hash, u)
    {
      assert Stored(q, first, hash, u) <==> Stored(p, first, hash, u);
    }
  }

  /** Taking a tuple out of its bucket removes it from the index, if the page keeps another one. */
  lemma ClearRefines(p: Pages, first: int, hash: Hash, model: map<int, Tuple>, a: nat, b: nat, id: int, i: nat)
    requires IndexInv(p, first, hash) && Refines(p, first, hash, model)
    requires a < SLOT_NUM && b < SLOT_NUM && Bucket(p, first, a, b) == id != NO_PAGE && IsTab(p, id)
    requires i < |p[id].cells| && p[id].cells[i].Some? && HashToSlot(hash(p[id].cells[i].value.key)) == Slots(a, b)
    requires var k := p[id].cells[i].value.key; k in model && model[k] == p[id].cells[i].value
    requires NonEmpty(p[id].cells[i := None])
    ensures var q, k := WithCells(p, id, p[id].cells[i := None]), p[id].cells[i].value.key;
      IndexInv(q, first, hash) && Refines(q, first, hash, model - {k})
  {
    hide DirShape, Bucket, HashToSlot, Refines, OneBucket, Apart, NonEmpty;
    var q, t := WithCells(p, id, p[id].cells[i := None]), p[id].cells[i].value;
    assert BucketOK(p, first, hash, a, b);
    ClearInBucket(p, first, hash, a, b, id, i);
    TreeShape(q, first);
    assert BucketOK(q, first, hash, a, b);
    OneBucketInv(p, q, first, hash, a, b);
    RemovedRefines(p, q, first, hash, model, a, b, t);
  }

  /** Taking the last tuple out of a bucket and dropping its page removes the tuple from the index. */
  lemma DropRefines(p: Pages, first: int, hash: Hash, model: map<int, Tuple>, a: nat, b: nat, id: int, i: nat)
    requires IndexInv(p, first, hash) && Refines(p, first, hash, model)
    requires a < SLOT_NUM && b < SLOT_NUM && Bucket(p, first, a, b) == id != NO_PAGE && IsTab(p, id)
    requires i < |p[id].cells| && p[id].cells[i].Some? && HashToSlot(hash(p[id].cells[i].value.key)) == Slots(a, b)
    requires var k := p[id].cells[i].value.key; k in model && model[k] == p[id].cells[i].value
    requires !NonEmpty(p[id].cells[i := None])
    ensures IsDir(p, p[first].slots[a])
    ensures var q, k := WithCells(p, id, p[id].cells[i := None]), p[id].cells[i].value.key;
      && Tree(q, first) && Bucket(q, first, a, b) == id && IsDir(q, q[first].slots[a])
      && IndexInv(DropBucket(q, first, a, b, id), first, hash) && Refines(DropBucket(q, first, a, b, id), first, hash, model - {k})
  {
    hide DirShape, Bucket, HashToSlot, Refines, OneBucket, Apart;
    var q, t := WithCells(p, id, p[id].cells[i := None]), p[id].cells[i].value;
    assert BucketOK(p, first, hash, a, b);
    ClearInBucket(p, first, hash, a, b, id, i);
    TreeShape(q, first);
    DropBucketKeeps(q, first, a, b, id);
    DirKept(p, q, first, a, b, id);
    var r := DropBucket(q, first, a, b, id);
    TreeShape(r, first);
    OthersKept(q, r, first, a, b, id);
    OneBucketTrans(p, q, r, first, a, b);
    assert BucketOK(r, first, hash, a, b);
    OneBucketInv(p, r, first, hash, a, b);
    forall u: Tuple | HashToSlot(hash(u.key)) == Slots(a, b)
      ensures Stored(r, first, hash, u) <==> u != t && Stored(p, first, hash, u)
    {
      assert Some(u) !in q[id].cells;
      assert !Stored(q, first, hash, u);
    }
    RemovedRefines(p, r, first, hash, model, a, b, t);
  }

  lemma DirKept(p: Pages, q: Pages, first: int, a: nat, b: nat, id: int)
    requires Tree(p, first) && IsTab(p, id) && a < SLOT_NUM && b < SLOT_NUM && IsTab(q, id) && IsDir(q, first)
    requires q.Keys == p.Keys && forall x :: x in p && x != id ==> q[x] == p[x]
    requires IsDir(q, q[first].slots[a])
    ensures IsDir(p, p[first].slots[a])
  {
  }
}
