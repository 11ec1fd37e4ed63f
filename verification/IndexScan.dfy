/** Iterating over an index enumerates its map. */
module IndexScans {
  import opened TablePages
  import opened HashPages
  import opened Options
  import opened Collections
  import opened HashTableOrder
  import opened HashTableIters
  import opened LinkHashTree
  import opened LinkHashes

  /** The chains of an index with buckets of one page. */
  ghost function IndexRow(pages: Pages, first: int, a: nat): seq<seq<int>>
    requires DirShape(pages, first) && a < SLOT_NUM
  {
    if pages[first].slots[a] == NO_PAGE then [] else
    seq(SLOT_NUM, b requires 0 <= b < SLOT_NUM => BucketChain(pages, first, a, b))
  }

  ghost function IndexGrid(pages: Pages, first: int): Grid
    requires DirShape(pages, first)
  {
    seq(SLOT_NUM, a requires 0 <= a < SLOT_NUM => IndexRow(pages, first, a))
  }

  lemma IndexRowOf(pages: Pages, first: int, hash: Hash, a: nat)
    requires IndexInv(pages, first, hash) && DirShape(pages, first) && a < SLOT_NUM
    ensures RowOf(pages, pages[first].slots[a], IndexRow(pages, first, a))
  {
    hide Chain, PageOK;
    var pg, row := pages[first].slots[a], IndexRow(pages, first, a);
    assert SecondOK(pages, first, a);
    if pg != NO_PAGE {
      forall b: nat | b < SLOT_NUM ensures Chain(pages, pages[pg].slots[b], row[b]) && HeadLive(pages, row[b]) {
        OnePage(pages, first, hash, a, b, 0);
        assert BucketOK(pages, first, hash, a, b);
        if row[b] != [] {
          LiveIffNonEmpty(pages[row[b][0]].cells);
        }
      }
    }
  }

  lemma InIndexRow(pages: Pages, first: int, a: nat, id: int)
    requires DirShape(pages, first) && a < SLOT_NUM && id != NO_PAGE
    ensures InRow(IndexRow(pages, first, a), 0, id) <==> exists b: nat :: b < SLOT_NUM && Bucket(pages, first, a, b) == id
  {
    hide DirShape;
    var row := IndexRow(pages, first, a);
    if InRow(row, 0, id) {
      var j: nat :| j < |row| && InChain(row[j], 0, id);
      assert Bucket(pages, first, a, j) == id;
    }
    if b: nat :| b < SLOT_NUM && Bucket(pages, first, a, b) == id {
      assert row[b] == [id] && [id][0] == id;
      assert InChain(row[b], 0, id);
    }
  }

  lemma IndexRowDistinct(pages: Pages, first: int, a: nat)
    requires Tree(pages, first) && a < SLOT_NUM
    ensures RowDistinct(IndexRow(pages, first, a))
  {
    hide DirShape, Apart;
    TreeShape(pages, first);
    var row := IndexRow(pages, first, a);
    forall b, c, id: int | 0 <= b < c < |row| ensures !(InChain(row[b], 0, id) && InChain(row[c], 0, id)) {
      assert !SameBucket(pages, first, a, b, a, c);
    }
  }

  lemma IndexRowsApart(pages: Pages, first: int, a: nat, c: nat, id: int)
    requires Tree(pages, first) && a < c < SLOT_NUM && DirShape(pages, first)
    ensures !(InRow(IndexRow(pages, first, a), 0, id) && InRow(IndexRow(pages, first, c), 0, id))
  {
    hide DirShape, Apart;
    var row, row' := IndexRow(pages, first, a), IndexRow(pages, first, c);
    forall b: nat, b': nat | b < |row| && b' < |row'| ensures !(InChain(row[b], 0, id) && InChain(row'[b'], 0, id)) {
      assert !SameBucket(pages, first, a, b, c, b');
    }
  }

  /** Every state of the index is a table that can be iterated over. */
  lemma IndexTable(pages: Pages, first: int, hash: Hash)
    requires IndexInv(pages, first, hash)
    ensures DirShape(pages, first) && TableOf(pages, first, IndexGrid(pages, first))
  {
    hide DirShape, RowOf, InRow, RowDistinct, Tree, IndexRow;
    InvShape(pages, first, hash);
    ShapeDir(pages, first);
    var grid := IndexGrid(pages, first);
    forall a: nat | a < SLOT_NUM ensures RowOf(pages, pages[first].slots[a], grid[a]) && RowDistinct(grid[a]) {
      IndexRowOf(pages, first, hash, a);
      IndexRowDistinct(pages, first, a);
    }
    GridOfTabs(pages, first, grid);
    forall a, c, id: int | 0 <= a < c < |grid| ensures !(InRow(grid[a], 0, id) && InRow(grid[c], 0, id)) {
      IndexRowsApart(pages, first, a, c, id);
    }
  }

  lemma ShapeDir(pages: Pages, first: int)
    requires DirShape(pages, first)
    ensures IsDir(pages, first)
  {
  }

  /** The pages of the index are its buckets. */
  lemma InIndexGrid(pages: Pages, first: int, hash: Hash, r: Rid)
    requires IndexInv(pages, first, hash) && DirShape(pages, first) && LiveAt(pages, r) && r.pageId != NO_PAGE
    ensures InGrid(IndexGrid(pages, first), 0, r.pageId) <==> BucketOf(pages, first, hash, pages[r.pageId].cells[r.slot].value) == r.pageId
    ensures InGrid(IndexGrid(pages, first), 0, r.pageId) ==> Stored(pages, first, hash, pages[r.pageId].cells[r.slot].value)
  {
    hide DirShape, InRow, Tree, HashToSlot, Bucket, KeysDistinct, IndexRow;
    var grid, t := IndexGrid(pages, first), pages[r.pageId].cells[r.slot].value;
    var s := HashToSlot(hash(t.key));
    assert pages[r.pageId].cells[r.slot] == Some(t);
    if InGrid(grid, 0, r.pageId) {
      var a: nat :| a < |grid| && InRow(grid[a], 0, r.pageId);
      InIndexRow(pages, first, a, r.pageId);
      var b: nat :| b < SLOT_NUM && Bucket(pages, first, a, b) == r.pageId;
      assert BucketOK(pages, first, hash, a, b);
    }
    if BucketOf(pages, first, hash, t) == r.pageId {
      InIndexRow(pages, first, s.a, r.pageId);
      assert InRow(grid[s.a], 0, r.pageId);
    }
  }

  ghost function BucketOf(pages: Pages, first: int, hash: Hash, t: Tuple): int
    requires DirShape(pages, first)
  {
    var s := HashToSlot(hash(t.key));
    Bucket(pages, first, s.a, s.b)
  }

  lemma ScannedIsStored(pages: Pages, first: int, hash: Hash, r: Rid, t: Tuple)
    requires IndexInv(pages, first, hash) && DirShape(pages, first) && InGrid(IndexGrid(pages, first), 0, r.pageId)
    requires LiveAt(pages, r) && pages[r.pageId].cells[r.slot] == Some(t)
    ensures Stored(pages, first, hash, t) && BucketOf(pages, first, hash, t) == r.pageId
  {
    hide IndexInv, InGrid, HashToSlot, Bucket;
    InIndexGrid(pages, first, hash, r);
  }

  lemma StoredIsScanned(pages: Pages, first: int, hash: Hash, t: Tuple) returns (r: Rid)
    requires IndexInv(pages, first, hash) && DirShape(pages, first) && Stored(pages, first, hash, t)
    ensures InGrid(IndexGrid(pages, first), 0, r.pageId) && LiveAt(pages, r) && pages[r.pageId].cells[r.slot] == Some(t)
  {
    hide IndexInv, InGrid, HashToSlot, DirShape, Bucket;
    var id := BucketOf(pages, first, hash, t);
    var i :| 0 <= i < |pages[id].cells| && pages[id].cells[i] == Some(t);
    r := Rid(id, i);
    InIndexGrid(pages, first, hash, r);
  }

  /** Different positions hold different tuples. */
  lemma PositionsDiffer(pages: Pages, first: int, hash: Hash, r: Rid, r': Rid, t: Tuple, t': Tuple)
    requires IndexInv(pages, first, hash) && DirShape(pages, first) && r != r' && LiveAt(pages, r) && LiveAt(pages, r')
    requires Stored(pages, first, hash, t) && BucketOf(pages, first, hash, t) == r.pageId && BucketOf(pages, first, hash, t') == r'.pageId
    requires pages[r.pageId].cells[r.slot] == Some(t) && pages[r'.pageId].cells[r'.slot] == Some(t')
    ensures t != t'
  {
    hide HashToSlot, DirShape, Tree;
    var s := HashToSlot(hash(t.key));
    assert BucketOK(pages, first, hash, s.a, s.b);
    assert KeysDistinct(pages[r.pageId].cells);
  }

  lemma ScanExact(pages: Pages, first: int, hash: Hash, model: map<int, Tuple>, rids: seq<Rid>, tuples: seq<Tuple>)
    requires IndexInv(pages, first, hash) && DirShape(pages, first) && Refines(pages, first, hash, model)
    requires NoDuplicates(rids) && TuplesAt(pages, rids, tuples)
    requires forall r :: r in rids <==> InGrid(IndexGrid(pages, first), 0, r.pageId) && LiveAt(pages, r)
    ensures forall t :: t in tuples <==> t.key in model && model[t.key] == t
    ensures forall i, j :: 0 <= i < j < |tuples| ==> tuples[i].key != tuples[j].key
  {
    hide IndexInv, InGrid, DirShape, LiveAt, Stored;
    forall i | 0 <= i < |tuples|
      ensures Stored(pages, first, hash, tuples[i]) && BucketOf(pages, first, hash, tuples[i]) == rids[i].pageId
    {
      assert rids[i] in rids;
      ScannedIsStored(pages, first, hash, rids[i], tuples[i]);
    }
    forall t | Stored(pages, first, hash, t) ensures t in tuples {
      var r := StoredIsScanned(pages, first, hash, t);
      var j :| 0 <= j < |rids| && rids[j] == r;
      assert tuples[j] == t;
    }
    forall i, j | 0 <= i < j < |tuples| ensures tuples[i] != tuples[j] {
      PositionsDiffer(pages, first, hash, rids[i], rids[j], tuples[i], tuples[j]);
    }
  }

  /** A full iteration over an index: every entry of the map, and each once. */
  method ScanIndex(index: LinkHashIndex) returns (tuples: seq<Tuple>)
    requires index.Valid()
    ensures forall t :: t in tuples <==> t.key in index.model && index.model[t.key] == t
    ensures forall i, j :: 0 <= i < j < |tuples| ==> tuples[i].key != tuples[j].key
  {
    hide IndexInv, Refines, DirShape, TableOf, InGrid, LiveAt, NoDuplicates;
    ghost var pages, first, hash := index.pages, index.first, index.hash;
    IndexTable(pages, first, hash);
    ghost var grid := IndexGrid(pages, first);
    var rids;
    rids, tuples := Iterate(index.pages, index.first, grid);
    ScanExact(pages, first, hash, index.model, rids, tuples);
  }
}
