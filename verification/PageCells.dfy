/**
 * The table pages of an index as slots with tuples are the pages kept in bytes: whatever the tuples mean, both
 * insert, delete and step the same way.
 */
module PageCells {
  import opened Bytes
  import opened PageLayout
  import opened TablePageOps
  import opened TablePages
  import opened HashPages
  import opened Options
  import LinkHashTree

  /** Slot by slot, cells are the tuples of the page d, read by meaning. */
  ghost predicate Same(d: Mem, s: nat, meaning: Mem -> Tuple, cells: seq<Option<Tuple>>)
    requires Inv(d, s)
  {
    forall i: nat :: CellOf(cells, i) == if i in Contents(d, s) then Some(meaning(Contents(d, s)[i].bytes)) else None
  }

  function CellOf(cells: seq<Option<Tuple>>, i: nat): Option<Tuple> {
    if i < |cells| then cells[i] else None
  }

  lemma LiveIffStored(d: Mem, s: nat, i: nat)
    requires Inv(d, s)
    ensures i in Contents(d, s) <==> i < |Recs(d)| && Live(Recs(d)[i])
  {
    hide Decode;
  }

  /** The next tuple of the page is the next tuple of the slots. */
  lemma NextMatches(d: Mem, s: nat, meaning: Mem -> Tuple, cells: seq<Option<Tuple>>, from: nat)
    requires Inv(d, s) && Same(d, s, meaning, cells)
    ensures NextSlot(Recs(d), from) == NextLive(cells, from)
  {
    InvReadable(d, s);
    hide Inv, Contents, NextSlot, Recs;
    NextSlotExact(Recs(d), from);
    var n, m := NextSlot(Recs(d), from), NextLive(cells, from);
    if n >= 0 {
      LiveIffStored(d, s, n);
      assert CellOf(cells, n).Some?;
    }
    if m >= 0 {
      LiveIffStored(d, s, m);
      assert CellOf(cells, m).Some?;
    }
  }

  // ---- Counting.

  ghost function Used(cells: seq<Option<Tuple>>): (r: set<nat>)
    ensures forall i: nat :: i in r <==> i < |cells| && cells[i].Some?
  {
    set i: nat | i < |cells| && cells[i].Some?
  }

  lemma {:induction false} UsedCount(cells: seq<Option<Tuple>>)
    ensures |Used(cells)| == LinkHashTree.LiveCount(cells)
  {
    if cells != [] {
      var n := |cells| - 1;
      UsedCount(cells[..n]);
      if cells[n].Some? {
        assert Used(cells) == Used(cells[..n]) + {n};
      } else {
        assert Used(cells) == Used(cells[..n]);
      }
    } else {
      assert Used(cells) == {};
    }
  }

  lemma CountMatches(d: Mem, s: nat, meaning: Mem -> Tuple, cells: seq<Option<Tuple>>)
    requires Inv(d, s) && Same(d, s, meaning, cells)
    ensures |Contents(d, s)| == LinkHashTree.LiveCount(cells)
  {
    hide Inv, Contents;
    forall i: nat ensures i in Used(cells) <==> i in Contents(d, s) {
      assert CellOf(cells, i).Some? <==> i in Contents(d, s);
    }
    assert Used(cells) == Contents(d, s).Keys;
    assert |Contents(d, s).Keys| == |Contents(d, s)|;
    UsedCount(cells);
  }

  lemma FreeMatches(d: Mem, s: nat, meaning: Mem -> Tuple, cells: seq<Option<Tuple>>)
    requires Inv(d, s) && Readable(d) && Same(d, s, meaning, cells)
    ensures FirstEmpty(Recs(d)) == LinkHashTree.FirstFree(cells)
  {
    hide Inv, Contents, Recs, FirstEmpty, LinkHashTree.FirstFree;
    var n, m := FirstEmpty(Recs(d)), LinkHashTree.FirstFree(cells);
    LiveIffStored(d, s, n);
    LiveIffStored(d, s, m);
    assert CellOf(cells, n).None?;
    assert CellOf(cells, m).None?;
  }

  // ---- The two operations.

  /** A page inserts where the slots do, and has room exactly below its capacity, unless the size spills. */
  method InsertBoth(page: TablePage, tuple: Mem, ghost meaning: Mem -> Tuple, ghost cells: seq<Option<Tuple>>) returns (ok: bool, rid: Rid)
    requires |tuple| > 0 && page.Valid(|tuple|) && Same(page.data[..], |tuple|, meaning, cells)
    modifies page.data
    ensures ok <==> LinkHashTree.LiveCount(cells) < Capacity(|tuple|) || Spills(|tuple|)
    ensures LinkHashTree.LiveCount(cells) < Capacity(|tuple|) ==>
      && page.Valid(|tuple|) && Same(page.data[..], |tuple|, meaning, LinkHashTree.PutCell(cells, meaning(tuple)))
      && rid == Rid(page.pageId, LinkHashTree.FirstFree(cells))
    ensures !ok ==> page.Valid(|tuple|) && Same(page.data[..], |tuple|, meaning, cells)
    ensures ok && LinkHashTree.LiveCount(cells) >= Capacity(|tuple|) ==> rid.slot == -1
  {
    hide Inv, Contents, Capacity, Spills, FirstEmpty, LinkHashTree.FirstFree;
    InvReadable(page.data[..], |tuple|);
    CountMatches(page.data[..], |tuple|, meaning, cells);
    FreeMatches(page.data[..], |tuple|, meaning, cells);
    ok, rid := page.InsertTuple(tuple);
  }

  /** A page and the slots lose the same tuple. */
  method DeleteBoth(page: TablePage, slot: nat, ghost s: nat, ghost meaning: Mem -> Tuple, ghost cells: seq<Option<Tuple>>)
    requires s > 0 && page.Valid(s) && Same(page.data[..], s, meaning, cells) && slot < |cells| && cells[slot].Some?
    modifies page.data
    ensures page.Valid(s) && Same(page.data[..], s, meaning, cells[slot := None])
  {
    hide Inv, Contents;
    assert CellOf(cells, slot).Some?;
    page.ApplyDelete(slot, s);
  }
}
