/**
 * The state of the buffer pool and the steps of its operations.  Each operation runs under the
 * pool's latch and is one step here; disk reads and writes succeed.
 */
module PoolModel {
  import opened Bytes
  import opened ClockReplacers

  const STATUS_OFFSET := 0
  const LSN_OFFSET := 1
  const PAGE_ID_OFFSET := 5
  const HEADER_END := 9

  datatype Frame = Frame(pageId: int, pin: int, dirty: bool, data: Mem)

  datatype Pool = Pool(mapping: map<int, nat>, free: seq<nat>, frames: seq<Frame>, clock: Clock, disk: map<int, Mem>)

  /** What clients store: all bytes behind status, LSN and page id. */
  function Payload(d: Mem): Mem
    requires |d| == PAGE_SIZE
  {
    d[HEADER_END..]
  }

  // ---- Header writes.

  function SetPageId(d: Mem, id: int): (r: Mem)
    requires |d| == PAGE_SIZE && IsInt32(id)
    ensures |r| == PAGE_SIZE && Payload(r) == Payload(d) && r[STATUS_OFFSET] == d[STATUS_OFFSET]
    ensures GetInt(r, PAGE_ID_OFFSET) == id && GetInt(r, LSN_OFFSET) == GetInt(d, LSN_OFFSET)
  {
    PutInt(d, PAGE_ID_OFFSET, id)
  }

  function SetLsn(d: Mem, lsn: int): (r: Mem)
    requires |d| == PAGE_SIZE && IsInt32(lsn)
    ensures |r| == PAGE_SIZE && Payload(r) == Payload(d) && r[STATUS_OFFSET] == d[STATUS_OFFSET]
    ensures GetInt(r, LSN_OFFSET) == lsn && GetInt(r, PAGE_ID_OFFSET) == GetInt(d, PAGE_ID_OFFSET)
  {
    PutInt(d, LSN_OFFSET, lsn)
  }

  function SetStatus(d: Mem, status: byte): (r: Mem)
    requires |d| == PAGE_SIZE
    ensures |r| == PAGE_SIZE && Payload(r) == Payload(d) && r[STATUS_OFFSET] == status
    ensures GetInt(r, LSN_OFFSET) == GetInt(d, LSN_OFFSET) && GetInt(r, PAGE_ID_OFFSET) == GetInt(d, PAGE_ID_OFFSET)
  {
    d[STATUS_OFFSET := status]
  }

  function SetPayload(d: Mem, payload: Mem): (r: Mem)
    requires |d| == PAGE_SIZE && |payload| == PAGE_SIZE - HEADER_END
    ensures |r| == PAGE_SIZE && Payload(r) == payload && r[STATUS_OFFSET] == d[STATUS_OFFSET]
  {
    d[..HEADER_END] + payload
  }

  // ---- The frame invariant.

  ghost predicate InBounds(s: Pool) {
    && |s.clock.flags| == |s.frames| && s.clock.hand < |s.frames|
    && (forall p :: p in s.mapping ==> s.mapping[p] < |s.frames| && IsInt32(p) && p > INVALID_PAGE_ID)
    && (forall k :: 0 <= k < |s.free| ==> s.free[k] < |s.frames|)
    && (forall f :: 0 <= f < |s.frames| ==> |s.frames[f].data| == PAGE_SIZE)
    && (forall p :: p in s.disk ==> |s.disk[p]| == PAGE_SIZE)
  }

  ghost predicate Mapped(s: Pool, f: nat) {
    exists p :: p in s.mapping && s.mapping[p] == f
  }

  /** Free list and mapping partition the frames; the mapping agrees with the frames' page ids. */
  ghost predicate FrameInv(s: Pool) {
    && InBounds(s)
    && (forall i, j :: 0 <= i < j < |s.free| ==> s.free[i] != s.free[j])
    && (forall f: nat :: f < |s.frames| ==> (f in s.free <==> !Mapped(s, f)))
    && (forall p :: p in s.mapping ==> s.frames[s.mapping[p]].pageId == p && s.frames[s.mapping[p]].pin >= 0)
    && (forall k :: 0 <= k < |s.free| ==> s.frames[s.free[k]].pageId == INVALID_PAGE_ID)
  }

  /** The replacer holds exactly the mapped frames that nobody pins. */
  ghost predicate ReplacerExact(s: Pool) {
    |s.clock.flags| == |s.frames| &&
    forall f: nat :: f < |s.frames| ==> (Present(s.clock.flags[f]) <==> Mapped(s, f) && s.frames[f].pin == 0)
  }

  ghost predicate Inv(s: Pool) {
    FrameInv(s) && ReplacerExact(s)
  }

  /** No two pages share a frame. */
  lemma MappingInjective(s: Pool, p: int, q: int)
    requires FrameInv(s) && p in s.mapping && q in s.mapping && s.mapping[p] == s.mapping[q]
    ensures p == q
  {
    assert s.frames[s.mapping[p]].pageId == p;
  }

  // ---- Agreement with a plain map of pages: `view` is the payload last written to each page.

  ghost predicate Shown(s: Pool, p: int, payload: Mem)
    requires InBounds(s)
  {
    if p in s.mapping then Payload(s.frames[s.mapping[p]].data) == payload
    else OnDisk(s, p, payload)
  }

  ghost predicate OnDisk(s: Pool, p: int, payload: Mem)
    requires InBounds(s)
  {
    p in s.disk && Payload(s.disk[p]) == payload && s.disk[p][STATUS_OFFSET] == STATUS_EXIST
  }

  /** `touched` are the pages written by a client that has not yet reported them dirty. */
  ghost predicate Coherent(s: Pool, view: map<int, Mem>, touched: set<int>)
    requires InBounds(s)
  {
    && (forall p :: p in view ==> Shown(s, p, view[p]))
    && (forall p :: p in s.mapping ==> p in view && s.frames[s.mapping[p]].data[STATUS_OFFSET] == STATUS_EXIST)
    && (forall p :: p in s.mapping && !s.frames[s.mapping[p]].dirty && p !in touched ==> OnDisk(s, p, view[p]))
    && (forall p :: p in touched ==> p in s.mapping && s.frames[s.mapping[p]].pin > 0)
  }

  /** What coherence says about one page. */
  ghost predicate PageCoherent(s: Pool, view: map<int, Mem>, touched: set<int>, p: int)
    requires InBounds(s)
  {
    && (p in view ==> Shown(s, p, view[p]))
    && (p in s.mapping ==>
      && p in view && s.frames[s.mapping[p]].data[STATUS_OFFSET] == STATUS_EXIST
      && (!s.frames[s.mapping[p]].dirty && p !in touched ==> OnDisk(s, p, view[p])))
    && (p in touched ==> p in s.mapping && s.frames[s.mapping[p]].pin > 0)
  }

  lemma CoherentAt(s: Pool, view: map<int, Mem>, touched: set<int>, p: int)
    requires InBounds(s) && Coherent(s, view, touched)
    ensures PageCoherent(s, view, touched, p)
  {
  }

  lemma AllCoherent(s: Pool, view: map<int, Mem>, touched: set<int>)
    requires InBounds(s) && forall p :: PageCoherent(s, view, touched, p)
    ensures Coherent(s, view, touched)
  {
    hide Shown, OnDisk;
    forall p | p in view ensures Shown(s, p, view[p]) {
      assert PageCoherent(s, view, touched, p);
    }
    forall p | p in s.mapping
      ensures p in view && s.frames[s.mapping[p]].data[STATUS_OFFSET] == STATUS_EXIST
      ensures !s.frames[s.mapping[p]].dirty && p !in touched ==> OnDisk(s, p, view[p])
    {
      assert PageCoherent(s, view, touched, p);
    }
    forall p | p in touched ensures p in s.mapping && s.frames[s.mapping[p]].pin > 0 {
      assert PageCoherent(s, view, touched, p);
    }
  }

  /** A page keeps its part of coherence as long as it keeps its frame and its sector. */
  ghost predicate SamePage(s: Pool, s': Pool, p: int)
    requires InBounds(s) && InBounds(s')
  {
    && (p in s'.mapping <==> p in s.mapping) && (p in s.mapping ==> s'.frames[s'.mapping[p]] == s.frames[s.mapping[p]])
    && (p in s'.disk <==> p in s.disk) && (p in s.disk ==> s'.disk[p] == s.disk[p])
  }

  lemma SamePageCoherent(s: Pool, s': Pool, view: map<int, Mem>, view': map<int, Mem>, touched: set<int>, touched': set<int>, p: int)
    requires InBounds(s) && InBounds(s') && PageCoherent(s, view, touched, p) && SamePage(s, s', p)
    requires (p in view' <==> p in view) && (p in view ==> view'[p] == view[p]) && (p in touched' <==> p in touched)
    ensures PageCoherent(s', view', touched', p)
  {
  }

  /** A step that touches one page only keeps coherence if it keeps it for that page. */
  lemma StepCoherent(s: Pool, s': Pool, view: map<int, Mem>, view': map<int, Mem>, touched: set<int>, touched': set<int>, p: int)
    requires InBounds(s) && InBounds(s') && Coherent(s, view, touched) && PageCoherent(s', view', touched', p)
    requires forall q :: q != p ==> SamePage(s, s', q)
    requires forall q :: q != p ==> (q in view' <==> q in view) && (q in view ==> view'[q] == view[q]) && (q in touched' <==> q in touched)
    ensures Coherent(s', view', touched')
  {
    hide InBounds, Coherent, PageCoherent, SamePage;
    forall q ensures PageCoherent(s', view', touched', q) {
      if q != p {
        CoherentAt(s, view, touched, q);
        SamePageCoherent(s, s', view, view', touched, touched', q);
      }
    }
    AllCoherent(s', view', touched');
  }

  // ---- Steps.

  /** Gives up frame v for the victim's page: what evict_page does. */
  function Evicted(s: Pool, v: nat, clock: Clock): Pool
    requires v < |s.frames| && |s.frames[v].data| == PAGE_SIZE
  {
    var fr := s.frames[v];
    if fr.pageId !in s.mapping then s.(clock := clock)
    else
      var data := SetPageId(fr.data, INVALID_PAGE_ID);
      Pool(s.mapping - {fr.pageId}, s.free + [v],
           s.frames[v := fr.(pageId := INVALID_PAGE_ID, data := data)], clock,
           if fr.dirty then s.disk[fr.pageId := data] else s.disk)
  }

  /** Takes the first free frame for page p, which now has contents `data` and one pin. */
  function Occupied(s: Pool, p: int, dirty: bool, data: Mem): Pool
    requires s.free != [] && s.free[0] < |s.frames|
  {
    var f := s.free[0];
    Pool(s.mapping[p := f], s.free[1..], s.frames[f := Frame(p, 1, dirty, data)], s.clock, s.disk)
  }

  function LoadedData(s: Pool, p: int): Mem
    requires p in s.disk && |s.disk[p]| == PAGE_SIZE && IsInt32(p)
  {
    SetLsn(SetPageId(s.disk[p], p), -1)
  }

  function Hit(s: Pool, p: int): Pool
    requires p in s.mapping && s.mapping[p] < |s.frames| && s.mapping[p] < |s.clock.flags|
  {
    var f := s.mapping[p];
    s.(frames := s.frames[f := s.frames[f].(pin := s.frames[f].pin + 1)], clock := PinClock(s.clock, f))
  }

  function Unpinned(s: Pool, p: int, dirty: bool): Pool
    requires p in s.mapping ==> s.mapping[p] < |s.frames| && s.mapping[p] < |s.clock.flags|
  {
    if p !in s.mapping then s
    else
      var f := s.mapping[p];
      var fr := s.frames[f];
      var fr' := fr.(pin := fr.pin - 1, dirty := fr.dirty || dirty);
      s.(frames := s.frames[f := fr'], clock := if fr'.pin == 0 then UnpinClock(s.clock, f) else s.clock)
  }

  function Flushed(s: Pool, p: int): Pool
    requires p in s.mapping && s.mapping[p] < |s.frames|
  {
    var f := s.mapping[p];
    s.(disk := s.disk[p := s.frames[f].data], frames := s.frames[f := s.frames[f].(dirty := false)])
  }

  /** A client with a pin writes the payload. */
  function Written(s: Pool, p: int, payload: Mem): Pool
    requires p in s.mapping && s.mapping[p] < |s.frames| && |s.frames[s.mapping[p]].data| == PAGE_SIZE
    requires |payload| == PAGE_SIZE - HEADER_END
  {
    var f := s.mapping[p];
    s.(frames := s.frames[f := s.frames[f].(data := SetPayload(s.frames[f].data, payload))])
  }

  /** The sector of a freed page is marked; `known` is what the disk manager knows of the id. */
  function Freed(disk: map<int, Mem>, p: int, known: bool): map<int, Mem>
    requires p in disk ==> |disk[p]| == PAGE_SIZE
  {
    if known && p in disk then disk[p := SetStatus(disk[p], STATUS_FREE)] else disk
  }

  /** Removes an unpinned page; the replacer is not told. */
  function Deleted(s: Pool, p: int, known: bool): Pool
    requires p in s.mapping && s.mapping[p] < |s.frames| && |s.frames[s.mapping[p]].data| == PAGE_SIZE
    requires p in s.disk ==> |s.disk[p]| == PAGE_SIZE
  {
    var f := s.mapping[p];
    var fr := s.frames[f];
    s.(mapping := s.mapping - {p}, free := s.free + [f], disk := Freed(s.disk, p, known),
       frames := s.frames[f := fr.(pageId := INVALID_PAGE_ID, data := SetPageId(fr.data, INVALID_PAGE_ID))])
  }

  // ---- Every step keeps the invariants.

  lemma EvictKeeps(s: Pool, v: nat, clock: Clock)
    requires Inv(s) && IsVictim(s.clock, v) && Swept(s.clock, v, clock)
    ensures v < |s.frames| && s.frames[v].pin == 0 && s.frames[v].pageId in s.mapping
    ensures Inv(Evicted(s, v, clock))
    ensures Evicted(s, v, clock).mapping == s.mapping - {s.frames[v].pageId}
    ensures Evicted(s, v, clock).free == s.free + [v]
  {
    hide SetPageId, Decode;
    var p :| p in s.mapping && s.mapping[p] == v;
    var s' := Evicted(s, v, clock);
    RemovePage(s, s', p);
    forall f: nat | f < |s.frames|
      ensures Present(clock.flags[f]) <==> Mapped(s', f) && s'.frames[f].pin == 0
    {
      assert Present(clock.flags[f]) <==> f != v && Present(s.clock.flags[f]);
    }
  }

  /** Unmapping a page and appending its frame to the free list keeps the partition. */
  lemma RemovePage(s: Pool, s': Pool, p: int)
    requires FrameInv(s) && p in s.mapping && InBounds(s')
    requires var f := s.mapping[p];
      && s'.mapping == s.mapping - {p} && s'.free == s.free + [f]
      && |s'.frames| == |s.frames| && s'.frames[f].pageId == INVALID_PAGE_ID
      && forall g :: 0 <= g < |s.frames| && g != f ==> s'.frames[g] == s.frames[g]
    ensures FrameInv(s')
    ensures forall g: nat :: g < |s.frames| ==> (Mapped(s', g) <==> Mapped(s, g) && g != s.mapping[p])
  {
    var f := s.mapping[p];
    forall g: nat | g < |s.frames| ensures Mapped(s', g) <==> Mapped(s, g) && g != f {
      if Mapped(s, g) && g != f {
        var q :| q in s.mapping && s.mapping[q] == g;
        assert q in s'.mapping && s'.mapping[q] == g;
      }
      if Mapped(s', g) {
        var q :| q in s'.mapping && s'.mapping[q] == g;
        assert s.mapping[q] == g;
        if g == f {
          MappingInjective(s, p, q);
        }
      }
    }
    assert Mapped(s, f);
    assert f !in s.free;
    forall q | q in s'.mapping ensures s'.frames[s'.mapping[q]].pageId == q && s'.frames[s'.mapping[q]].pin >= 0 {
      if s.mapping[q] == f {
        MappingInjective(s, p, q);
      }
    }
  }

  lemma OccupyMaps(s: Pool, p: int, dirty: bool, data: Mem, g: nat)
    requires s.free != [] && s.free[0] < |s.frames| && p !in s.mapping
    ensures Mapped(Occupied(s, p, dirty, data), g) <==> Mapped(s, g) || g == s.free[0]
  {
    var s' := Occupied(s, p, dirty, data);
    if Mapped(s, g) {
      var q :| q in s.mapping && s.mapping[q] == g;
      assert q in s'.mapping && s'.mapping[q] == g;
    }
    assert p in s'.mapping && s'.mapping[p] == s.free[0];
  }

  lemma OccupyKeeps(s: Pool, p: int, dirty: bool, data: Mem)
    requires Inv(s) && s.free != [] && p !in s.mapping && p > INVALID_PAGE_ID && IsInt32(p) && |data| == PAGE_SIZE
    ensures Inv(Occupied(s, p, dirty, data))
  {
    var f, s' := s.free[0], Occupied(s, p, dirty, data);
    assert f in s.free && !Mapped(s, f);
    forall g: nat | g < |s.frames| ensures Mapped(s', g) <==> Mapped(s, g) || g == f {
      OccupyMaps(s, p, dirty, data, g);
    }
    forall q | q in s.mapping ensures Mapped(s, s.mapping[q]) {
    }
    hide Mapped;
    forall q | q in s'.mapping ensures s'.frames[s'.mapping[q]].pageId == q && s'.frames[s'.mapping[q]].pin >= 0 {
    }
    forall k | 0 <= k < |s'.free| ensures s'.frames[s'.free[k]].pageId == INVALID_PAGE_ID {
      assert s'.free[k] == s.free[k + 1];
    }
    assert forall g: nat :: g in s'.free <==> g in s.free && g != f by {
      assert s.free == [f] + s'.free;
    }
  }

  /** Changing one mapped frame other than its page id keeps the partition. */
  lemma FrameChanged(s: Pool, s': Pool, p: int)
    requires FrameInv(s) && p in s.mapping && InBounds(s')
    requires s'.mapping == s.mapping && s'.free == s.free && |s'.frames| == |s.frames|
    requires s'.frames[s.mapping[p]].pageId == p && s'.frames[s.mapping[p]].pin >= 0
    requires forall g :: 0 <= g < |s.frames| && g != s.mapping[p] ==> s'.frames[g] == s.frames[g]
    ensures FrameInv(s')
    ensures forall g: nat :: g < |s.frames| ==> (Mapped(s', g) <==> Mapped(s, g))
  {
    forall g: nat | g < |s.frames| ensures Mapped(s', g) <==> Mapped(s, g) {
    }
    assert Mapped(s, s.mapping[p]);
    forall q | q in s'.mapping ensures s'.frames[s'.mapping[q]].pageId == q && s'.frames[s'.mapping[q]].pin >= 0 {
      if s.mapping[q] == s.mapping[p] {
        MappingInjective(s, p, q);
      }
    }
    forall k | 0 <= k < |s.free| ensures s'.frames[s.free[k]].pageId == INVALID_PAGE_ID {
      assert s.free[k] in s.free;
    }
  }

  lemma HitKeeps(s: Pool, p: int)
    requires Inv(s) && p in s.mapping
    ensures Inv(Hit(s, p))
  {
    FrameChanged(s, Hit(s, p), p);
    assert Mapped(s, s.mapping[p]);
  }

  lemma UnpinKeeps(s: Pool, p: int, dirty: bool)
    requires Inv(s) && (p in s.mapping ==> s.frames[s.mapping[p]].pin > 0)
    ensures Inv(Unpinned(s, p, dirty))
  {
    if p in s.mapping {
      FrameChanged(s, Unpinned(s, p, dirty), p);
      assert Mapped(s, s.mapping[p]);
    }
  }

  lemma FlushKeeps(s: Pool, p: int)
    requires Inv(s) && p in s.mapping
    ensures Inv(Flushed(s, p))
  {
    FrameChanged(s, Flushed(s, p), p);
  }

  lemma WriteKeeps(s: Pool, p: int, payload: Mem)
    requires Inv(s) && p in s.mapping && |payload| == PAGE_SIZE - HEADER_END
    ensures Inv(Written(s, p, payload))
  {
    FrameChanged(s, Written(s, p, payload), p);
  }

  /** Deleting a cached page keeps the partition, but never leaves the replacer exact. */
  lemma DeleteKeepsPartition(s: Pool, p: int, known: bool)
    requires Inv(s) && p in s.mapping && s.frames[s.mapping[p]].pin == 0
    ensures FrameInv(Deleted(s, p, known)) && !ReplacerExact(Deleted(s, p, known))
  {
    hide SetPageId, Decode;
    RemovePage(s, Deleted(s, p, known), p);
    assert Mapped(s, s.mapping[p]);
  }

  // ---- Blocking.

  /** With no free frame, a victim exists exactly if some frame is not pinned. */
  lemma BlocksOnlyIfAllPinned(s: Pool)
    requires Inv(s) && s.free == []
    ensures CountPresent(s.clock.flags) > 0 <==> exists f: nat :: f < |s.frames| && s.frames[f].pin == 0
  {
    CountZero(s.clock.flags);
    if f: nat :| f < |s.frames| && s.frames[f].pin == 0 {
      assert f !in s.free;
      assert Present(s.clock.flags[f]);
    }
  }
}
