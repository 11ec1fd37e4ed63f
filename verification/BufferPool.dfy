/** The buffer pool: a page cache that agrees with a plain map from page ids to page contents. */
module BufferPools {
  import opened Bytes
  import opened ClockReplacers
  import opened PoolModel
  import opened Collections

  // ---- Every step agrees with the map of pages.

  lemma EvictCoherent(s: Pool, v: nat, clock: Clock, view: map<int, Mem>, touched: set<int>)
    requires Inv(s) && Coherent(s, view, touched) && IsVictim(s.clock, v) && Swept(s.clock, v, clock)
    ensures v < |s.frames| && Inv(Evicted(s, v, clock)) && Coherent(Evicted(s, v, clock), view, touched)
  {
    hide SetPageId, IsVictim, Swept, Coherent, ReplacerExact;
    EvictKeeps(s, v, clock);
    VictimFrame(s, v, clock);
    var s', p := Evicted(s, v, clock), s.frames[v].pageId;
    CoherentAt(s, view, touched, p);
    forall q | q != p ensures SamePage(s, s', q) {
      if q in s.mapping {
        OtherFrame(s, p, q);
      }
    }
    StepCoherent(s, s', view, view, touched, touched, p);
  }

  lemma VictimPage(s: Pool, v: nat, p: int)
    requires FrameInv(s) && v < |s.frames| && p == s.frames[v].pageId && p in s.mapping
    ensures s.mapping[p] == v || !Mapped(s, v)
  {
    if q :| q in s.mapping && s.mapping[q] == v {
      assert s.frames[s.mapping[q]].pageId == q;
    }
  }

  lemma OtherFrame(s: Pool, p: int, q: int)
    requires FrameInv(s) && p in s.mapping && q in s.mapping && p != q
    ensures s.mapping[p] != s.mapping[q]
  {
    if s.mapping[p] == s.mapping[q] {
      MappingInjective(s, p, q);
    }
  }

  lemma OccupyCoherent(s: Pool, p: int, dirty: bool, data: Mem, view: map<int, Mem>, touched: set<int>)
    requires Inv(s) && Coherent(s, view, touched) && s.free != [] && p !in s.mapping && p > INVALID_PAGE_ID && IsInt32(p)
    requires |data| == PAGE_SIZE && data[STATUS_OFFSET] == STATUS_EXIST
    requires !dirty ==> OnDisk(s, p, Payload(data))
    ensures Inv(Occupied(s, p, dirty, data)) && Coherent(Occupied(s, p, dirty, data), view[p := Payload(data)], touched)
  {
    hide Coherent, ReplacerExact, Payload;
    OccupyKeeps(s, p, dirty, data);
    var s' := Occupied(s, p, dirty, data);
    CoherentAt(s, view, touched, p);
    UnmappedFree(s);
    hide FrameInv, Mapped;
    FrameSizes(s);
    FrameSizes(s');
    StepCoherent(s, s', view, view[p := Payload(data)], touched, touched, p);
  }

  lemma UnmappedFree(s: Pool)
    requires FrameInv(s) && s.free != []
    ensures forall q :: q in s.mapping ==> s.mapping[q] != s.free[0]
  {
    forall q | q in s.mapping ensures s.mapping[q] != s.free[0] {
      assert Mapped(s, s.mapping[q]);
      assert s.free[0] in s.free;
    }
  }

  lemma OtherFrames(s: Pool, p: int)
    requires FrameInv(s) && p in s.mapping
    ensures forall q :: q in s.mapping && q != p ==> s.mapping[q] != s.mapping[p]
  {
    forall q | q in s.mapping && q != p ensures s.mapping[q] != s.mapping[p] {
      OtherFrame(s, p, q);
    }
  }

  lemma HitCoherent(s: Pool, p: int, view: map<int, Mem>, touched: set<int>)
    requires Inv(s) && Coherent(s, view, touched) && p in s.mapping
    ensures Inv(Hit(s, p)) && Coherent(Hit(s, p), view, touched)
  {
    hide Coherent, ReplacerExact;
    HitKeeps(s, p);
    CoherentAt(s, view, touched, p);
    OtherFrames(s, p);
    FrameSizes(s);
    FrameSizes(Hit(s, p));
    hide FrameInv;
    StepCoherent(s, Hit(s, p), view, view, touched, touched, p);
  }

  /** Reporting a page dirty settles its writes; the last pin must not be given up with unreported ones. */
  lemma UnpinCoherent(s: Pool, p: int, dirty: bool, view: map<int, Mem>, touched: set<int>)
    requires Inv(s) && Coherent(s, view, touched)
    requires p in s.mapping ==> s.frames[s.mapping[p]].pin > 0 && (p in touched && s.frames[s.mapping[p]].pin == 1 ==> dirty)
    ensures Inv(Unpinned(s, p, dirty)) && Coherent(Unpinned(s, p, dirty), view, if dirty then touched - {p} else touched)
  {
    hide Coherent, ReplacerExact;
    UnpinKeeps(s, p, dirty);
    CoherentAt(s, view, touched, p);
    if p in s.mapping {
      OtherFrames(s, p);
    }
    FrameSizes(s);
    FrameSizes(Unpinned(s, p, dirty));
    hide FrameInv;
    StepCoherent(s, Unpinned(s, p, dirty), view, view, touched, if dirty then touched - {p} else touched, p);
  }

  lemma WriteCoherent(s: Pool, p: int, payload: Mem, view: map<int, Mem>, touched: set<int>)
    requires Inv(s) && Coherent(s, view, touched) && p in s.mapping && s.frames[s.mapping[p]].pin > 0
    requires |payload| == PAGE_SIZE - HEADER_END
    ensures Inv(Written(s, p, payload)) && Coherent(Written(s, p, payload), view[p := payload], touched + {p})
  {
    hide Coherent, ReplacerExact, SetPayload;
    WriteKeeps(s, p, payload);
    CoherentAt(s, view, touched, p);
    OtherFrames(s, p);
    FrameSizes(s);
    FrameSizes(Written(s, p, payload));
    hide FrameInv;
    StepCoherent(s, Written(s, p, payload), view, view[p := payload], touched, touched + {p}, p);
  }

  lemma FlushCoherent(s: Pool, p: int, view: map<int, Mem>, touched: set<int>)
    requires Inv(s) && Coherent(s, view, touched) && p in s.mapping
    ensures Inv(Flushed(s, p)) && Coherent(Flushed(s, p), view, touched - {p})
  {
    hide Coherent, ReplacerExact;
    FlushKeeps(s, p);
    CoherentAt(s, view, touched, p);
    OtherFrames(s, p);
    FrameSizes(s);
    FrameSizes(Flushed(s, p));
    hide FrameInv;
    StepCoherent(s, Flushed(s, p), view, view, touched, touched - {p}, p);
  }

  lemma FlushOnDisk(s: Pool, p: int, view: map<int, Mem>, touched: set<int>)
    requires Inv(s) && Coherent(s, view, touched) && p in s.mapping
    ensures InBounds(Flushed(s, p)) && p in view && OnDisk(Flushed(s, p), p, view[p])
    ensures forall q :: q in view && q != p && OnDisk(s, q, view[q]) ==> OnDisk(Flushed(s, p), q, view[q])
  {
    assert Shown(s, p, view[p]);
  }

  /** Deleting a page affects no other page. */
  lemma DeleteCoherent(s: Pool, p: int, known: bool, view: map<int, Mem>, touched: set<int>)
    requires Inv(s) && Coherent(s, view, touched) && p in s.mapping && s.frames[s.mapping[p]].pin == 0
    ensures InBounds(Deleted(s, p, known)) && Coherent(Deleted(s, p, known), view - {p}, touched)
  {
    hide Coherent, ReplacerExact, SetPageId, SetStatus;
    DeleteKeepsPartition(s, p, known);
    CoherentAt(s, view, touched, p);
    OtherFrames(s, p);
    StepCoherent(s, Deleted(s, p, known), view, view - {p}, touched, touched, p);
  }

  /** Freeing a page that is not cached. */
  lemma FreedCoherent(s: Pool, p: int, known: bool, view: map<int, Mem>, touched: set<int>)
    requires Inv(s) && Coherent(s, view, touched) && p !in s.mapping
    ensures var s' := s.(disk := Freed(s.disk, p, known)); Inv(s') && Coherent(s', view - {p}, touched)
  {
    hide Coherent, SetStatus;
    var s' := s.(disk := Freed(s.disk, p, known));
    assert forall f: nat :: Mapped(s', f) <==> Mapped(s, f);
    CoherentAt(s, view, touched, p);
    StepCoherent(s, s', view, view - {p}, touched, touched, p);
  }

  // ---- A pinned page can be evicted after a deletion.

  /** The deleted page's frame is handed to a new page, while the replacer still offers it. */
  lemma DeletionExposesPinnedPage(s: Pool, p: int, known: bool, q: int, data: Mem)
    requires Inv(s) && p in s.mapping && s.frames[s.mapping[p]].pin == 0 && s.free == []
    requires q !in s.mapping && q > INVALID_PAGE_ID && IsInt32(q) && |data| == PAGE_SIZE
    ensures var s1 := Deleted(s, p, known); s1.free == [s.mapping[p]] && InBounds(s1)
    ensures var s2 := Occupied(Deleted(s, p, known), q, true, data); var f := s2.mapping[q];
      s2.frames[f].pin == 1 && Present(s2.clock.flags[f])
  {
    assert Mapped(s, s.mapping[p]);
    DeleteKeepsPartition(s, p, known);
  }

  /** In a pool of one frame the next victim is the pinned page. */
  lemma PinnedPageEvicted(s: Pool, p: int, known: bool, q: int, data: Mem, clock: Clock, v: nat)
    requires Inv(s) && |s.frames| == 1 && p in s.mapping && s.frames[s.mapping[p]].pin == 0 && s.free == []
    requires q !in s.mapping && q > INVALID_PAGE_ID && IsInt32(q) && |data| == PAGE_SIZE
    requires var s2 := Occupied(Deleted(s, p, known), q, true, data); IsVictim(s2.clock, v) && Swept(s2.clock, v, clock)
    ensures var s2 := Occupied(Deleted(s, p, known), q, true, data);
      && v == s2.mapping[q] && s2.frames[v].pin == 1
      && q !in Evicted(s2, v, clock).mapping
  {
    DeletionExposesPinnedPage(s, p, known, q, data);
  }

  // ---- Pinned pages stay where they are.

  /** Pages other than q that stay in the pool keep frame, pins and bytes, and pinned ones do stay. */
  ghost predicate Undisturbed(s: Pool, s': Pool, q: int) {
    && |s'.frames| == |s.frames|
    && (forall p :: p in s.mapping && p in s'.mapping && p != q ==>
      s'.mapping[p] == s.mapping[p] && (s.mapping[p] < |s.frames| ==> s'.frames[s.mapping[p]] == s.frames[s.mapping[p]]))
    && (forall p :: p in s.mapping && p != q && s.mapping[p] < |s.frames| && s.frames[s.mapping[p]].pin > 0 ==> p in s'.mapping)
  }

  lemma RoomUndisturbed(s: Pool, s': Pool, q: int)
    requires Inv(s) && RoomMade(s, s')
    ensures Undisturbed(s, s', q)
  {
    if s.free == [] {
      hide SetPageId, IsVictim, Swept, Mapped;
      var v: nat, c: Clock :| IsEviction(s, s', v, c);
      EvictKeeps(s, v, c);
      var pv := s.frames[v].pageId;
      VictimFrame(s, v, c);
      forall p | p in s.mapping && p != pv ensures s.mapping[p] != v {
        OtherFrame(s, pv, p);
      }
    }
  }

  lemma VictimFrame(s: Pool, v: nat, c: Clock)
    requires Inv(s) && IsVictim(s.clock, v) && Swept(s.clock, v, c)
    ensures v < |s.frames| && s.frames[v].pageId in s.mapping && s.mapping[s.frames[v].pageId] == v
  {
    EvictKeeps(s, v, c);
    assert Mapped(s, v);
    VictimPage(s, v, s.frames[v].pageId);
  }

  /** Afterwards, a change of a free frame or the page that takes it disturbs nobody either. */
  lemma FreeFrameUndisturbed(s: Pool, s1: Pool, s2: Pool, q: int)
    requires Undisturbed(s, s1, q) && Inv(s1) && s1.free != [] && |s2.frames| == |s1.frames|
    requires s2.mapping == s1.mapping || s2.mapping == s1.mapping[q := s1.free[0]]
    requires forall f: nat :: f < |s1.frames| && f != s1.free[0] ==> s2.frames[f] == s1.frames[f]
    ensures Undisturbed(s, s2, q)
  {
    hide ReplacerExact;
    forall p | p in s1.mapping ensures s1.mapping[p] != s1.free[0] && s1.mapping[p] < |s1.frames| {
      assert Mapped(s1, s1.mapping[p]);
      assert s1.free[0] in s1.free;
    }
  }

  lemma HitUndisturbed(s: Pool, q: int)
    requires Inv(s) && q in s.mapping
    ensures Undisturbed(s, Hit(s, q), q)
  {
    forall p | p in s.mapping && p != q ensures s.mapping[p] != s.mapping[q] {
      OtherFrame(s, q, p);
    }
  }

  // ---- The code.

  /** Frame v was chosen by the replacer and given up; nobody had pinned its page. */
  ghost predicate IsEviction(s: Pool, s': Pool, v: nat, c: Clock) {
    && v < |s.frames| && |s.frames[v].data| == PAGE_SIZE && s.frames[v].pin == 0
    && IsVictim(s.clock, v) && Swept(s.clock, v, c) && s' == Evicted(s, v, c)
  }

  /** What looking for a free frame does: nothing if there is one, else a single eviction. */
  ghost predicate RoomMade(s: Pool, s': Pool) {
    if s.free != [] then s' == s else exists v: nat, c: Clock :: IsEviction(s, s', v, c)
  }

  /** The replacer's victim, which nobody had pinned, is unmapped and its frame is the only free one. */
  ghost predicate OneVictim(s: Pool, s': Pool) {
    && |s'.free| == 1 && IsVictim(s.clock, s'.free[0]) && s'.free[0] < |s.frames|
    && s.frames[s'.free[0]].pin == 0 && s'.mapping == s.mapping - {s.frames[s'.free[0]].pageId}
  }

  /** All frames but f are the same. */
  ghost predicate OneFrame(frames: seq<Frame>, frames': seq<Frame>, f: nat) {
    |frames'| == |frames| && forall g :: 0 <= g < |frames| && g != f ==> frames'[g] == frames[g]
  }

  /** The first free frame now holds page p, pinned once and with its id in its header; nothing else has changed. */
  ghost predicate TakenBy(s: Pool, s': Pool, p: int, dirty: bool) {
    && s.free != [] && s.free[0] < |s.frames| && OneFrame(s.frames, s'.frames, s.free[0])
    && s'.mapping == s.mapping[p := s.free[0]] && s'.free == s.free[1..] && s'.clock == s.clock && s'.disk == s.disk
    && var fr := s'.frames[s.free[0]];
       && fr.pageId == p && fr.pin == 1 && fr.dirty == dirty
       && |fr.data| == PAGE_SIZE && fr.data[STATUS_OFFSET] == STATUS_EXIST
       && GetInt(fr.data, PAGE_ID_OFFSET) == p && GetInt(fr.data, LSN_OFFSET) == -1
  }

  /** The first free frame has other bytes; nothing else has changed. */
  ghost predicate Scribbled(s: Pool, s': Pool) {
    && s.free != [] && s.free[0] < |s.frames| && OneFrame(s.frames, s'.frames, s.free[0])
    && s'.mapping == s.mapping && s'.free == s.free && s'.clock == s.clock && s'.disk == s.disk
  }

  class BufferPool {
    var mapping: map<int, nat>
    var freeList: seq<nat>
    var frames: seq<Frame>
    const replacer: ClockReplacer
    var disk: map<int, Mem>

    /** The contents clients have last written to each allocated page. */
    ghost var view: map<int, Mem>
    /** Pages with writes not yet reported by an unpin. */
    ghost var touched: set<int>

    function State(): Pool
      reads this, replacer, replacer.flags
    {
      Pool(mapping, freeList, frames, replacer.View(), disk)
    }

    ghost predicate Valid()
      reads this, replacer, replacer.flags
    {
      && replacer.Valid() && replacer.poolSize == |frames|
      && Inv(State()) && Coherent(State(), view, touched)
    }

    constructor (poolSize: nat, disk: map<int, Mem>, ghost pages: map<int, Mem>)
      requires poolSize > 0 && forall p :: p in disk ==> |disk[p]| == PAGE_SIZE
      requires forall p :: p in pages ==> p in disk && Payload(disk[p]) == pages[p] && disk[p][STATUS_OFFSET] == STATUS_EXIST
      ensures Valid() && view == pages && touched == {} && |frames| == poolSize && fresh(replacer) && fresh(replacer.flags)
      ensures mapping == map[] && freeList == seq(poolSize, i => i) && this.disk == disk
    {
      replacer := new ClockReplacer(poolSize);
      mapping, view, touched := map[], pages, {};
      this.disk := disk;
      frames := seq(poolSize, _ => Frame(INVALID_PAGE_ID, 0, false, seq(PAGE_SIZE, _ => 0)));
      freeList := seq(poolSize, i => i);
      new;
      StartState(State(), pages);
    }

    /** Evicts a page if there is no free frame; the caller has waited until that is possible. */
    method EnsureFree()
      requires Valid() && (freeList != [] || replacer.exitNum > 0)
      modifies this`mapping, this`freeList, this`frames, this`disk, replacer, replacer.flags
      ensures Valid() && freeList != [] && |frames| == |old(frames)|
      ensures RoomMade(old(State()), State())
      ensures old(freeList) != [] ==> State() == old(State())
      ensures old(freeList) == [] ==> OneVictim(old(State()), State())
    {
      hide Coherent, Inv, IsVictim, Swept;
      while freeList == []
        invariant Valid() && |frames| == |old(frames)|
        invariant freeList == [] ==> State() == old(State()) && replacer.exitNum > 0
        invariant freeList != [] ==> RoomMade(old(State()), State())
        invariant old(freeList) != [] ==> State() == old(State())
        invariant old(freeList) == [] && freeList != [] ==> OneVictim(old(State()), State())
        decreases freeList == []
      {
        ghost var s := State();
        var frame, _ := replacer.TakeVictim();
        EvictKeeps(s, frame, replacer.View());
        EvictCoherent(s, frame, replacer.View(), view, touched);
        FrameSizes(s);
        EvictPage(frame);
        assert IsEviction(s, State(), frame, replacer.View());
      }
    }

    /** Unmaps the frame's page and writes it back if it is dirty. */
    method EvictPage(frame: nat)
      requires frame < |frames| && |frames[frame].data| == PAGE_SIZE
      modifies this`mapping, this`freeList, this`frames, this`disk
      ensures State() == Evicted(old(State()), frame, replacer.View())
      ensures old(frames[frame].pageId) !in old(mapping) ==> State() == old(State())
      ensures old(frames[frame].pageId) in old(mapping) ==>
        && mapping == old(mapping) - {old(frames[frame].pageId)} && freeList == old(freeList) + [frame]
        && OneFrame(old(frames), frames, frame) && frames[frame].pageId == INVALID_PAGE_ID
        && |frames[frame].data| == PAGE_SIZE && GetInt(frames[frame].data, PAGE_ID_OFFSET) == INVALID_PAGE_ID
        && Payload(frames[frame].data) == Payload(old(frames)[frame].data)
        && disk == if old(frames)[frame].dirty then old(disk)[old(frames)[frame].pageId := frames[frame].data] else old(disk)
    {
      hide SetPageId, Decode, Payload;
      var fr := frames[frame];
      if fr.pageId !in mapping {
        return;
      }
      var data := SetPageId(fr.data, INVALID_PAGE_ID);
      frames := frames[frame := fr.(pageId := INVALID_PAGE_ID, data := data)];
      mapping := mapping - {fr.pageId};
      freeList := freeList + [frame];
      if fr.dirty {
        disk := disk[fr.pageId := data];
      }
    }

    /** Gives the first free frame to the page, with one pin. */
    method Occupy(pageId: int, dirty: bool, data: Mem) returns (frame: nat)
      requires Valid() && freeList != [] && pageId !in mapping && pageId > INVALID_PAGE_ID && IsInt32(pageId)
      requires |data| == PAGE_SIZE && data[STATUS_OFFSET] == STATUS_EXIST && (!dirty ==> OnDisk(State(), pageId, Payload(data)))
      modifies this`mapping, this`freeList, this`frames, this`view
      ensures Valid() && frame == old(freeList)[0] < |old(frames)| && State() == Occupied(old(State()), pageId, dirty, data)
      ensures view == old(view)[pageId := Payload(data)]
    {
      hide Coherent, Inv, Payload;
      ghost var s := State();
      FrameSizes(s);
      OccupyCoherent(s, pageId, dirty, data, view, touched);
      frame := freeList[0];
      freeList := freeList[1..];
      mapping := mapping[pageId := frame];
      frames := frames[frame := Frame(pageId, 1, dirty, data)];
      view := view[pageId := Payload(data)];
    }

    /** A new page; `pageId` and the sector `buf` written for it come from the disk manager's allocation. */
    method AllocPage(pageId: int, buf: Mem) returns (frame: nat)
      requires Valid() && (freeList != [] || replacer.exitNum > 0)
      requires pageId > INVALID_PAGE_ID && IsInt32(pageId) && pageId !in view && pageId !in mapping && |buf| == PAGE_SIZE
      modifies this`mapping, this`freeList, this`frames, this`disk, this`view, replacer, replacer.flags
      ensures Valid() && pageId in mapping && mapping[pageId] == frame
      ensures frames[frame].pin == 1 && frames[frame].dirty
      ensures view == old(view)[pageId := Payload(frames[frame].data)]
      ensures exists s: Pool ::
        RoomMade(old(State()).(disk := old(disk)[pageId := buf]), s) && TakenBy(s, State(), pageId, true)
      ensures Undisturbed(old(State()), State(), pageId)
    {
      hide Coherent, Inv, InBounds, RoomMade, Undisturbed, Decode, TakenBy, OneVictim;
      SectorWritten(State(), pageId, buf, view, touched);
      disk := disk[pageId := buf];
      ghost var s0 := State();
      EnsureFree();
      ghost var s := State();
      FrameSizes(s);
      RoomStillUnmapped(s0, s, pageId);
      var data := SetStatus(SetPageId(SetLsn(frames[freeList[0]].data, -1), pageId), STATUS_EXIST);
      frame := Occupy(pageId, true, data);
      OccupiedTaken(s, s, State(), pageId, true, data);
      RoomUndisturbed(s0, s, pageId);
      FreeFrameUndisturbed(s0, s, State(), pageId);
      SectorUndisturbed(old(State()), s0, State(), pageId);
    }

    /** The page with that id, pinned once more; -1 for an id that is no page. */
    method GetPage(pageId: int) returns (frame: int)
      requires Valid() && IsInt32(pageId) && (freeList != [] || replacer.exitNum > 0 || pageId in mapping)
      modifies this`mapping, this`freeList, this`frames, this`disk, this`view, replacer, replacer.flags
      ensures Valid()
      ensures pageId in old(view) && pageId > INVALID_PAGE_ID ==> frame >= 0 && view == old(view)
      ensures frame >= 0 ==>
        && pageId in mapping && mapping[pageId] == frame && frame < |frames| && |frames[frame].data| == PAGE_SIZE
        && frames[frame].pin == 1 + (if pageId in old(mapping) then old(frames[mapping[pageId]].pin) else 0)
        && view == old(view)[pageId := Payload(frames[frame].data)]
        && (pageId in old(mapping) ==> frame == old(mapping[pageId]))
      ensures pageId in old(mapping) && pageId > INVALID_PAGE_ID ==>
        && mapping == old(mapping) && freeList == old(freeList) && disk == old(disk)
        && OneFrame(old(frames), frames, frame) && frames[frame] == old(frames)[frame].(pin := old(frames)[frame].pin + 1)
      ensures frame >= 0 && pageId !in old(mapping) ==> exists s: Pool :: RoomMade(old(State()), s) && TakenBy(s, State(), pageId, false)
      ensures frame < 0 ==> view == old(view)
      ensures frame >= 0 <==> pageId > INVALID_PAGE_ID && (pageId in old(mapping) || IsPage(old(disk), pageId))
      ensures Undisturbed(old(State()), State(), pageId)
    {
      hide Coherent, Inv, InBounds, Undisturbed;
      ghost var s0 := State();
      if pageId <= INVALID_PAGE_ID {
        NothingDisturbed(s0, pageId);
        return -1;
      }
      FrameSizes(s0);
      if pageId in mapping {
        frame := mapping[pageId];
        HitCoherent(s0, pageId, view, touched);
        frames := frames[frame := frames[frame].(pin := frames[frame].pin + 1)];
        replacer.PinFrame(frame);
        assert State() == Hit(s0, pageId);
        PageShown(State(), pageId, view, touched);
        HitUndisturbed(s0, pageId);
        return;
      }
      frame := FetchPage(pageId);
    }

    /** Reads a page that is not in the pool; a sector whose status is not EXIST is no page. */
    method FetchPage(pageId: int) returns (frame: int)
      requires Valid() && IsInt32(pageId) && pageId > INVALID_PAGE_ID && pageId !in mapping
      requires freeList != [] || replacer.exitNum > 0
      modifies this`mapping, this`freeList, this`frames, this`disk, this`view, replacer, replacer.flags
      ensures Valid()
      ensures pageId in old(view) ==> frame >= 0 && view == old(view)
      ensures frame >= 0 ==>
        && pageId in mapping && mapping[pageId] == frame && frame < |frames| && |frames[frame].data| == PAGE_SIZE
        && frames[frame].pin == 1 && view == old(view)[pageId := Payload(frames[frame].data)]
      ensures frame < 0 ==> view == old(view)
      ensures frame >= 0 <==> IsPage(old(disk), pageId)
      ensures exists s: Pool :: RoomMade(old(State()), s) && if frame >= 0 then TakenBy(s, State(), pageId, false) else Scribbled(s, State())
      ensures Undisturbed(old(State()), State(), pageId)
    {
      hide Coherent, Inv, InBounds, RoomMade, SetPageId, SetLsn, Undisturbed, Decode, TakenBy, OneVictim;
      ghost var s0 := State();
      EnsureFree();
      ghost var s := State();
      FrameSizes(s);
      RoomStillUnmapped(s0, s, pageId);
      UnmappedOnDisk(s, pageId, view, touched);
      RoomUndisturbed(s0, s, pageId);
      frame := freeList[0];
      if pageId !in disk {
        assert Scribbled(s, State());
        return -1;
      }
      frames := frames[frame := frames[frame].(data := disk[pageId])];
      ScribbleCoherent(s, disk[pageId], view, touched);
      FreeFrameUndisturbed(s0, s, State(), pageId);
      if disk[pageId][STATUS_OFFSET] != STATUS_EXIST {
        assert Scribbled(s, State());
        return -1;
      }
      ghost var s1 := State();
      FrameSizes(s1);
      var data := SetLsn(SetPageId(frames[frame].data, pageId), -1);
      LoadedOnDisk(s1, pageId, data);
      frame := Occupy(pageId, false, data);
      OccupiedTaken(s, s1, State(), pageId, false, data);
      FreeFrameUndisturbed(s0, s, State(), pageId);
    }

    /** Gives up a pin; the last one makes the frame a candidate for eviction. */
    method UnpinPage(pageId: int, dirty: bool)
      requires Valid()
      requires pageId in mapping ==> frames[mapping[pageId]].pin > 0
      requires pageId in mapping && pageId in touched && frames[mapping[pageId]].pin == 1 ==> dirty
      modifies this`frames, this`touched, replacer, replacer.flags
      ensures Valid() && State() == Unpinned(old(State()), pageId, dirty)
      ensures touched == if dirty then old(touched) - {pageId} else old(touched)
      ensures pageId !in mapping ==> State() == old(State())
      ensures pageId in mapping ==> OneFrame(old(frames), frames, mapping[pageId])
      ensures pageId in mapping ==> var fr, fr' := old(frames)[mapping[pageId]], frames[mapping[pageId]];
        && fr'.pin == fr.pin - 1 && fr'.dirty == (fr.dirty || dirty) && fr'.pageId == fr.pageId && fr'.data == fr.data
        && (Present(replacer.flags[mapping[pageId]]) <==> fr.pin == 1)
        && (fr.pin == 1 ==> replacer.flags[mapping[pageId]] == ExistTrue)
      ensures replacer.clockPointer == old(replacer.clockPointer)
      ensures forall f :: 0 <= f < |frames| && (pageId in mapping ==> f != mapping[pageId]) ==> replacer.flags[f] == old(replacer.flags[f])
    {
      hide Coherent, Inv;
      ghost var s := State();
      FrameSizes(s);
      UnpinCoherent(s, pageId, dirty, view, touched);
      if dirty {
        touched := touched - {pageId};
      }
      if pageId !in mapping {
        return;
      }
      PinnedAbsent(s, pageId);
      var frame := mapping[pageId];
      if dirty {
        frames := frames[frame := frames[frame].(dirty := true)];
      }
      frames := frames[frame := frames[frame].(pin := frames[frame].pin - 1)];
      assert frames == s.frames[frame := s.frames[frame].(pin := s.frames[frame].pin - 1, dirty := s.frames[frame].dirty || dirty)];
      if frames[frame].pin == 0 {
        replacer.UnpinFrame(frame);
      }
    }

    /** A client that holds a pin writes the page. */
    method WritePage(pageId: int, payload: Mem)
      requires Valid() && pageId in mapping && frames[mapping[pageId]].pin > 0 && |payload| == PAGE_SIZE - HEADER_END
      modifies this`frames, this`view, this`touched
      ensures Valid() && view == old(view)[pageId := payload] && touched == old(touched) + {pageId}
      ensures mapping == old(mapping) && frames[mapping[pageId]].pin == old(frames[mapping[pageId]].pin)
      ensures OneFrame(old(frames), frames, mapping[pageId]) && frames[mapping[pageId]].dirty == old(frames[mapping[pageId]].dirty)
    {
      hide Coherent, Inv, SetPayload;
      ghost var s := State();
      FrameSizes(s);
      WriteCoherent(s, pageId, payload, view, touched);
      var frame := mapping[pageId];
      frames := frames[frame := frames[frame].(data := SetPayload(frames[frame].data, payload))];
      view, touched := view[pageId := payload], touched + {pageId};
    }

    /** Writes a cached page back; false if it is not cached. */
    method FlushPage(pageId: int) returns (ok: bool)
      requires Valid()
      modifies this`frames, this`disk, this`touched
      ensures Valid() && ok == (pageId in mapping)
      ensures State() == if ok then Flushed(old(State()), pageId) else old(State())
      ensures touched == if ok then old(touched) - {pageId} else old(touched)
      ensures !ok ==> frames == old(frames) && disk == old(disk)
      ensures ok ==> OneFrame(old(frames), frames, mapping[pageId]) && frames[mapping[pageId]] == old(frames)[mapping[pageId]].(dirty := false)
      ensures ok ==> disk == old(disk)[pageId := old(frames)[mapping[pageId]].data]
    {
      hide Coherent, Inv;
      ghost var s := State();
      FrameSizes(s);
      if pageId !in mapping {
        return false;
      }
      FlushCoherent(s, pageId, view, touched);
      var frame := mapping[pageId];
      disk := disk[pageId := frames[frame].data];
      frames := frames[frame := frames[frame].(dirty := false)];
      touched := touched - {pageId};
      return true;
    }

    /** Afterwards the disk holds the last written contents of every page. */
    method FlushAll() returns (ok: bool)
      requires Valid()
      modifies this`frames, this`disk, this`touched
      ensures Valid() && ok && mapping == old(mapping) && touched <= old(touched)
      ensures forall p :: p in view ==> OnDisk(State(), p, view[p])
      ensures |frames| == |old(frames)| && forall f :: 0 <= f < |frames| ==> frames[f] == old(frames)[f].(dirty := frames[f].dirty)
      ensures forall p :: p in mapping ==> !frames[mapping[p]].dirty
    {
      hide Coherent, Inv;
      FrameSizes(State());
      ok := true;
      var todo := mapping.Keys;
      OthersOnDisk(State(), view, touched);
      while todo != {}
        invariant Valid() && ok && mapping == old(mapping) && view == old(view) && touched <= old(touched)
        invariant InBounds(State())
        invariant todo <= mapping.Keys
        invariant |frames| == |old(frames)| && forall f :: 0 <= f < |frames| ==> frames[f] == old(frames)[f].(dirty := frames[f].dirty)
        invariant forall p :: p in mapping && p !in todo ==> !frames[mapping[p]].dirty
        invariant forall p :: p in view && p !in todo ==> OnDisk(State(), p, view[p])
        decreases todo
      {
        ghost var any := AnyOf(todo);
        assert any in todo;
        var p :| p in todo;
        FlushOnDisk(State(), p, view, touched);
        var flushed := FlushPage(p);
        if !flushed {
          ok := false;
        }
        todo := todo - {p};
        FrameSizes(State());
      }
    }

    /**
     * Frees a page unless somebody pins it; the sector of an allocated page is marked free, so that it cannot be
     * fetched again.  The freed frame stays in the replacer.
     */
    method DeletePage(pageId: int, known: bool) returns (ok: bool)
      requires Valid()
      modifies this`mapping, this`freeList, this`frames, this`disk, this`view
      ensures ok <==> pageId !in old(mapping) || old(frames[mapping[pageId]].pin) == 0
      ensures view == if ok then old(view) - {pageId} else old(view)
      ensures ok ==> pageId !in mapping
      ensures FrameInv(State()) && Coherent(State(), view, touched)
      ensures ReplacerExact(State()) <==> pageId !in old(mapping) || !ok
      ensures ok && known ==> !IsPage(disk, pageId)
      ensures !ok || pageId !in old(mapping) ==> mapping == old(mapping) && freeList == old(freeList) && frames == old(frames)
      ensures ok && pageId in old(mapping) ==>
        && mapping == old(mapping) - {pageId} && freeList == old(freeList) + [old(mapping)[pageId]]
        && OneFrame(old(frames), frames, old(mapping)[pageId]) && frames[old(mapping)[pageId]].pageId == INVALID_PAGE_ID
      ensures pageId in disk <==> pageId in old(disk)
      ensures pageId in disk ==> |old(disk)[pageId]| == PAGE_SIZE
      ensures pageId in disk && ok && known ==> disk[pageId] == old(disk)[pageId][STATUS_OFFSET := STATUS_FREE]
      ensures pageId in disk && !(ok && known) ==> disk[pageId] == old(disk)[pageId]
      ensures forall p :: p != pageId ==> (p in disk <==> p in old(disk)) && (p in disk ==> disk[p] == old(disk)[p])
    {
      hide Coherent, SetPageId, SetStatus, FrameInv, ReplacerExact, Freed, InBounds, IsPage;
      ghost var s := State();
      FrameSizes(s);
      FreedSector(s, pageId, known);
      if pageId !in mapping {
        FreedCoherent(s, pageId, known, view, touched);
        view := view - {pageId};
        disk := Freed(disk, pageId, known);
        return true;
      }
      var frame := mapping[pageId];
      if frames[frame].pin != 0 {
        return false;
      }
      DeleteKeepsPartition(s, pageId, known);
      DeleteCoherent(s, pageId, known, view, touched);
      view := view - {pageId};
      frames := frames[frame := frames[frame].(pageId := INVALID_PAGE_ID, data := SetPageId(frames[frame].data, INVALID_PAGE_ID))];
      freeList := freeList + [frame];
      mapping := mapping - {pageId};
      disk := Freed(disk, pageId, known);
      assert State() == Deleted(s, pageId, known);
      return true;
    }
  }

  lemma FreedSector(s: Pool, p: int, known: bool)
    requires InBounds(s)
    ensures var disk := Freed(s.disk, p, known);
      && disk.Keys == s.disk.Keys && (known ==> !IsPage(disk, p))
      && (forall q :: q in disk && q != p ==> disk[q] == s.disk[q])
      && (p in disk ==> |s.disk[p]| == PAGE_SIZE && disk[p] == if known then s.disk[p][STATUS_OFFSET := STATUS_FREE] else s.disk[p])
  {
  }

  /** Taking a free frame, possibly after its bytes were overwritten. */
  lemma OccupiedTaken(s: Pool, s1: Pool, s': Pool, p: int, dirty: bool, data: Mem)
    requires (s1 == s || Scribbled(s, s1)) && s.free != [] && s.free[0] < |s.frames| && s' == Occupied(s1, p, dirty, data)
    requires |data| == PAGE_SIZE && data[STATUS_OFFSET] == STATUS_EXIST
    requires GetInt(data, PAGE_ID_OFFSET) == p && GetInt(data, LSN_OFFSET) == -1
    ensures TakenBy(s, s', p, dirty)
  {
    hide Decode;
  }

  /** As many unpins as there are pins make the frame a candidate, so that there is room for another page. */
  method ReleasePins(pool: BufferPool, pageId: int, dirty: bool) returns (n: nat)
    requires pool.Valid() && pageId in pool.mapping && pool.frames[pool.mapping[pageId]].pin > 0 && (pageId in pool.touched ==> dirty)
    modifies pool`frames, pool`touched, pool.replacer, pool.replacer.flags
    ensures pool.Valid() && n == old(pool.frames[pool.mapping[pageId]].pin) && pool.frames[pool.mapping[pageId]].pin == 0
    ensures pool.replacer.flags[pool.mapping[pageId]] == ExistTrue && pool.replacer.exitNum > 0
    ensures OneFrame(old(pool.frames), pool.frames, pool.mapping[pageId])
  {
    hide Coherent, Inv, Unpinned;
    n := 0;
    ghost var f := pool.mapping[pageId];
    FrameSizes(pool.State());
    while pool.frames[pool.mapping[pageId]].pin > 0
      invariant pool.Valid() && OneFrame(old(pool.frames), pool.frames, f) && f < |pool.frames| && pool.frames[f].pin == old(pool.frames[f].pin) - n >= 0
      invariant pageId in pool.touched ==> dirty
      invariant pool.frames[f].pin == 0 ==> pool.replacer.flags[f] == ExistTrue
      decreases pool.frames[f].pin
    {
      pool.UnpinPage(pageId, dirty);
      n := n + 1;
      FrameSizes(pool.State());
    }
    CountZero(pool.replacer.flags[..]);
  }

  /** A pinned page is no candidate. */
  lemma PinnedAbsent(s: Pool, p: int)
    requires Inv(s) && p in s.mapping && s.frames[s.mapping[p]].pin > 0
    ensures s.mapping[p] < |s.clock.flags| && s.clock.flags[s.mapping[p]] == NotExist
  {
    assert Mapped(s, s.mapping[p]);
  }

  lemma UnmappedOnDisk(s: Pool, p: int, view: map<int, Mem>, touched: set<int>)
    requires Inv(s) && Coherent(s, view, touched) && p !in s.mapping
    ensures p in view ==> p in s.disk && |s.disk[p]| == PAGE_SIZE && s.disk[p][STATUS_OFFSET] == STATUS_EXIST && Payload(s.disk[p]) == view[p]
  {
    if p in view {
      assert Shown(s, p, view[p]);
    }
  }

  lemma OthersOnDisk(s: Pool, view: map<int, Mem>, touched: set<int>)
    requires Inv(s) && Coherent(s, view, touched)
    ensures forall p :: p in view && p !in s.mapping ==> OnDisk(s, p, view[p])
  {
    assert forall p :: p in view ==> Shown(s, p, view[p]);
  }

  /** The bytes of a free frame do not matter. */
  lemma ScribbleCoherent(s: Pool, data: Mem, view: map<int, Mem>, touched: set<int>)
    requires Inv(s) && Coherent(s, view, touched) && s.free != [] && |data| == PAGE_SIZE
    ensures s.free[0] < |s.frames|
    ensures var s' := s.(frames := s.frames[s.free[0] := s.frames[s.free[0]].(data := data)]);
      Inv(s') && Coherent(s', view, touched)
  {
    hide Coherent;
    var f := s.free[0];
    var s' := s.(frames := s.frames[f := s.frames[f].(data := data)]);
    assert forall g: nat :: Mapped(s', g) <==> Mapped(s, g);
    UnmappedFree(s);
    ScribbleInv(s, s');
    FrameSizes(s);
    FrameSizes(s');
    hide FrameInv, ReplacerExact, Mapped;
    CoherentAt(s, view, touched, INVALID_PAGE_ID);
    StepCoherent(s, s', view, view, touched, touched, INVALID_PAGE_ID);
  }

  lemma ScribbleInv(s: Pool, s': Pool)
    requires Inv(s) && s.free != [] && s.free[0] < |s.frames| == |s'.frames| && s'.mapping == s.mapping && s'.free == s.free
    requires s'.clock == s.clock && s'.disk == s.disk && forall g: nat :: Mapped(s', g) <==> Mapped(s, g)
    requires forall q :: q in s.mapping ==> s.mapping[q] != s.free[0]
    requires forall g: nat :: g < |s.frames| ==>
      |s'.frames[g].data| == PAGE_SIZE && s'.frames[g].pageId == s.frames[g].pageId && s'.frames[g].pin == s.frames[g].pin
    ensures Inv(s')
  {
    hide Mapped;
  }

  lemma LoadedOnDisk(s: Pool, p: int, data: Mem)
    requires InBounds(s) && p in s.disk && IsInt32(p) && s.disk[p][STATUS_OFFSET] == STATUS_EXIST
    requires data == LoadedData(s, p)
    ensures |data| == PAGE_SIZE && data[STATUS_OFFSET] == STATUS_EXIST && OnDisk(s, p, Payload(data))
    ensures Payload(data) == Payload(s.disk[p])
  {
  }

  /** Initially every frame is free. */
  lemma StartState(s: Pool, pages: map<int, Mem>)
    requires s.mapping == map[] && |s.free| == |s.frames| == |s.clock.flags| && s.clock.hand < |s.frames|
    requires forall f: nat :: f < |s.frames| ==> s.free[f] == f && s.frames[f].pageId == INVALID_PAGE_ID && |s.frames[f].data| == PAGE_SIZE
    requires forall f: nat :: f < |s.frames| ==> s.clock.flags[f] == NotExist
    requires forall p :: p in s.disk ==> |s.disk[p]| == PAGE_SIZE
    requires forall p :: p in pages ==> p in s.disk && Payload(s.disk[p]) == pages[p] && s.disk[p][STATUS_OFFSET] == STATUS_EXIST
    ensures Inv(s) && Coherent(s, pages, {})
  {
    forall f: nat | f < |s.frames| ensures f in s.free && !Mapped(s, f) {
      assert s.free[f] == f;
    }
  }

  lemma FrameSizes(s: Pool)
    requires Inv(s)
    ensures InBounds(s)
    ensures |s.clock.flags| == |s.frames| && s.clock.hand < |s.frames|
    ensures forall p :: p in s.mapping ==> s.mapping[p] < |s.frames|
    ensures forall k :: 0 <= k < |s.free| ==> s.free[k] < |s.frames|
    ensures forall f :: 0 <= f < |s.frames| ==> |s.frames[f].data| == PAGE_SIZE
    ensures forall p :: p in s.disk ==> |s.disk[p]| == PAGE_SIZE
  {
  }

  /** The allocation writes a sector that no allocated page owns. */
  lemma SectorWritten(s: Pool, p: int, buf: Mem, view: map<int, Mem>, touched: set<int>)
    requires Inv(s) && Coherent(s, view, touched) && p !in view && |buf| == PAGE_SIZE
    ensures Inv(s.(disk := s.disk[p := buf])) && Coherent(s.(disk := s.disk[p := buf]), view, touched)
  {
    hide Coherent;
    var s' := s.(disk := s.disk[p := buf]);
    assert forall f: nat :: Mapped(s', f) <==> Mapped(s, f);
    CoherentAt(s, view, touched, p);
    StepCoherent(s, s', view, view, touched, touched, p);
  }

  predicate IsPage(disk: map<int, Mem>, p: int) {
    p in disk && |disk[p]| == PAGE_SIZE && disk[p][STATUS_OFFSET] == STATUS_EXIST
  }

  lemma NothingDisturbed(s: Pool, q: int)
    ensures Undisturbed(s, s, q)
  {
  }

  lemma RoomStillUnmapped(s: Pool, s': Pool, p: int)
    requires RoomMade(s, s')
    ensures s'.mapping.Keys <= s.mapping.Keys && |s'.frames| == |s.frames|
    ensures p !in s.mapping ==> (p in s'.disk <==> p in s.disk) && (p in s.disk ==> s'.disk[p] == s.disk[p])
  {
    if s.free == [] {
      var v: nat, c: Clock :| IsEviction(s, s', v, c);
    }
  }

  lemma SectorUndisturbed(s: Pool, s0: Pool, s': Pool, q: int)
    requires s0.mapping == s.mapping && s0.frames == s.frames && Undisturbed(s0, s', q)
    ensures Undisturbed(s, s', q)
  {
  }

  lemma PageShown(s: Pool, p: int, view: map<int, Mem>, touched: set<int>)
    requires Inv(s) && Coherent(s, view, touched) && p in s.mapping
    ensures p in view && s.mapping[p] < |s.frames| && |s.frames[s.mapping[p]].data| == PAGE_SIZE
    ensures Payload(s.frames[s.mapping[p]].data) == view[p]
  {
    assert Shown(s, p, view[p]);
  }
}
