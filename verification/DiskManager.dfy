/**
 * The page-id allocator of the disk manager, and the scan of the database file that rebuilds it after
 * a restart.  Of each page in the file only the status byte matters here; file operations succeed.
 */
module DiskManagers {
  import opened Bytes
  import opened Collections

  const READ_DB_PG_NUM := 10240
  const READ_DB_BUF_SZ := PAGE_SIZE * READ_DB_PG_NUM

  /** `status[k]` is the status byte of page k in the file. */
  datatype Disk = Disk(alloced: set<int>, free: set<int>, maxAva: int, maxAlloced: int, status: seq<byte>)

  ghost predicate IsLeast(s: set<int>, x: int) {
    x in s && forall y :: y in s ==> x <= y
  }

  ghost predicate IsGreatest(s: set<int>, x: int) {
    x in s && forall y :: y in s ==> y <= x
  }

  ghost predicate IsMax(s: set<int>, x: int) {
    if s == {} then x == -1 else IsGreatest(s, x)
  }

  function Ids(lo: int, hi: int): (r: set<int>)
    ensures forall k :: k in r <==> lo <= k < hi
    decreases hi - lo
  {
    if lo >= hi then {} else Ids(lo, hi - 1) + {hi - 1}
  }

  /** Status of a page that is allocated with the given flag. */
  predicate IsFlag(b: byte) {
    b == STATUS_EXIST || b == STATUS_TMP
  }

  ghost predicate Inv(d: Disk) {
    && d.maxAva > 0
    && d.alloced + d.free == Ids(0, d.maxAva) && d.alloced !! d.free
    && IsMax(d.alloced, d.maxAlloced)
    && |d.status| <= d.maxAva
    && (forall k :: k in d.alloced ==> k < |d.status| && IsFlag(d.status[k]))
    && (forall k :: 0 <= k < |d.status| && k in d.free ==> !HasExist(d.status[k]))
  }

  /** The scan's test of a status byte. */
  predicate HasExist(b: byte) {
    b % 2 == 1
  }

  // ---- Allocation and release on values.

  function Extended(d: Disk): Disk {
    d.(free := d.free + Ids(d.maxAva, 2 * d.maxAva), maxAva := 2 * d.maxAva)
  }

  function MoreIds(d: Disk): Disk {
    if d.free == {} then Extended(d) else d
  }

  function Max(a: int, b: int): int {
    if a < b then b else a
  }

  /** The file grows by one page, or an existing page is overwritten. */
  function Allocated(d: Disk, id: int, flag: byte): Disk
    requires 0 <= id <= |d.status|
  {
    Disk(d.alloced + {id}, d.free - {id}, d.maxAva, Max(d.maxAlloced, id),
         if id < |d.status| then d.status[id := flag] else d.status + [flag])
  }

  lemma MoreIdsKeeps(d: Disk)
    requires Inv(d)
    ensures Inv(MoreIds(d)) && MoreIds(d).free != {} && MoreIds(d).alloced == d.alloced && MoreIds(d).status == d.status
  {
    if d.free == {} {
      assert d.maxAva in Extended(d).free;
    }
  }

  /** The least free id is at most one behind the end of the file, so the file never has a hole. */
  lemma LeastFreeInFile(d: Disk, id: int)
    requires Inv(d) && IsLeast(d.free, id)
    ensures 0 <= id <= |d.status|
  {
    assert id in Ids(0, d.maxAva);
    assert |d.status| < d.maxAva ==> |d.status| in Ids(0, d.maxAva);
  }

  lemma AllocateKeeps(d: Disk, id: int, flag: byte)
    requires Inv(d) && IsLeast(d.free, id) && IsFlag(flag)
    ensures 0 <= id <= |d.status| && Inv(Allocated(d, id, flag))
  {
    LeastFreeInFile(d, id);
    var d' := Allocated(d, id, flag);
    assert d'.alloced + d'.free == Ids(0, d'.maxAva);
    assert id < d.maxAva by {
      assert id in Ids(0, d.maxAva);
    }
    assert IsMax(d'.alloced, d'.maxAlloced) by {
      assert id in d'.alloced;
    }
  }

  ghost predicate Released(d: Disk, id: int, d': Disk)
    requires id in d.alloced && 0 <= id < |d.status|
  {
    && d'.alloced == d.alloced - {id} && d'.free == d.free + {id} && d'.maxAva == d.maxAva
    && d'.status == d.status[id := STATUS_FREE] && IsMax(d'.alloced, d'.maxAlloced)
  }

  lemma ReleaseKeeps(d: Disk, id: int, d': Disk)
    requires Inv(d) && id in d.alloced
    ensures 0 <= id < |d.status|
    ensures Released(d, id, d') ==> Inv(d')
  {
    assert id in Ids(0, d.maxAva);
    if Released(d, id, d') {
      assert d'.alloced + d'.free == Ids(0, d'.maxAva);
    }
  }

  /** Taking away an id below the maximum leaves the maximum. */
  lemma MaxUnaffected(s: set<int>, m: int, id: int)
    requires IsMax(s, m) && id in s && id != m
    ensures IsMax(s - {id}, m)
  {
    assert m in s - {id};
  }

  lemma {:induction false} LeastExists(s: set<int>) returns (x: int)
    requires s != {}
    ensures IsLeast(s, x)
    decreases s
  {
    var y := AnyOf(s);
    var rest := s - {y};
    assert forall w :: w in s ==> w == y || w in rest;
    if rest == {} {
      x := y;
    } else {
      var z := LeastExists(rest);
      x := if z < y then z else y;
    }
  }

  lemma {:induction false} GreatestExists(s: set<int>) returns (x: int)
    requires s != {}
    ensures IsGreatest(s, x)
    decreases s
  {
    var y := AnyOf(s);
    var rest := s - {y};
    assert forall w :: w in s ==> w == y || w in rest;
    if rest == {} {
      x := y;
    } else {
      var z := GreatestExists(rest);
      x := if z > y then z else y;
    }
  }

  // ---- The restart scan on values.

  /** The pages below n whose status says they exist. */
  function Existing(status: seq<byte>, n: nat): (r: set<int>)
    requires n <= |status|
    ensures forall k :: k in r <==> 0 <= k < n && HasExist(status[k])
  {
    if n == 0 then {} else Existing(status, n - 1) + if HasExist(status[n - 1]) then {n - 1} else {}
  }

  /** The ids a restart knows: those of the file and those below the stored bound. */
  function Known(file: seq<byte>, maxAva: int): int {
    if |file| <= maxAva then maxAva else |file|
  }

  /**
   * Exactly the pages allocated as lasting and not freed come back; temporary pages become free.  The bound of the
   * ids is written at creation and shutdown only, so after a crash it may be too small; the rebuilt state is whole
   * exactly if it is not, and the rebuilt maximum is right.
   */
  lemma RestartExact(d: Disk, maxAva: int, alloced: set<int>, free: set<int>)
    requires Inv(d) && maxAva > 0 && alloced == Existing(d.status, |d.status|) && free == Ids(0, Known(d.status, maxAva)) - alloced
    ensures forall k :: k in alloced <==> k in d.alloced && k < |d.status| && d.status[k] == STATUS_EXIST
    ensures forall k :: k in free <==> 0 <= k < Known(d.status, maxAva) && (k < |d.status| ==> k in d.free || d.status[k] == STATUS_TMP)
    ensures forall m :: Inv(Disk(alloced, free, maxAva, m, d.status)) <==> IsMax(alloced, m) && |d.status| <= maxAva
  {
    forall k | k in alloced ensures k in d.alloced && d.status[k] == STATUS_EXIST {
      assert k in Ids(0, d.maxAva);
    }
    forall k | k in d.alloced ensures k in Ids(0, d.maxAva) {
    }
    forall k | k in d.free ensures k in Ids(0, d.maxAva) {
    }
    forall k | 0 <= k < |d.status| ensures k in d.alloced || k in d.free {
      assert k in Ids(0, d.maxAva);
    }
  }

  /** After a crash that followed a doubling, with all pages of the file in use, the next id handed out is in use. */
  lemma RestartReusesPage(file: seq<byte>, maxAva: int, m: int, id: int)
    requires 0 < maxAva < |file| && forall k :: 0 <= k < |file| ==> file[k] == STATUS_EXIST
    requires var alloced := Existing(file, |file|);
      IsLeast(MoreIds(Disk(alloced, Ids(0, Known(file, maxAva)) - alloced, maxAva, m, file)).free, id)
    ensures id == maxAva && id in Existing(file, |file|)
  {
    var alloced := Existing(file, |file|);
    var free := Ids(0, Known(file, maxAva)) - alloced;
    assert free == {};
    assert maxAva in Ids(maxAva, 2 * maxAva);
  }

  // ---- Runs.

  /** A page handed out with its flag, or given back. */
  datatype Op = Alloc(id: int, flag: byte) | Free(id: int)

  /** The pages handed out and not given back, with their flags: what the callers know. */
  function Outstanding(ops: seq<Op>): map<int, byte> {
    if ops == [] then map[]
    else
      var was := Outstanding(ops[..|ops| - 1]);
      match ops[|ops| - 1]
      case Alloc(id, flag) => was[id := flag]
      case Free(id) => was - {id}
  }

  ghost predicate IsStep(d: Disk, op: Op, d': Disk) {
    match op
    case Alloc(id, flag) =>
      IsFlag(flag) && IsLeast(MoreIds(d).free, id) && 0 <= id <= |d.status| && d' == Allocated(MoreIds(d), id, flag)
    case Free(id) =>
      if id in d.alloced then 0 <= id < |d.status| && Released(d, id, d') else d' == d
  }

  /** `disks` are the states before, between and after the operations, from a new database on. */
  ghost predicate IsRun(disks: seq<Disk>, ops: seq<Op>) {
    && |disks| == |ops| + 1 && disks[0] == Disk({}, Ids(0, 100), 100, -1, [])
    && forall i :: 0 <= i < |ops| ==> IsStep(disks[i], ops[i], disks[i + 1])
  }

  /** The allocator knows exactly the pages that the callers have. */
  ghost predicate Agrees(d: Disk, m: map<int, byte>) {
    && Inv(d) && d.alloced == m.Keys
    && forall k :: k in m ==> 0 <= k < |d.status| && d.status[k] == m[k]
  }

  lemma StartAgrees()
    ensures Agrees(Disk({}, Ids(0, 100), 100, -1, []), map[])
  {
  }

  lemma StepAgrees(d: Disk, op: Op, d': Disk, m: map<int, byte>)
    requires Agrees(d, m) && IsStep(d, op, d')
    ensures op.Alloc? ==> op.id !in m
    ensures Agrees(d', if op.Alloc? then m[op.id := op.flag] else m - {op.id})
  {
    if op.Alloc? {
      AllocAgrees(d, op.id, op.flag, m);
    } else if op.id in d.alloced {
      FreeAgrees(d, op.id, d', m);
    } else {
      assert m - {op.id} == m;
    }
  }

  lemma AllocAgrees(d: Disk, id: int, flag: byte, m: map<int, byte>)
    requires Agrees(d, m) && IsFlag(flag) && IsLeast(MoreIds(d).free, id)
    ensures id !in m && 0 <= id <= |d.status| && Agrees(Allocated(MoreIds(d), id, flag), m[id := flag])
  {
    hide Inv;
    MoreIdsKeeps(d);
    FreshLeast(d);
    AllocateKeeps(MoreIds(d), id, flag);
  }

  lemma FreeAgrees(d: Disk, id: int, d': Disk, m: map<int, byte>)
    requires Agrees(d, m) && id in d.alloced && 0 <= id < |d.status| && Released(d, id, d')
    ensures Agrees(d', m - {id})
  {
    hide Inv;
    ReleaseKeeps(d, id, d');
  }

  /**
   * In every run from a new database on, no id is handed out while a caller has it, and what is allocated are the
   * pages that callers have; a restart at any time finds exactly those handed out as lasting.
   */
  lemma {:induction false} RunAgrees(disks: seq<Disk>, ops: seq<Op>)
    requires IsRun(disks, ops)
    ensures Agrees(disks[|ops|], Outstanding(ops))
    ensures forall i :: 0 <= i < |ops| && ops[i].Alloc? ==> ops[i].id !in Outstanding(ops[..i])
    ensures var d, m := disks[|ops|], Outstanding(ops);
      forall k :: k in Existing(d.status, |d.status|) <==> k in m && m[k] == STATUS_EXIST
    decreases |ops|
  {
    StartAgrees();
    hide IsStep, Agrees, Existing, Ids;
    if ops != [] {
      var n := |ops| - 1;
      assert IsRun(disks[..n + 1], ops[..n]) by {
        forall i | 0 <= i < n ensures IsStep(disks[..n + 1][i], ops[..n][i], disks[..n + 1][i + 1]) {
          assert IsStep(disks[i], ops[i], disks[i + 1]);
        }
      }
      RunAgrees(disks[..n + 1], ops[..n]);
      forall i | 0 <= i < n && ops[i].Alloc? ensures ops[i].id !in Outstanding(ops[..i]) {
        assert ops[..n][..i] == ops[..i];
      }
      assert IsStep(disks[n], ops[n], disks[n + 1]);
      StepAgrees(disks[n], ops[n], disks[n + 1], Outstanding(ops[..n]));
    }
    LastingFound(disks[|ops|], Outstanding(ops));
  }

  lemma LastingFound(d: Disk, m: map<int, byte>)
    requires Agrees(d, m)
    ensures forall k :: k in Existing(d.status, |d.status|) <==> k in m && m[k] == STATUS_EXIST
  {
    RestartExact(d, d.maxAva, Existing(d.status, |d.status|), Ids(0, Known(d.status, d.maxAva)) - Existing(d.status, |d.status|));
  }

  // ---- The code.

  /** The first element of an ordered set. */
  method Least(ids: set<int>) returns (id: int)
    requires ids != {}
    ensures IsLeast(ids, id)
  {
    ghost var least := LeastExists(ids);
    assert IsLeast(ids, least);
    id :| id in ids && forall y :: y in ids ==> id <= y;
  }

  class DiskManager {
    var allocedPgid: set<int>
    var freePgid: set<int>
    var maxAvaPgid: int
    var maxAllocedPgid: int
    var status: seq<byte>

    function View(): Disk
      reads this
    {
      Disk(allocedPgid, freePgid, maxAvaPgid, maxAllocedPgid, status)
    }

    ghost predicate Valid()
      reads this
    {
      Inv(View())
    }

    constructor FromScratch()
      ensures Valid() && View() == Disk({}, Ids(0, 100), 100, -1, [])
    {
      maxAvaPgid, maxAllocedPgid := 100, -1;
      allocedPgid, freePgid, status := {}, Ids(0, 100), [];
    }

    /** The id returned is the least free one. */
    method AllocPage(flag: byte) returns (id: int)
      requires Valid() && IsFlag(flag)
      modifies this
      ensures Valid() && IsLeast(MoreIds(old(View())).free, id) && 0 <= id <= |old(status)|
      ensures View() == Allocated(MoreIds(old(View())), id, flag)
      ensures maxAvaPgid == if old(freePgid) == {} then 2 * old(maxAvaPgid) else old(maxAvaPgid)
      ensures id !in old(allocedPgid) && allocedPgid == old(allocedPgid) + {id}
      ensures if old(freePgid) == {} then id == old(maxAvaPgid) else IsLeast(old(freePgid), id)
      ensures freePgid == (if old(freePgid) == {} then Ids(old(maxAvaPgid), maxAvaPgid) else old(freePgid)) - {id}
      ensures |status| == (if id < |old(status)| then |old(status)| else |old(status)| + 1) && status[id] == flag
      ensures forall k :: 0 <= k < |old(status)| && k != id ==> status[k] == old(status)[k]
      ensures maxAllocedPgid == if old(maxAllocedPgid) < id then id else old(maxAllocedPgid)
    {
      hide Inv, Ids, IsLeast, Released;
      MoreIdsKeeps(View());
      if freePgid == {} {
        var tmp := maxAvaPgid;
        maxAvaPgid := maxAvaPgid * 2;
        freePgid := freePgid + Ids(tmp, maxAvaPgid);
      }
      ghost var d := View();
      id := Least(freePgid);
      AllocateKeeps(d, id, flag);
      AllocatedMeans(old(View()), id, flag);
      freePgid := freePgid - {id};
      allocedPgid := allocedPgid + {id};
      status := if id < |status| then status[id := flag] else status + [flag];
      if maxAllocedPgid < id {
        maxAllocedPgid := id;
      }
    }

    /** Frees an allocated id and marks the page on disk; other non-negative ids are ignored. */
    method FreePage(id: int) returns (ok: bool)
      requires Valid()
      modifies this
      ensures Valid() && ok == (id >= 0)
      ensures id !in old(allocedPgid) ==> View() == old(View())
      ensures id in old(allocedPgid) ==> 0 <= id < |old(status)| && Released(old(View()), id, View())
      ensures id in old(allocedPgid) ==>
        && allocedPgid == old(allocedPgid) - {id} && freePgid == old(freePgid) + {id} && maxAvaPgid == old(maxAvaPgid)
        && status == old(status)[id := STATUS_FREE] && IsMax(allocedPgid, maxAllocedPgid)
    {
      hide Inv;
      if id < 0 {
        NoNegativeIds(View());
        return false;
      }
      if id !in allocedPgid {
        return true;
      }
      ghost var d := View();
      ReleaseKeeps(d, id, d);
      MaxIs(d);
      status := status[id := STATUS_FREE];
      freePgid := freePgid + {id};
      allocedPgid := allocedPgid - {id};
      if maxAllocedPgid == id {
        if allocedPgid != {} {
          ghost var greatest := GreatestExists(allocedPgid);
          assert IsGreatest(allocedPgid, greatest);
          var last :| last in allocedPgid && forall y :: y in allocedPgid ==> y <= last;
          maxAllocedPgid := last;
        } else {
          maxAllocedPgid := -1;
        }
      } else {
        MaxUnaffected(d.alloced, d.maxAlloced, id);
      }
      ReleaseKeeps(d, id, View());
      return true;
    }

    /**
     * Rebuilds the id sets from the file, a batch of pages at a time.  `garbage` is the value of the
     * maximum before the scan, which only a page that exists replaces.
     */
    constructor FromFile(file: seq<byte>, maxAva: int, garbage: int)
      ensures status == file && maxAvaPgid == maxAva
      ensures allocedPgid == Existing(file, |file|) && freePgid == Ids(0, Known(file, maxAva)) - allocedPgid
      ensures forall k :: k in allocedPgid <==> 0 <= k < |file| && file[k] % 2 == 1
      ensures forall k :: k in freePgid <==> 0 <= k && (k < |file| || k < maxAva) && k !in allocedPgid
      ensures allocedPgid != {} ==> IsGreatest(allocedPgid, maxAllocedPgid)
      ensures allocedPgid == {} ==> maxAllocedPgid == if file == [] then -1 else garbage
    {
      var alloced, free, max := ScanFile(file, maxAva, garbage);
      allocedPgid, freePgid, maxAllocedPgid, maxAvaPgid, status := alloced, free, max, maxAva, file;
    }
  }

  lemma AllocatedMeans(d: Disk, id: int, flag: byte)
    requires Inv(d) && IsLeast(MoreIds(d).free, id) && 0 <= id <= |d.status|
    ensures var d' := Allocated(MoreIds(d), id, flag);
      && d'.maxAva == (if d.free == {} then 2 * d.maxAva else d.maxAva)
      && id !in d.alloced && d'.alloced == d.alloced + {id}
      && (if d.free == {} then id == d.maxAva else IsLeast(d.free, id))
      && d'.free == (if d.free == {} then Ids(d.maxAva, d'.maxAva) else d.free) - {id}
      && |d'.status| == (if id < |d.status| then |d.status| else |d.status| + 1) && d'.status[id] == flag
      && (forall k :: 0 <= k < |d.status| && k != id ==> d'.status[k] == d.status[k])
      && d'.maxAlloced == if d.maxAlloced < id then id else d.maxAlloced
  {
    FreshLeast(d);
    hide Inv, Ids, IsLeast;
  }

  lemma FreshLeast(d: Disk)
    requires Inv(d)
    ensures forall id :: IsLeast(MoreIds(d).free, id) ==> id !in d.alloced && (d.free == {} ==> id == d.maxAva)
  {
    if d.free == {} {
      assert d.maxAva in Ids(d.maxAva, 2 * d.maxAva);
      forall id | IsLeast(MoreIds(d).free, id) ensures id !in d.alloced {
        assert id in Ids(d.maxAva, 2 * d.maxAva);
        assert id in d.alloced ==> id in Ids(0, d.maxAva);
      }
    }
  }

  lemma NoNegativeIds(d: Disk)
    requires Inv(d)
    ensures forall k :: k in d.alloced ==> k >= 0
  {
    forall k | k in d.alloced ensures k >= 0 {
      assert k in Ids(0, d.maxAva);
    }
  }

  lemma MaxIs(d: Disk)
    requires Inv(d)
    ensures IsMax(d.alloced, d.maxAlloced)
  {
  }

  method ScanFile(file: seq<byte>, maxAva: int, garbage: int) returns (alloced: set<int>, free: set<int>, max: int)
    ensures alloced == Existing(file, |file|) && free == Ids(0, Known(file, maxAva)) - alloced
    ensures alloced != {} ==> IsGreatest(alloced, max)
    ensures alloced == {} ==> max == if file == [] then -1 else garbage
  {
    hide Scanned, Ids, Existing, IsGreatest;
    alloced, free, max := {}, {}, garbage;
    ScanStart(file, garbage);
    var fileSize := PAGE_SIZE * |file|;
    if fileSize == 0 {
      ScanEnd(file, {}, {}, garbage, garbage);
      free := FreeBehind({}, {}, 0, maxAva);
      return {}, free, -1;
    }
    var readCnt := fileSize / READ_DB_BUF_SZ;
    if fileSize % READ_DB_BUF_SZ != 0 {
      readCnt := readCnt + 1;
    }
    BatchCount(|file|, readCnt);
    var left := fileSize;
    var pageId := -1;
    for i := 0 to readCnt
      invariant left == fileSize - i * READ_DB_BUF_SZ
      invariant Scanned(file, pageId + 1, alloced, free, max, garbage)
      invariant pageId + 1 == BatchStart(|file|, i)
    {
      var readSize := if READ_DB_BUF_SZ <= left then READ_DB_BUF_SZ else left;
      BatchPages(|file|, i, readSize);
      alloced, free, max, pageId := ScanBatch(file, i, readSize / PAGE_SIZE, alloced, free, max, garbage);
      left := left - READ_DB_BUF_SZ;
    }
    ScanEnd(file, alloced, free, max, garbage);
    free := FreeBehind(alloced, free, pageId + 1, maxAva);
  }

  /** The first page of batch i, or the end of the file. */
  function BatchStart(n: nat, i: nat): nat {
    if i * READ_DB_PG_NUM <= n then i * READ_DB_PG_NUM else n
  }

  /** Reading stops exactly behind the last page. */
  lemma BatchCount(n: nat, cnt: nat)
    requires cnt == PAGE_SIZE * n / READ_DB_BUF_SZ + (if PAGE_SIZE * n % READ_DB_BUF_SZ != 0 then 1 else 0)
    ensures BatchStart(n, cnt) == n && forall i: nat :: i < cnt ==> BatchStart(n, i) == i * READ_DB_PG_NUM < n
  {
  }

  lemma BatchPages(n: nat, i: nat, readSize: int)
    requires BatchStart(n, i) == i * READ_DB_PG_NUM < n
    requires var left := PAGE_SIZE * n - i * READ_DB_BUF_SZ; readSize == if READ_DB_BUF_SZ <= left then READ_DB_BUF_SZ else left
    ensures readSize / PAGE_SIZE > 0 && i * READ_DB_PG_NUM + readSize / PAGE_SIZE == BatchStart(n, i + 1) <= n
  {
  }

  lemma ScanStart(file: seq<byte>, garbage: int)
    ensures Scanned(file, 0, {}, {}, garbage, garbage)
  {
  }

  lemma ScanEnd(file: seq<byte>, alloced: set<int>, free: set<int>, max: int, garbage: int)
    requires Scanned(file, |file|, alloced, free, max, garbage)
    ensures alloced == Existing(file, |file|) && free == Ids(0, |file|) - alloced && forall x :: x in alloced ==> x < |file|
    ensures (alloced != {} ==> IsGreatest(alloced, max)) && (alloced == {} ==> max == garbage)
  {
  }

  /** The ids behind the file are free. */
  method FreeBehind(alloced: set<int>, scanned: set<int>, start: nat, maxAva: int) returns (free: set<int>)
    requires scanned == Ids(0, start) - alloced && forall x :: x in alloced ==> x < start
    ensures free == Ids(0, if start <= maxAva then maxAva else start) - alloced
  {
    free := scanned;
    var pageId := start;
    while pageId < maxAva
      invariant start <= pageId && (pageId <= maxAva || pageId == start) && free == Ids(0, pageId) - alloced
    {
      free := free + {pageId};
      pageId := pageId + 1;
    }
  }

  /** The pages below n have been looked at, each once. */
  ghost predicate Scanned(file: seq<byte>, n: int, alloced: set<int>, free: set<int>, max: int, garbage: int) {
    && 0 <= n <= |file|
    && alloced == Existing(file, n) && free == Ids(0, n) - alloced
    && (alloced != {} ==> IsGreatest(alloced, max)) && (alloced == {} ==> max == garbage)
  }

  method ScanBatch(file: seq<byte>, i: nat, pages: nat, alloced0: set<int>, free0: set<int>, max0: int, garbage: int)
    returns (alloced: set<int>, free: set<int>, max: int, pageId: int)
    requires pages > 0 && i * READ_DB_PG_NUM + pages <= |file|
    requires Scanned(file, i * READ_DB_PG_NUM, alloced0, free0, max0, garbage)
    ensures Scanned(file, i * READ_DB_PG_NUM + pages, alloced, free, max, garbage)
    ensures pageId == i * READ_DB_PG_NUM + pages - 1
  {
    alloced, free, max, pageId := alloced0, free0, max0, i * READ_DB_PG_NUM - 1;
    for k := 0 to pages
      invariant Scanned(file, i * READ_DB_PG_NUM + k, alloced, free, max, garbage)
      invariant pageId == i * READ_DB_PG_NUM + k - 1
    {
      pageId := i * READ_DB_PG_NUM + k;
      if HasExist(file[pageId]) {
        max := pageId;
        alloced := alloced + {pageId};
      } else {
        free := free + {pageId};
      }
    }
  }
}
