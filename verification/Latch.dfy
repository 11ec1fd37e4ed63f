/**
 * The reader-writer latch as a state machine.  Every step of a thread runs under the latch's mutex;
 * a thread that waits on a condition variable sleeps until it is notified, or wakes up spuriously.
 * `max` stands for MAX_READERS.
 */
module Latch {

  datatype Thread =
    | Idle
    | WantW(notified: bool)    // in w_lock, waiting on reader_ until no writer has entered
    | Entered(notified: bool)  // in w_lock, entered, waiting on writer_ for the readers to leave
    | HoldW
    | WantR(notified: bool)    // in r_lock, waiting on reader_
    | HoldR

  datatype State = State(threads: seq<Thread>, readers: nat, entered: bool)

  datatype Action = WLock | WUnlock | RLock | RUnlock | Wake

  function Init(n: nat): State {
    State(seq(n, _ => Idle), 0, false)
  }

  // ---- Steps.

  function TryW(s: State, i: nat): State
    requires i < |s.threads|
  {
    if s.entered then s.(threads := s.threads[i := WantW(false)])
    else TryEntered(s.(entered := true), i)
  }

  function TryEntered(s: State, i: nat): State
    requires i < |s.threads|
  {
    s.(threads := s.threads[i := if s.readers > 0 then Entered(false) else HoldW])
  }

  function TryR(max: nat, s: State, i: nat): State
    requires i < |s.threads|
  {
    if s.entered || s.readers == max then s.(threads := s.threads[i := WantR(false)])
    else s.(threads := s.threads[i := HoldR], readers := s.readers + 1)
  }

  predicate OnReaderQueue(t: Thread) {
    t == WantW(false) || t == WantR(false)
  }

  function Notified(t: Thread): Thread {
    match t
    case WantW(_) => WantW(true)
    case WantR(_) => WantR(true)
    case Entered(_) => Entered(true)
    case _ => t
  }

  /** One sleeper that satisfies p, if there is any, is notified. */
  ghost predicate NotifyOne(p: Thread -> bool, ts: seq<Thread>, ts': seq<Thread>) {
    if exists j :: 0 <= j < |ts| && p(ts[j])
    then exists j :: 0 <= j < |ts| && p(ts[j]) && ts' == ts[j := Notified(ts[j])]
    else ts' == ts
  }

  function NotifyAllReaders(ts: seq<Thread>): (r: seq<Thread>)
    ensures |r| == |ts|
    ensures forall j :: 0 <= j < |ts| ==> r[j] == if OnReaderQueue(ts[j]) then Notified(ts[j]) else ts[j]
  {
    seq(|ts|, j requires 0 <= j < |ts| => if OnReaderQueue(ts[j]) then Notified(ts[j]) else ts[j])
  }

  ghost predicate ReaderLeaves(max: nat, s: State, i: nat, s': State)
    requires i < |s.threads|
  {
    var ts := s.threads[i := Idle];
    && s.readers > 0 && s'.readers == s.readers - 1 && s'.entered == s.entered
    && if s.entered
       then (if s'.readers == 0 then NotifyOne(t => t == Entered(false), ts, s'.threads) else s'.threads == ts)
       else (if s'.readers == max - 1 then NotifyOne(t => OnReaderQueue(t), ts, s'.threads) else s'.threads == ts)
  }

  ghost predicate Step(max: nat, s: State, i: nat, a: Action, s': State) {
    i < |s.threads| &&
    match a
    case WLock => s.threads[i] == Idle && s' == TryW(s, i)
    case RLock => s.threads[i] == Idle && s' == TryR(max, s, i)
    case WUnlock =>
      s.threads[i] == HoldW && s' == State(NotifyAllReaders(s.threads[i := Idle]), s.readers, false)
    case RUnlock => s.threads[i] == HoldR && ReaderLeaves(max, s, i, s')
    case Wake =>
      match s.threads[i]
      case WantW(_) => s' == TryW(s, i)
      case Entered(_) => s' == TryEntered(s, i)
      case WantR(_) => s' == TryR(max, s, i)
      case _ => false
  }

  ghost predicate Next(max: nat, s: State, s': State) {
    exists i: nat, a: Action :: Step(max, s, i, a, s')
  }

  ghost predicate IsRun(max: nat, n: nat, run: seq<State>) {
    run != [] && run[0] == Init(n) && forall k :: 0 <= k < |run| - 1 ==> Next(max, run[k], run[k + 1])
  }

  ghost predicate Reachable(max: nat, n: nat, s: State) {
    exists run: seq<State> :: IsRun(max, n, run) && run[|run| - 1] == s
  }

  // ---- Who gets the latch.

  /** Nothing but thread i, the reader count and the flag has changed. */
  ghost predicate OnlyThread(s: State, s': State, i: nat) {
    |s'.threads| == |s.threads| && forall j :: 0 <= j < |s.threads| && j != i ==> s'.threads[j] == s.threads[j]
  }

  /** A writer gets a free latch, enters if there are readers, and otherwise waits for the writer that has entered. */
  lemma WriterAdmitted(max: nat, s: State, i: nat, a: Action, s': State)
    requires Step(max, s, i, a, s') && (a == WLock || (a == Wake && s.threads[i].WantW?))
    ensures OnlyThread(s, s', i) && s'.readers == s.readers && s'.entered
    ensures s'.threads[i] == HoldW <==> !s.entered && s.readers == 0
    ensures s'.threads[i] == Entered(false) <==> !s.entered && s.readers > 0
    ensures s'.threads[i] == WantW(false) <==> s.entered
  {
  }

  /** A writer that has entered gets the latch as soon as there is no reader. */
  lemma EnteredAdmitted(max: nat, s: State, i: nat, s': State)
    requires Step(max, s, i, Wake, s') && s.threads[i].Entered?
    ensures OnlyThread(s, s', i) && s'.readers == s.readers && s'.entered == s.entered
    ensures s'.threads[i] == if s.readers == 0 then HoldW else Entered(false)
  {
  }

  /** A reader gets the latch exactly if no writer has entered and there is room for a reader. */
  lemma ReaderAdmitted(max: nat, s: State, i: nat, a: Action, s': State)
    requires Step(max, s, i, a, s') && (a == RLock || (a == Wake && s.threads[i].WantR?)) && s.readers <= max
    ensures OnlyThread(s, s', i) && s'.entered == s.entered
    ensures s'.threads[i] == HoldR <==> !s.entered && s.readers < max
    ensures s'.threads[i] == WantR(false) <==> s.entered || s.readers == max
    ensures s'.readers == s.readers + if s'.threads[i] == HoldR then 1 else 0
  {
  }

  // ---- Safety.

  function CountR(ts: seq<Thread>): nat {
    if ts == [] then 0 else CountR(ts[..|ts| - 1]) + if ts[|ts| - 1] == HoldR then 1 else 0
  }

  predicate IsWriter(t: Thread) {
    t.Entered? || t == HoldW
  }

  ghost predicate Safe(max: nat, s: State) {
    && s.readers == CountR(s.threads) && s.readers <= max
    && (s.entered <==> exists i :: 0 <= i < |s.threads| && IsWriter(s.threads[i]))
    && (forall i, j :: 0 <= i < |s.threads| && 0 <= j < |s.threads| && IsWriter(s.threads[i]) && IsWriter(s.threads[j]) ==> i == j)
    && (forall i :: 0 <= i < |s.threads| && s.threads[i] == HoldW ==> s.readers == 0)
  }

  lemma {:induction false} CountRUpdate(ts: seq<Thread>, i: nat, t: Thread)
    requires i < |ts|
    ensures CountR(ts[i := t]) == CountR(ts) + (if t == HoldR then 1 else 0) - (if ts[i] == HoldR then 1 else 0)
    decreases |ts|
  {
    var n := |ts| - 1;
    if i < n {
      CountRUpdate(ts[..n], i, t);
      assert ts[i := t][..n] == ts[..n][i := t];
    } else {
      assert ts[i := t][..n] == ts[..n];
    }
  }

  lemma {:induction false} CountRSame(ts: seq<Thread>, ts': seq<Thread>)
    requires |ts'| == |ts| && forall j :: 0 <= j < |ts| ==> (ts'[j] == HoldR <==> ts[j] == HoldR)
    ensures CountR(ts') == CountR(ts)
    decreases |ts|
  {
    if ts != [] {
      CountRSame(ts[..|ts| - 1], ts'[..|ts| - 1]);
    }
  }

  lemma {:induction false} CountRPositive(ts: seq<Thread>)
    ensures CountR(ts) > 0 <==> exists j :: 0 <= j < |ts| && ts[j] == HoldR
    ensures CountR(ts) <= |ts|
    decreases |ts|
  {
    if ts != [] {
      CountRPositive(ts[..|ts| - 1]);
      assert forall j :: 0 <= j < |ts| - 1 ==> ts[..|ts| - 1][j] == ts[j];
    }
  }

  /** Notifying changes neither who reads nor who writes. */
  ghost predicate SameRoles(ts: seq<Thread>, ts': seq<Thread>) {
    && |ts'| == |ts|
    && forall j :: 0 <= j < |ts| ==> (ts'[j] == HoldR <==> ts[j] == HoldR) && (IsWriter(ts'[j]) <==> IsWriter(ts[j])) && (ts'[j] == HoldW <==> ts[j] == HoldW)
  }

  lemma NotifyKeepsRoles(p: Thread -> bool, ts: seq<Thread>, ts': seq<Thread>)
    requires NotifyOne(p, ts, ts') && forall t :: p(t) ==> !t.HoldR? && !t.HoldW?
    ensures SameRoles(ts, ts')
  {
  }

  /** Thread i changes; then some threads may be notified. */
  lemma RolesChanged(max: nat, s: State, s': State, i: nat, t: Thread)
    requires Safe(max, s) && i < |s.threads| && SameRoles(s.threads[i := t], s'.threads)
    requires s'.readers == s.readers + (if t == HoldR then 1 else 0) - (if s.threads[i] == HoldR then 1 else 0) && s'.readers <= max
    requires IsWriter(s.threads[i]) ==> s'.entered == IsWriter(t)
    requires !IsWriter(s.threads[i]) ==> (if IsWriter(t) then !s.entered && s'.entered else s'.entered == s.entered)
    requires t == HoldW ==> s'.readers == 0
    requires t == HoldR && s.threads[i] != HoldR ==> !s.entered
    ensures Safe(max, s')
  {
    CountRUpdate(s.threads, i, t);
    CountRSame(s.threads[i := t], s'.threads);
    CountRPositive(s.threads);
    if s'.entered {
      if IsWriter(t) {
        assert IsWriter(s'.threads[i]);
      } else {
        var j :| 0 <= j < |s.threads| && IsWriter(s.threads[j]);
        assert IsWriter(s'.threads[j]);
      }
    }
  }

  /** Every step keeps the safety invariant; no reader is admitted while a writer has entered. */
  lemma StepSafe(max: nat, s: State, i: nat, a: Action, s': State)
    requires Safe(max, s) && Step(max, s, i, a, s')
    ensures Safe(max, s') && |s'.threads| == |s.threads|
    ensures s.entered ==> s'.readers <= s.readers
  {
    var t := match a
      case WUnlock => Idle
      case RUnlock => Idle
      case _ => s'.threads[i];
    if a == RUnlock {
      if s.entered && s'.readers == 0 {
        NotifyKeepsRoles(t => t == Entered(false), s.threads[i := Idle], s'.threads);
      } else if !s.entered && s'.readers == max - 1 {
        NotifyKeepsRoles(t => OnReaderQueue(t), s.threads[i := Idle], s'.threads);
      }
    }
    RolesChanged(max, s, s', i, t);
  }

  lemma InitSafe(max: nat, n: nat)
    ensures Safe(max, Init(n))
  {
    CountRPositive(Init(n).threads);
  }

  // ---- Progress: no wakeup is lost.

  /** Whoever sleeps without a notification still has to wait. */
  ghost predicate NoLostWakeup(max: nat, s: State) {
    forall i :: 0 <= i < |s.threads| ==>
      && (OnReaderQueue(s.threads[i]) ==> s.entered || s.readers == max)
      && (s.threads[i] == Entered(false) ==> s.readers > 0)
  }

  lemma {:induction false} OneOther(ts: seq<Thread>)
    requires CountR(ts) >= |ts| - 1
    ensures forall j, k :: 0 <= j < |ts| && 0 <= k < |ts| && ts[j] != HoldR && ts[k] != HoldR ==> j == k
    decreases |ts|
  {
    if ts != [] {
      var n := |ts| - 1;
      CountRPositive(ts[..n]);
      assert forall j :: 0 <= j < n ==> ts[..n][j] == ts[j];
      if ts[n] == HoldR {
        OneOther(ts[..n]);
      } else {
        AllReaders(ts[..n]);
      }
    }
  }

  lemma {:induction false} AllReaders(ts: seq<Thread>)
    requires CountR(ts) >= |ts|
    ensures forall j :: 0 <= j < |ts| ==> ts[j] == HoldR
    decreases |ts|
  {
    if ts != [] {
      var n := |ts| - 1;
      CountRPositive(ts[..n]);
      assert forall j :: 0 <= j < n ==> ts[..n][j] == ts[j];
      AllReaders(ts[..n]);
    }
  }

  lemma ReaderLeavesProgress(max: nat, s: State, i: nat, s': State)
    requires Safe(max, s) && NoLostWakeup(max, s) && |s.threads| <= max + 1
    requires i < |s.threads| && s.threads[i] == HoldR && ReaderLeaves(max, s, i, s')
    ensures NoLostWakeup(max, s')
  {
    if s.entered {
      LeavesToWriter(max, s, i, s');
    } else {
      LeavesToReader(max, s, i, s');
    }
  }

  /** The last reader wakes the writer that has entered. */
  lemma LeavesToWriter(max: nat, s: State, i: nat, s': State)
    requires Safe(max, s) && NoLostWakeup(max, s) && |s.threads| <= max + 1 && s.entered
    requires i < |s.threads| && s.threads[i] == HoldR && ReaderLeaves(max, s, i, s')
    ensures NoLostWakeup(max, s')
  {
    var ts := s.threads[i := Idle];
    if s'.readers == 0 && exists j :: 0 <= j < |ts| && ts[j] == Entered(false) {
      var j :| 0 <= j < |ts| && ts[j] == Entered(false) && s'.threads == ts[j := Notified(ts[j])];
    }
  }

  lemma NoWriter(max: nat, s: State)
    requires Safe(max, s) && !s.entered
    ensures forall i :: 0 <= i < |s.threads| ==> !IsWriter(s.threads[i])
  {
  }

  lemma FullLatch(max: nat, s: State)
    requires Safe(max, s) && s.readers == max && |s.threads| <= max + 1
    ensures forall j, k :: 0 <= j < |s.threads| && 0 <= k < |s.threads| && s.threads[j] != HoldR && s.threads[k] != HoldR ==> j == k
  {
    OneOther(s.threads);
  }

  /** A reader leaving a full latch wakes a waiting one. */
  lemma LeavesToReader(max: nat, s: State, i: nat, s': State)
    requires Safe(max, s) && NoLostWakeup(max, s) && |s.threads| <= max + 1 && !s.entered
    requires i < |s.threads| && s.threads[i] == HoldR && ReaderLeaves(max, s, i, s')
    ensures NoLostWakeup(max, s')
  {
    hide Safe;
    NoWriter(max, s);
    var ts := s.threads[i := Idle];
    if s'.readers == max - 1 {
      FullLatch(max, s);
      if exists j :: 0 <= j < |ts| && OnReaderQueue(ts[j]) {
        var j :| 0 <= j < |ts| && OnReaderQueue(ts[j]) && s'.threads == ts[j := Notified(ts[j])];
      }
    }
  }

  lemma StepProgress(max: nat, s: State, i: nat, a: Action, s': State)
    requires Safe(max, s) && NoLostWakeup(max, s) && |s.threads| <= max + 1 && Step(max, s, i, a, s')
    ensures NoLostWakeup(max, s')
  {
    if a == RUnlock {
      ReaderLeavesProgress(max, s, i, s');
    }
  }

  /** Safety for any number of threads; with at most max + 1 of them, no wakeup is lost in any run. */
  lemma {:induction false} RunInvariant(max: nat, n: nat, run: seq<State>)
    requires IsRun(max, n, run)
    ensures var s := run[|run| - 1];
      Safe(max, s) && |s.threads| == n && (n <= max + 1 ==> NoLostWakeup(max, s))
    decreases |run|
  {
    var k := |run| - 1;
    if k == 0 {
      InitSafe(max, n);
    } else {
      assert IsRun(max, n, run[..k]);
      RunInvariant(max, n, run[..k]);
      var s, s' := run[k - 1], run[k];
      assert Next(max, s, s') by {
        assert run[k - 1 + 1] == s';
      }
      var i: nat, a: Action :| Step(max, s, i, a, s');
      StepSafe(max, s, i, a, s');
      if n <= max + 1 {
        StepProgress(max, s, i, a, s');
      }
    }
  }

  /** A thread that holds the write latch excludes every other holder, and the reader count is exact. */
  lemma MutualExclusion(max: nat, n: nat, s: State, i: nat)
    requires Reachable(max, n, s)
    ensures |s.threads| == n && s.readers == CountR(s.threads) && s.readers <= max
    ensures i < n && s.threads[i] == HoldW ==>
      forall j :: 0 <= j < n && j != i ==> s.threads[j] != HoldR && s.threads[j] != HoldW
  {
    var run: seq<State> :| IsRun(max, n, run) && run[|run| - 1] == s;
    RunInvariant(max, n, run);
    CountRPositive(s.threads);
  }

  /** The latch has room for a reader, yet somebody waits for it and nobody has notified them. */
  ghost predicate Stuck(max: nat, s: State) {
    && !s.entered && s.readers < max
    && exists i :: 0 <= i < |s.threads| && OnReaderQueue(s.threads[i])
  }

  lemma NeverStuck(max: nat, n: nat, s: State)
    requires Reachable(max, n, s) && n <= max + 1
    ensures !Stuck(max, s) && NoLostWakeup(max, s)
  {
    var run: seq<State> :| IsRun(max, n, run) && run[|run| - 1] == s;
    RunInvariant(max, n, run);
  }

  // ---- Whoever waits can get the latch without spurious wakeups.

  predicate Waiting(t: Thread) {
    t.WantW? || t.Entered? || t.WantR?
  }

  predicate Holding(t: Thread) {
    t == HoldW || t == HoldR
  }

  /** A holder unlocks or a notified thread wakes up: no new requests, no spurious wakeups. */
  ghost predicate QuietStep(max: nat, s: State, i: nat, a: Action, s': State) {
    && Step(max, s, i, a, s')
    && (a == WUnlock || a == RUnlock || (a == Wake && Waiting(s.threads[i]) && s.threads[i].notified))
  }

  ghost predicate QuietNext(max: nat, s: State, s': State) {
    exists i: nat, a: Action :: QuietStep(max, s, i, a, s')
  }

  ghost predicate QuietRun(max: nat, s: State, run: seq<State>) {
    run != [] && run[0] == s && forall k :: 0 <= k < |run| - 1 ==> QuietNext(max, run[k], run[k + 1])
  }

  ghost predicate ServingRun(max: nat, s: State, i: nat, run: seq<State>) {
    QuietRun(max, s, run) && i < |run[|run| - 1].threads| && Holding(run[|run| - 1].threads[i])
  }

  /** After some such steps thread i holds the latch. */
  ghost predicate Served(max: nat, s: State, i: nat) {
    exists run: seq<State> :: ServingRun(max, s, i, run)
  }

  lemma ServedNow(max: nat, s: State, i: nat)
    requires i < |s.threads| && Holding(s.threads[i])
    ensures Served(max, s, i)
  {
    assert ServingRun(max, s, i, [s]);
  }

  lemma ServedNext(max: nat, s: State, j: nat, a: Action, s': State, i: nat)
    requires QuietStep(max, s, j, a, s') && Served(max, s', i)
    ensures Served(max, s, i)
  {
    var run: seq<State> :| ServingRun(max, s', i, run);
    var run' := [s] + run;
    forall k | 0 <= k < |run'| - 1 ensures QuietNext(max, run'[k], run'[k + 1]) {
      if k > 0 {
        assert run'[k] == run[k - 1] && run'[k + 1] == run[k];
        assert run[k - 1 + 1] == run[k];
      }
    }
    assert run'[|run'| - 1] == run[|run| - 1];
    assert ServingRun(max, s, i, run');
  }

  /** A reader can always leave; the others are at most notified. */
  lemma ReaderCanLeave(max: nat, s: State, j: nat) returns (s': State)
    requires j < |s.threads| && s.threads[j] == HoldR && s.readers > 0
    ensures Step(max, s, j, RUnlock, s') && s'.readers == s.readers - 1 && s'.entered == s.entered && |s'.threads| == |s.threads|
    ensures forall k :: 0 <= k < |s.threads| && k != j ==> s'.threads[k] == s.threads[k] || s'.threads[k] == Notified(s.threads[k])
  {
    var ts := s.threads[j := Idle];
    var ts' := ts;
    if s.entered && s.readers == 1 {
      ts' := NotifiedOne(t => t == Entered(false), ts);
    } else if !s.entered && s.readers - 1 == max - 1 {
      ts' := NotifiedOne(t => OnReaderQueue(t), ts);
    }
    s' := State(ts', s.readers - 1, s.entered);
  }

  lemma NotifiedOne(p: Thread -> bool, ts: seq<Thread>) returns (ts': seq<Thread>)
    ensures NotifyOne(p, ts, ts') && |ts'| == |ts|
    ensures forall k :: 0 <= k < |ts| ==> ts'[k] == ts[k] || ts'[k] == Notified(ts[k])
  {
    ts' := ts;
    if j :| 0 <= j < |ts| && p(ts[j]) {
      ts' := ts[j := Notified(ts[j])];
    }
  }

  ghost predicate Healthy(max: nat, s: State) {
    Safe(max, s) && NoLostWakeup(max, s) && 1 <= max && |s.threads| <= max + 1
  }

  lemma StepHealthy(max: nat, s: State, i: nat, a: Action, s': State)
    requires Healthy(max, s) && Step(max, s, i, a, s')
    ensures Healthy(max, s')
  {
    StepSafe(max, s, i, a, s');
    StepProgress(max, s, i, a, s');
  }

  /** The readers leave one after the other, and the writer that has entered gets the latch. */
  lemma {:induction false} EnteredServed(max: nat, s: State, w: nat)
    requires Healthy(max, s) && w < |s.threads| && s.threads[w].Entered?
    ensures Served(max, s, w)
    decreases s.readers
  {
    if s.readers == 0 {
      var s' := s.(threads := s.threads[w := HoldW]);
      assert QuietStep(max, s, w, Wake, s');
      ServedNow(max, s', w);
      ServedNext(max, s, w, Wake, s', w);
    } else {
      CountRPositive(s.threads);
      var j: nat :| j < |s.threads| && s.threads[j] == HoldR;
      var s' := ReaderCanLeave(max, s, j);
      StepHealthy(max, s, j, RUnlock, s');
      EnteredServed(max, s', w);
      ServedNext(max, s, j, RUnlock, s', w);
    }
  }

  /** With room for a reader, whoever waits on the reader queue has been notified and gets on. */
  lemma RoomServed(max: nat, s: State, i: nat)
    requires Healthy(max, s) && !s.entered && s.readers < max && i < |s.threads| && (s.threads[i].WantR? || s.threads[i].WantW?)
    ensures Served(max, s, i)
  {
    assert s.threads[i].notified;
    var s' := if s.threads[i].WantR? then State(s.threads[i := HoldR], s.readers + 1, false)
      else State(s.threads[i := if s.readers > 0 then Entered(false) else HoldW], s.readers, true);
    assert QuietStep(max, s, i, Wake, s');
    if Holding(s'.threads[i]) {
      ServedNow(max, s', i);
    } else {
      StepHealthy(max, s, i, Wake, s');
      EnteredServed(max, s', i);
    }
    ServedNext(max, s, i, Wake, s', i);
  }

  /** While no writer has entered, at most one reader has to leave. */
  lemma QueueServed(max: nat, s: State, i: nat)
    requires Healthy(max, s) && !s.entered && i < |s.threads| && (s.threads[i].WantR? || s.threads[i].WantW?)
    ensures Served(max, s, i)
  {
    if s.readers < max {
      RoomServed(max, s, i);
    } else {
      CountRPositive(s.threads);
      var j: nat :| j < |s.threads| && s.threads[j] == HoldR;
      var s' := ReaderCanLeave(max, s, j);
      StepHealthy(max, s, j, RUnlock, s');
      RoomServed(max, s', i);
      ServedNext(max, s, j, RUnlock, s', i);
    }
  }

  /** A writer that unlocks wakes everybody on the reader queue. */
  lemma UnlockServed(max: nat, s: State, w: nat, i: nat)
    requires Healthy(max, s) && w < |s.threads| && s.threads[w] == HoldW && i < |s.threads| && Waiting(s.threads[i])
    ensures Served(max, s, i)
  {
    assert IsWriter(s.threads[w]) && !s.threads[i].Entered?;
    var s' := State(NotifyAllReaders(s.threads[w := Idle]), s.readers, false);
    assert Step(max, s, w, WUnlock, s');
    StepHealthy(max, s, w, WUnlock, s');
    RoomServed(max, s', i);
    ServedNext(max, s, w, WUnlock, s', i);
  }

  /** If anybody waits, somebody who waits gets the latch when the holders unlock and notified threads wake up. */
  lemma SomeoneServed(max: nat, n: nat, s: State, i: nat)
    requires Reachable(max, n, s) && 1 <= max && n <= max + 1 && i < |s.threads| && Waiting(s.threads[i])
    ensures exists k: nat :: k < |s.threads| && Waiting(s.threads[k]) && Served(max, s, k)
  {
    MutualExclusion(max, n, s, 0);
    NeverStuck(max, n, s);
    var run: seq<State> :| IsRun(max, n, run) && run[|run| - 1] == s;
    RunInvariant(max, n, run);
    assert Healthy(max, s);
    if !s.entered {
      assert !IsWriter(s.threads[i]);
      QueueServed(max, s, i);
    } else {
      var w: nat :| w < |s.threads| && IsWriter(s.threads[w]);
      if s.threads[w] == HoldW {
        UnlockServed(max, s, w, i);
      } else {
        EnteredServed(max, s, w);
      }
    }
  }

  // ---- With more threads a reader can be forgotten.

  lemma ReachableNext(max: nat, n: nat, s: State, i: nat, a: Action, s': State)
    requires Reachable(max, n, s) && Step(max, s, i, a, s')
    ensures Reachable(max, n, s')
  {
    var run: seq<State> :| IsRun(max, n, run) && run[|run| - 1] == s;
    var run' := run + [s'];
    assert Next(max, s, s');
    forall k | 0 <= k < |run'| - 1 ensures Next(max, run'[k], run'[k + 1]) {
      if k < |run| - 1 {
        assert run'[k] == run[k] && run'[k + 1] == run[k + 1];
      }
    }
    assert IsRun(max, n, run') && run'[|run'| - 1] == s';
  }

  /** Threads lo to hi-1 read; threads max and max+1 are in the given states; the others are idle. */
  function Readers(max: nat, n: nat, lo: nat, hi: nat, x: Thread, y: Thread): State
    requires lo <= hi <= max && max + 2 <= n
  {
    State(seq(n, i requires 0 <= i < n => if lo <= i < hi then HoldR else if i == max then x else if i == max + 1 then y else Idle),
          hi - lo + (if x == HoldR then 1 else 0), false)
  }

  lemma {:induction false} ReadersEnter(max: nat, n: nat, hi: nat)
    requires hi <= max && max + 2 <= n
    ensures Reachable(max, n, Readers(max, n, 0, hi, Idle, Idle))
    decreases hi
  {
    var s := Readers(max, n, 0, hi, Idle, Idle);
    if hi == 0 {
      assert s == Init(n);
      assert IsRun(max, n, [s]);
    } else {
      ReadersEnter(max, n, hi - 1);
      var before := Readers(max, n, 0, hi - 1, Idle, Idle);
      assert s.threads == before.threads[hi - 1 := HoldR];
      ReachableNext(max, n, before, hi - 1, RLock, s);
    }
  }

  lemma TwoReadersSleep(max: nat, n: nat)
    requires max + 2 <= n
    ensures Reachable(max, n, Readers(max, n, 0, max, WantR(false), WantR(false)))
  {
    ReadersEnter(max, n, max);
    var s0 := Readers(max, n, 0, max, Idle, Idle);
    var s1 := Readers(max, n, 0, max, WantR(false), Idle);
    var s2 := Readers(max, n, 0, max, WantR(false), WantR(false));
    assert s1.threads == s0.threads[max := WantR(false)];
    ReachableNext(max, n, s0, max, RLock, s1);
    assert s2.threads == s1.threads[max + 1 := WantR(false)];
    ReachableNext(max, n, s1, max + 1, RLock, s2);
  }

  /** The first reader to leave notifies one sleeper; the others leave silently. */
  lemma {:induction false} ReadersLeave(max: nat, n: nat, lo: nat)
    requires 2 <= max && max + 2 <= n && 1 <= lo <= max
    ensures Reachable(max, n, Readers(max, n, lo, max, WantR(true), WantR(false)))
    decreases lo
  {
    var s := Readers(max, n, lo, max, WantR(true), WantR(false));
    if lo == 1 {
      TwoReadersSleep(max, n);
      var before := Readers(max, n, 0, max, WantR(false), WantR(false));
      var ts := before.threads[0 := Idle];
      assert OnReaderQueue(ts[max]) && s.threads == ts[max := Notified(ts[max])];
      assert NotifyOne(t => OnReaderQueue(t), ts, s.threads);
      ReachableNext(max, n, before, 0, RUnlock, s);
    } else {
      ReadersLeave(max, n, lo - 1);
      var before := Readers(max, n, lo - 1, max, WantR(true), WantR(false));
      assert s.threads == before.threads[lo - 1 := Idle];
      ReachableNext(max, n, before, lo - 1, RUnlock, s);
    }
  }

  /** Nobody holds the latch and nobody has been notified. */
  ghost predicate Asleep(s: State) {
    forall k :: 0 <= k < |s.threads| ==> s.threads[k] == Idle || OnReaderQueue(s.threads[k])
  }

  /** Two readers wait for room; when all others have come and gone, one of them still sleeps. */
  lemma ReaderForgotten(max: nat, n: nat)
    requires 2 <= max && max + 2 <= n
    ensures exists s :: Reachable(max, n, s) && Stuck(max, s) && s.readers == 0 && Asleep(s)
  {
    ReadersLeave(max, n, max);
    var s0 := Readers(max, n, max, max, WantR(true), WantR(false));
    var s1 := Readers(max, n, max, max, HoldR, WantR(false));
    var s2 := Readers(max, n, max, max, Idle, WantR(false));
    assert s1.threads == s0.threads[max := HoldR];
    ReachableNext(max, n, s0, max, Wake, s1);
    assert s2.threads == s1.threads[max := Idle];
    ReachableNext(max, n, s1, max, RUnlock, s2);
    assert OnReaderQueue(s2.threads[max + 1]);
    assert Asleep(s2);
  }

  lemma AsleepForever(max: nat, s: State, i: nat)
    requires Asleep(s) && i < |s.threads|
    ensures !Served(max, s, i)
  {
    forall run: seq<State> ensures !ServingRun(max, s, i, run) {
      var k := 0;
      assert |run| > 1 && QuietRun(max, s, run) ==> QuietNext(max, run[k], run[k + 1]);
    }
  }

  /** Whenever somebody waits, somebody who waits gets the latch in the end, exactly with at most max + 1 threads. */
  lemma ServedIff(max: nat, n: nat)
    requires 2 <= max
    ensures n <= max + 1 <==> forall s, i: nat :: Reachable(max, n, s) && i < |s.threads| && Waiting(s.threads[i]) ==>
      exists k: nat :: k < |s.threads| && Waiting(s.threads[k]) && Served(max, s, k)
  {
    if n <= max + 1 {
      forall s, i: nat | Reachable(max, n, s) && i < |s.threads| && Waiting(s.threads[i])
        ensures exists k: nat :: k < |s.threads| && Waiting(s.threads[k]) && Served(max, s, k)
      {
        SomeoneServed(max, n, s, i);
      }
    } else {
      ReaderForgotten(max, n);
      var s :| Reachable(max, n, s) && Stuck(max, s) && s.readers == 0 && Asleep(s);
      var i: nat :| i < |s.threads| && OnReaderQueue(s.threads[i]);
      forall k: nat | k < |s.threads| ensures !Served(max, s, k) {
        AsleepForever(max, s, k);
      }
      assert Waiting(s.threads[i]);
    }
  }

  /** For a limit of at least two readers, no run gets stuck exactly if there are at most max + 1 threads. */
  lemma ProgressIff(max: nat, n: nat)
    requires 2 <= max
    ensures (forall s :: Reachable(max, n, s) ==> !Stuck(max, s)) <==> n <= max + 1
  {
    if n <= max + 1 {
      forall s | Reachable(max, n, s) ensures !Stuck(max, s) {
        NeverStuck(max, n, s);
      }
    } else {
      ReaderForgotten(max, n);
    }
  }
}
