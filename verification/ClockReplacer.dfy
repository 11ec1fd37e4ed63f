/** The second-chance replacer: frames in a circle and a hand that sweeps over them. */
module ClockReplacers {

  /** A frame is not a candidate, has its second chance left, or has spent it. */
  datatype Flag = NotExist | ExistTrue | ExistFalse

  /** The circle and the position of the hand. */
  datatype Clock = Clock(flags: seq<Flag>, hand: nat)

  ghost predicate ValidClock(c: Clock) {
    c.hand < |c.flags|
  }

  predicate Present(f: Flag) {
    f != NotExist
  }

  function CountPresent(flags: seq<Flag>): nat {
    if flags == [] then 0
    else CountPresent(flags[..|flags| - 1]) + if Present(flags[|flags| - 1]) then 1 else 0
  }

  lemma {:induction false} CountUpdate(flags: seq<Flag>, i: nat, f: Flag)
    requires i < |flags|
    ensures CountPresent(flags[i := f]) == CountPresent(flags) + (if Present(f) then 1 else 0) - (if Present(flags[i]) then 1 else 0)
    decreases |flags|
  {
    var n := |flags| - 1;
    if i < n {
      CountUpdate(flags[..n], i, f);
      assert flags[i := f][..n] == flags[..n][i := f];
    } else {
      assert flags[i := f][..n] == flags[..n];
    }
  }

  lemma {:induction false} CountZero(flags: seq<Flag>)
    ensures CountPresent(flags) == 0 <==> forall i :: 0 <= i < |flags| ==> !Present(flags[i])
    decreases |flags|
  {
    if flags != [] {
      CountZero(flags[..|flags| - 1]);
      assert forall i :: 0 <= i < |flags| - 1 ==> flags[..|flags| - 1][i] == flags[i];
    }
  }

  // ---- The circle.

  /** The number of steps the hand needs to reach frame f. */
  function Dist(c: Clock, f: nat): int {
    if f >= c.hand then f - c.hand else f - c.hand + |c.flags|
  }

  function Next(hand: nat, n: nat): nat
    requires hand < n
  {
    if hand + 1 == n then 0 else hand + 1
  }

  ghost predicate AnySpent(flags: seq<Flag>) {
    exists f :: 0 <= f < |flags| && flags[f] == ExistFalse
  }

  /** The frame the sweep stops at: the first one that has spent its chance, else the first present one. */
  ghost predicate IsVictim(c: Clock, f: nat) {
    && f < |c.flags| && Present(c.flags[f])
    && if AnySpent(c.flags)
       then c.flags[f] == ExistFalse && forall g :: 0 <= g < |c.flags| && Dist(c, g) < Dist(c, f) ==> c.flags[g] != ExistFalse
       else forall g :: 0 <= g < |c.flags| && Dist(c, g) < Dist(c, f) ==> !Present(c.flags[g])
  }

  /** The hand passes a frame once before it stops, or goes all the way around. */
  ghost predicate Passed(c: Clock, f: nat, g: nat) {
    !AnySpent(c.flags) || Dist(c, g) < Dist(c, f)
  }

  /** After the sweep: the victim is gone, chances that were passed are spent, and the hand is behind the victim. */
  ghost predicate Swept(c: Clock, f: nat, c': Clock)
    requires f < |c.flags|
  {
    && |c'.flags| == |c.flags| && c'.hand == Next(f, |c.flags|)
    && forall g :: 0 <= g < |c.flags| ==> c'.flags[g] == SweptFlag(c, f, g)
  }

  ghost function SweptFlag(c: Clock, f: nat, g: nat): Flag
    requires g < |c.flags|
  {
    if g == f then NotExist
    else if Passed(c, f, g) && c.flags[g] == ExistTrue then ExistFalse
    else c.flags[g]
  }

  // ---- Fairness.

  /** An upper bound on the number of victims taken until frame f is taken. */
  function Patience(c: Clock, f: nat): int
    requires f < |c.flags|
  {
    Dist(c, f) + 1 + if c.flags[f] == ExistFalse then 0 else |c.flags|
  }

  lemma PatienceBound(c: Clock, f: nat)
    requires ValidClock(c) && f < |c.flags|
    ensures 0 < Patience(c, f) <= 2 * |c.flags|
  {
  }

  /** A frame that is not taken comes strictly closer. */
  lemma VictimComesCloser(c: Clock, v: nat, c': Clock, f: nat)
    requires ValidClock(c) && IsVictim(c, v) && Swept(c, v, c')
    requires f < |c.flags| && f != v && Present(c.flags[f])
    ensures Present(c'.flags[f]) && Patience(c', f) < Patience(c, f)
  {
    if AnySpent(c.flags) {
      if c.flags[f] == ExistFalse {
        assert Dist(c, v) < Dist(c, f);
      }
    } else {
      assert Dist(c, v) < Dist(c, f);
    }
  }

  datatype Op = Pin(frame: nat) | Unpin(frame: nat) | Victim(frame: nat)

  function PinClock(c: Clock, f: nat): Clock
    requires f < |c.flags|
  {
    c.(flags := c.flags[f := NotExist])
  }

  function UnpinClock(c: Clock, f: nat): Clock
    requires f < |c.flags|
  {
    if c.flags[f] == NotExist then c.(flags := c.flags[f := ExistTrue]) else c
  }

  ghost predicate IsOp(c: Clock, op: Op, c': Clock) {
    && op.frame < |c.flags|
    && match op
       case Pin(f) => c' == PinClock(c, f)
       case Unpin(f) => c' == UnpinClock(c, f)
       case Victim(f) => IsVictim(c, f) && Swept(c, f, c')
  }

  /** `clocks` are the states of the replacer before, between and after the operations. */
  ghost predicate IsRun(clocks: seq<Clock>, ops: seq<Op>) {
    && |clocks| == |ops| + 1
    && forall i :: 0 <= i < |ops| ==> IsOp(clocks[i], ops[i], clocks[i + 1])
  }

  function Victims(ops: seq<Op>): nat {
    if ops == [] then 0 else Victims(ops[1..]) + if ops[0].Victim? then 1 else 0
  }

  /** Whatever is done to other frames, an unpinned frame is taken within 2 * pool size victims. */
  lemma {:induction false} Fair(clocks: seq<Clock>, ops: seq<Op>, f: nat)
    requires IsRun(clocks, ops) && ValidClock(clocks[0]) && f < |clocks[0].flags| && Present(clocks[0].flags[f])
    requires forall i :: 0 <= i < |ops| ==> ops[i] != Pin(f)
    requires Victims(ops) >= Patience(clocks[0], f)
    ensures exists i :: 0 <= i < |ops| && ops[i] == Victim(f)
    decreases |ops|
  {
    var c := clocks[0];
    PatienceBound(c, f);
    if ops[0] != Victim(f) {
      var c', op := clocks[1], ops[0];
      assert IsOp(c, op, c');
      if op.Victim? {
        VictimComesCloser(c, op.frame, c', f);
      }
      assert IsRun(clocks[1..], ops[1..]) by {
        forall i | 0 <= i < |ops[1..]| ensures IsOp(clocks[1..][i], ops[1..][i], clocks[1..][i + 1]) {
          assert IsOp(clocks[i + 1], ops[i + 1], clocks[i + 2]);
        }
      }
      Fair(clocks[1..], ops[1..], f);
      var i :| 0 <= i < |ops[1..]| && ops[1..][i] == Victim(f);
      assert ops[i + 1] == Victim(f);
    }
  }

  lemma FairWithinTwoRounds(clocks: seq<Clock>, ops: seq<Op>, f: nat)
    requires IsRun(clocks, ops) && ValidClock(clocks[0]) && f < |clocks[0].flags| && Present(clocks[0].flags[f])
    requires forall i :: 0 <= i < |ops| ==> ops[i] != Pin(f)
    requires Victims(ops) >= 2 * |clocks[0].flags|
    ensures exists i :: 0 <= i < |ops| && ops[i] == Victim(f)
  {
    PatienceBound(clocks[0], f);
    Fair(clocks, ops, f);
  }

  // ---- The second chance.

  /** Until the next victim is taken, no frame spends its chance. */
  lemma {:induction false} ChancesKept(clocks: seq<Clock>, ops: seq<Op>, f: nat)
    requires IsRun(clocks, ops) && f < |clocks[0].flags| && clocks[0].flags[f] != ExistFalse
    requires forall i :: 0 <= i < |ops| ==> !ops[i].Victim?
    ensures f < |clocks[|ops|].flags| && clocks[|ops|].flags[f] != ExistFalse
    decreases |ops|
  {
    if ops != [] {
      var n := |ops| - 1;
      assert IsRun(clocks[..n + 1], ops[..n]) by {
        forall i | 0 <= i < n ensures IsOp(clocks[..n + 1][i], ops[..n][i], clocks[..n + 1][i + 1]) {
          assert IsOp(clocks[i], ops[i], clocks[i + 1]);
        }
      }
      ChancesKept(clocks[..n + 1], ops[..n], f);
      assert IsOp(clocks[n], ops[n], clocks[n + 1]);
    }
  }

  /**
   * A frame that is unpinned has its second chance: whatever is done before the next victim is taken, the victim
   * is another frame if any frame has spent its chance, and otherwise none is present between the hand and the victim.
   */
  lemma SecondChance(clocks: seq<Clock>, ops: seq<Op>, f: nat, v: nat)
    requires IsRun(clocks, ops) && |ops| > 1 && f < |clocks[0].flags| && clocks[0].flags[f] == NotExist
    requires ops[0] == Unpin(f) && ops[|ops| - 1] == Victim(v) && forall i :: 0 <= i < |ops| - 1 ==> !ops[i].Victim?
    ensures f < |clocks[1].flags| && Present(clocks[1].flags[f])
    ensures var c := clocks[|ops| - 1];
      && ((exists g :: 0 <= g < |c.flags| && c.flags[g] == ExistFalse) ==> v != f)
      && (v == f ==> forall g :: 0 <= g < |c.flags| && Present(c.flags[g]) ==> c.flags[g] == ExistTrue && Dist(c, f) <= Dist(c, g))
  {
    var n := |ops| - 1;
    assert IsOp(clocks[0], ops[0], clocks[1]);
    assert IsRun(clocks[..n + 1], ops[..n]) by {
      forall i | 0 <= i < n ensures IsOp(clocks[..n + 1][i], ops[..n][i], clocks[..n + 1][i + 1]) {
        assert IsOp(clocks[i], ops[i], clocks[i + 1]);
      }
    }
    ChancesKept(clocks[..n + 1], ops[..n], f);
    assert IsOp(clocks[n], ops[n], clocks[n + 1]);
  }

  // ---- The code.

  class ClockReplacer {
    const poolSize: nat
    const flags: array<Flag>
    var clockPointer: nat
    var exitNum: int

    function View(): Clock
      reads this, flags
    {
      Clock(flags[..], clockPointer)
    }

    /** exit_num is the number of frames present. */
    ghost predicate Valid()
      reads this, flags
    {
      && flags.Length == poolSize > 0 && clockPointer < poolSize
      && exitNum == CountPresent(flags[..])
    }

    constructor (poolSize: nat)
      requires poolSize > 0
      ensures Valid() && this.poolSize == poolSize && clockPointer == 0 && fresh(flags)
      ensures forall i :: 0 <= i < poolSize ==> flags[i] == NotExist
    {
      this.poolSize := poolSize;
      flags := new Flag[poolSize](_ => NotExist);
      clockPointer, exitNum := 0, 0;
      new;
      CountZero(flags[..]);
    }

    method PinFrame(frame: nat)
      requires Valid() && frame < poolSize
      modifies this`exitNum, flags
      ensures Valid() && View() == PinClock(old(View()), frame)
      ensures flags[frame] == NotExist && clockPointer == old(clockPointer)
      ensures forall f :: 0 <= f < poolSize && f != frame ==> flags[f] == old(flags[f])
    {
      if flags[frame] != NotExist {
        CountUpdate(flags[..], frame, NotExist);
        exitNum := exitNum - 1;
        flags[frame] := NotExist;
      }
      assert flags[..] == old(flags[..])[frame := NotExist];
    }

    method UnpinFrame(frame: nat)
      requires Valid() && frame < poolSize
      modifies this`exitNum, flags
      ensures Valid() && View() == UnpinClock(old(View()), frame)
      ensures flags[frame] == (if old(flags[frame]) == NotExist then ExistTrue else old(flags[frame])) && clockPointer == old(clockPointer)
      ensures forall f :: 0 <= f < poolSize && f != frame ==> flags[f] == old(flags[f])
    {
      if flags[frame] == NotExist {
        CountUpdate(flags[..], frame, ExistTrue);
        exitNum := exitNum + 1;
        flags[frame] := ExistTrue;
        assert flags[..] == old(flags[..])[frame := ExistTrue];
      }
    }

    /** Takes a victim within 2 * poolSize steps of the hand; the caller has waited until a frame is present. */
    method TakeVictim() returns (frame: nat, ghost steps: nat)
      requires Valid() && exitNum > 0
      modifies this`clockPointer, this`exitNum, flags
      ensures Valid() && exitNum == old(exitNum) - 1
      ensures IsVictim(old(View()), frame) && Swept(old(View()), frame, View())
      ensures steps < 2 * poolSize
      ensures frame < poolSize && flags[frame] == NotExist && clockPointer == if frame + 1 < poolSize then frame + 1 else 0
      ensures old(flags[frame]) == ExistFalse || (old(flags[frame]) == ExistTrue && forall g :: 0 <= g < poolSize ==> old(flags[g]) != ExistFalse)
      ensures forall g :: 0 <= g < poolSize && g != frame ==> (flags[g] == NotExist <==> old(flags[g]) == NotExist)
      ensures forall g :: 0 <= g < poolSize && g != frame && old(flags[g]) == ExistTrue ==>
        (flags[g] == ExistFalse <==> old(flags[frame]) == ExistTrue || Dist(old(View()), g) < Dist(old(View()), frame))
    {
      hide Sweeping, IsVictim, Swept, CountPresent;
      ghost var c := View();
      CountZero(c.flags);
      SweepStarts(c);
      steps := 0;
      while true
        invariant clockPointer < poolSize && steps < 2 * poolSize
        invariant Sweeping(c, flags[..], clockPointer, steps)
        invariant exitNum == CountPresent(flags[..]) == old(exitNum)
        decreases 2 * poolSize - steps
      {
        ghost var was := flags[..];
        var p := clockPointer;
        NextIsMod(p, poolSize);
        if flags[p] == ExistFalse {
          frame := p;
          CountUpdate(was, p, NotExist);
          flags[p] := NotExist;
          assert flags[..] == was[p := NotExist];
          exitNum := exitNum - 1;
          clockPointer := (p + 1) % poolSize;
          SweepStops(c, was, p, steps, View());
          SweptMeans(c, p, View());
          return;
        }
        if flags[p] == ExistTrue {
          CountUpdate(was, p, ExistFalse);
          flags[p] := ExistFalse;
          assert flags[..] == was[p := ExistFalse];
        }
        SweepGoesOn(c, was, p, steps, flags[..]);
        clockPointer := (p + 1) % poolSize;
        steps := steps + 1;
      }
    }
  }

  lemma NextIsMod(p: nat, n: nat)
    requires p < n
    ensures (p + 1) % n == Next(p, n)
  {
  }

  /** The sweep after some steps: no victim was met, and the chances met are spent. */
  ghost predicate Sweeping(c: Clock, flags: seq<Flag>, hand: nat, steps: nat) {
    var n := |c.flags|;
    && ValidClock(c) && |flags| == n && hand < n && steps < 2 * n
    && Dist(c, hand) == (if steps < n then steps else steps - n)
    && (exists f :: 0 <= f < n && Present(c.flags[f]))
    && (forall g :: 0 <= g < n && Met(c, steps, g) ==> c.flags[g] != ExistFalse)
    && (forall g :: 0 <= g < n ==> flags[g] == if Met(c, steps, g) && c.flags[g] == ExistTrue then ExistFalse else c.flags[g])
    && (steps >= n ==> forall g :: 0 <= g < n && Dist(c, g) < steps - n ==> !Present(c.flags[g]))
  }

  ghost predicate Met(c: Clock, steps: nat, g: nat) {
    steps >= |c.flags| || Dist(c, g) < steps
  }

  lemma SweepStarts(c: Clock)
    requires ValidClock(c) && exists f :: 0 <= f < |c.flags| && Present(c.flags[f])
    ensures Sweeping(c, c.flags, c.hand, 0)
  {
  }

  lemma SweepStops(c: Clock, flags: seq<Flag>, p: nat, steps: nat, c': Clock)
    requires Sweeping(c, flags, p, steps) && flags[p] == ExistFalse
    requires c' == Clock(flags[p := NotExist], Next(p, |flags|))
    ensures IsVictim(c, p) && Swept(c, p, c')
  {
    if steps < |flags| {
      assert !Met(c, steps, p);
      assert AnySpent(c.flags);
      assert forall g :: 0 <= g < |flags| ==> (Met(c, steps, g) <==> Passed(c, p, g));
    } else {
      assert !AnySpent(c.flags);
      assert forall g :: 0 <= g < |flags| ==> Met(c, steps, g) && Passed(c, p, g);
    }
  }

  lemma SweptMeans(c: Clock, f: nat, c': Clock)
    requires IsVictim(c, f) && Swept(c, f, c')
    ensures c'.flags[f] == NotExist && c'.hand == if f + 1 < |c.flags| then f + 1 else 0
    ensures c.flags[f] == ExistFalse || (c.flags[f] == ExistTrue && forall g :: 0 <= g < |c.flags| ==> c.flags[g] != ExistFalse)
    ensures forall g :: 0 <= g < |c.flags| && g != f ==> (c'.flags[g] == NotExist <==> c.flags[g] == NotExist)
    ensures forall g :: 0 <= g < |c.flags| && g != f && c.flags[g] == ExistTrue ==>
      (c'.flags[g] == ExistFalse <==> c.flags[f] == ExistTrue || Dist(c, g) < Dist(c, f))
  {
  }

  lemma SweepGoesOn(c: Clock, flags: seq<Flag>, p: nat, steps: nat, flags': seq<Flag>)
    requires Sweeping(c, flags, p, steps) && flags[p] != ExistFalse
    requires flags' == if flags[p] == ExistTrue then flags[p := ExistFalse] else flags
    ensures steps + 1 < 2 * |flags| && |flags| == |c.flags| && Sweeping(c, flags', Next(p, |flags|), steps + 1)
  {
    var n := |flags|;
    assert forall g :: 0 <= g < n && Dist(c, g) == Dist(c, p) ==> g == p;
  }
}
