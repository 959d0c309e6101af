/**
 The lock order of the allocation service (src/grpc/allocation.rs). Allocate takes the totals and
 then the records; free and status take the records and then the totals.
 */
module AllocationLocks {
  import opened AllocationLedger

  /** Some call holds a lock. */
  predicate InFlight(s: State) {
    !s.Quiet()
  }

  /** The steps that bring a call in flight closer to its end. */
  predicate Advances(step: Step) {
    step.Insert? || step.Add? || step.Subtract? || step.FinishStatus?
  }

  /** There are calls in flight, and none of them can move. */
  ghost predicate Stuck(s: State) {
    InFlight(s) && forall step: Step | Advances(step) :: !Enabled(s, step)
  }

  /** That is so exactly when an allocate that has checked meets a free that has removed or a status that waits. */
  lemma StuckExactly(s: State)
    ensures Stuck(s) <==> s.allocator.Checked? && (s.freer.Removed? || s.waiting > 0)
  {
    if s.allocator.NoAllocator? {
      assert s.freer.Removed? ==> Enabled(s, Subtract);
      assert s.waiting > 0 ==> Enabled(s, FinishStatus);
    } else if s.allocator.Inserted? {
      assert Enabled(s, Add);
    } else if s.freer.NoFreer? && s.waiting == 0 {
      assert Enabled(s, Insert);
    }
  }

  /** Once stuck, for ever: no allocate or free is ever begun or ended, and no status ended. */
  lemma {:induction false} StuckForEver(states: seq<State>, steps: seq<Step>, i: nat, j: nat)
    requires IsRun(states, steps) && i <= j <= |steps| && Stuck(states[i])
    ensures Stuck(states[j]) && forall k | i <= k < j :: steps[k].BeginStatus?
    ensures states[j] == states[i].(waiting := states[j].waiting) && states[j].waiting >= states[i].waiting
    decreases j
  {
    if i < j {
      StuckForEver(states, steps, i, j - 1);
      StuckExactly(states[j - 1]);
      assert Enabled(states[j - 1], steps[j - 1]) && states[j] == Next(states[j - 1], steps[j - 1]);
      StuckExactly(states[j]);
    }
  }

  /** How many of the first i steps begin a status call, or finish one. */
  ghost function CallsOf(steps: seq<Step>, begin: bool, i: nat): nat
    requires i <= |steps|
  {
    if i == 0 then 0
    else
      var last := steps[i - 1];
      CallsOf(steps, begin, i - 1) + if (if begin then last.BeginStatus? else last.FinishStatus?) then 1 else 0
  }

  /** In every run the waiting status calls are those that have begun and not finished. */
  lemma {:induction false} WaitingCounted(states: seq<State>, steps: seq<Step>, i: nat)
    requires IsRun(states, steps) && i <= |steps|
    ensures states[i].waiting + CallsOf(steps, false, i) == CallsOf(steps, true, i)
  {
    if i > 0 {
      WaitingCounted(states, steps, i - 1);
      assert Enabled(states[i - 1], steps[i - 1]) && states[i] == Next(states[i - 1], steps[i - 1]);
    }
  }

  /** Five steps of two allocates and a free get stuck; not even a status call can begin. */
  lemma StuckReachable(a: Record, b: Record)
    requires a.id != b.id && a.agent != b.agent && a.tb <= MAX_PER_AGENT_TB && b.tb <= MAX_PER_AGENT_TB
    ensures exists states: seq<State> ::
              && IsRun(states, [Check(a), Insert, Add, Check(b), Remove(a.id)])
              && Stuck(states[5]) && forall step: Step :: !Enabled(states[5], step)
  {
    var s1 := Next(EMPTY, Check(a));
    var s2 := Next(s1, Insert);
    var s3 := Next(s2, Add);
    var s4 := Next(s3, Check(b));
    var states := [EMPTY, s1, s2, s3, s4, Next(s4, Remove(a.id))];
    StuckExactly(states[5]);
    assert IsRun(states, [Check(a), Insert, Add, Check(b), Remove(a.id)]);
  }

  /** Two steps of an allocate and a status call get stuck. */
  lemma StuckByStatus(a: Record)
    requires a.tb <= MAX_PER_AGENT_TB
    ensures exists states: seq<State> :: IsRun(states, [Check(a), BeginStatus]) && Stuck(states[2])
  {
    var s1 := Next(EMPTY, Check(a));
    var states := [EMPTY, s1, Next(s1, BeginStatus)];
    StuckExactly(states[2]);
    assert IsRun(states, [Check(a), BeginStatus]);
  }
}
