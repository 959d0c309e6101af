/**
 The memory allocation service (src/grpc/allocation.rs): live allocation records behind one lock and
 a running total per agent behind another. A call takes the locks at different moments, so the two
 maps disagree while calls are in flight; the ledger says by exactly how much.
 */
module AllocationLedger {
  import opened MachineIntegers
  import opened MapSums
  import opened NumberTheory
  import opened Wrappers

  const MAX_PER_AGENT_TB := 1000
  const DEFAULT_DURATION_MS := 24 * 60 * 60 * 1000

  datatype Record = Record(id: string, agent: string, tb: u64, purpose: string, node: string,
                           createdAtMs: s64, expiresAtMs: s64)

  /** A record's share in an agent's sum. */
  function Share(r: Record, agent: string): nat {
    if r.agent == agent then r.tb else 0
  }

  ghost function ShareOf(agent: string): Record -> nat {
    r => Share(r, agent)
  }

  /** The terabytes of all live records of an agent. */
  ghost function AgentSum(records: map<string, Record>, agent: string): nat {
    SumOf(records, ShareOf(agent))
  }

  // ----- the lock steps -----

  /** The allocate call that holds the totals lock, if any. */
  datatype Allocator = NoAllocator | Checked(record: Record) | Inserted(added: Record)

  /** The free call that holds the records lock after removing a record, if any. */
  datatype Freer = NoFreer | Removed(record: Record)

  /** Status calls share the records lock; waiting counts those that hold it and want the totals. */
  datatype State = State(records: map<string, Record>, totals: map<string, u64>, allocator: Allocator, freer: Freer,
                         waiting: nat) {
    /** No call is in flight. */
    predicate Quiet() {
      allocator.NoAllocator? && freer.NoFreer? && waiting == 0
    }
  }

  /** Between two steps of one call, other calls may take any step whose lock is free. */
  datatype Step =
    | Check(record: Record) // take the totals lock; on refusal release it at once
    | Insert // briefly take the records lock
    | Add // raise the total, release the totals lock
    | Remove(id: string) // take the records lock; if there is no such record release it at once
    | Subtract // briefly take the totals lock, release both
    | BeginStatus // share the records lock
    | FinishStatus // share the totals lock, read both maps, release both

  function Total(totals: map<string, u64>, agent: string): u64 {
    if agent in totals then totals[agent] else 0
  }

  /** What is left of a, and nothing if b is more. */
  function SaturatingSub(a: u64, b: u64): (left: u64)
    ensures left + b >= a && (left > 0 ==> left + b == a)
  {
    if a < b then 0 else a - b
  }

  /** The code's test, with its wrapping sum. */
  predicate Fits(totals: map<string, u64>, agent: string, tb: u64) {
    Wrap64(Total(totals, agent) + tb) <= MAX_PER_AGENT_TB
  }

  /** Which steps the locks allow; the identifier of a request that asks for a record is fresh. */
  predicate Enabled(s: State, step: Step) {
    match step
    case Check(r) => s.allocator.NoAllocator? && r.id !in s.records
    case Insert => s.allocator.Checked? && s.freer.NoFreer? && s.waiting == 0
    case Add => s.allocator.Inserted?
    case Remove(_) => s.freer.NoFreer? && s.waiting == 0
    case Subtract => s.freer.Removed? && s.allocator.NoAllocator?
    case BeginStatus => s.freer.NoFreer?
    case FinishStatus => s.waiting > 0 && s.allocator.NoAllocator?
  }

  function Next(s: State, step: Step): State
    requires Enabled(s, step)
  {
    match step
    case Check(r) => if Fits(s.totals, r.agent, r.tb) then s.(allocator := Checked(r)) else s
    case Insert =>
      var r := s.allocator.record;
      s.(records := s.records[r.id := r], allocator := Inserted(r))
    case Add =>
      var r := s.allocator.added;
      s.(totals := s.totals[r.agent := Wrap64(Total(s.totals, r.agent) + r.tb)], allocator := NoAllocator)
    case Remove(id) =>
      if id in s.records then s.(records := s.records - {id}, freer := Removed(s.records[id])) else s
    case Subtract =>
      var r := s.freer.record;
      if r.agent in s.totals then
        s.(totals := s.totals[r.agent := SaturatingSub(s.totals[r.agent], r.tb)], freer := NoFreer)
      else s.(freer := NoFreer)
    case BeginStatus => s.(waiting := s.waiting + 1)
    case FinishStatus => s.(waiting := s.waiting - 1)
  }

  const EMPTY := State(map[], map[], NoAllocator, NoFreer, 0)

  /** The states after each number of steps. */
  ghost predicate IsRun(states: seq<State>, steps: seq<Step>) {
    && |states| == |steps| + 1 && states[0] == EMPTY
    && forall i | 0 <= i < |steps| :: Enabled(states[i], steps[i]) && states[i + 1] == Next(states[i], steps[i])
  }

  // ----- the ledger -----

  /** Inserted into the records but not yet added to the total. */
  ghost function NotYetAdded(s: State, agent: string): nat {
    if s.allocator.Inserted? then Share(s.allocator.added, agent) else 0
  }

  /** Removed from the records but not yet subtracted from the total. */
  ghost function NotYetSubtracted(s: State, agent: string): nat {
    if s.freer.Removed? then Share(s.freer.record, agent) else 0
  }

  ghost predicate Balanced(s: State, agent: string) {
    Total(s.totals, agent) + NotYetAdded(s, agent) == AgentSum(s.records, agent) + NotYetSubtracted(s, agent)
  }

  /** An agent with a record has a total, or the call that will create it holds the totals lock. */
  ghost predicate Known(s: State, agent: string) {
    agent in s.totals || (s.allocator.Inserted? && s.allocator.added.agent == agent)
  }

  ghost predicate Ledger(s: State) {
    && (forall agent :: Balanced(s, agent))
    && (forall agent :: Total(s.totals, agent) <= MAX_PER_AGENT_TB)
    && (forall id | id in s.records :: s.records[id].id == id && Known(s, s.records[id].agent))
    && (s.freer.Removed? ==> Known(s, s.freer.record.agent) && s.waiting == 0)
    && (s.allocator.Checked? ==> s.allocator.record.id !in s.records)
    && PendingFits(s)
  }

  /** What the allocate call in flight was accepted for still passes the test. */
  predicate PendingFits(s: State) {
    match s.allocator
    case NoAllocator => true
    case Checked(r) => Fits(s.totals, r.agent, r.tb)
    case Inserted(r) => Fits(s.totals, r.agent, r.tb)
  }

  /** The 64-bit sum of the agent's total and the request wraps. */
  predicate Wraps(totals: map<string, u64>, r: Record) {
    Total(totals, r.agent) + r.tb >= TWO_64
  }

  lemma WrapsByOne(totals: map<string, u64>, r: Record)
    ensures Wrap64(Total(totals, r.agent) + r.tb) ==
            Total(totals, r.agent) + r.tb - if Wraps(totals, r) then TWO_64 else 0
  {
    var sum := Total(totals, r.agent) + r.tb;
    if Wraps(totals, r) {
      ModOfMultiple(sum - TWO_64, 1, TWO_64);
      Wrap64Small(sum - TWO_64);
    } else {
      Wrap64Small(sum);
    }
  }

  /** A step that adds to a total with a sum that wraps. */
  predicate AddWraps(s: State, step: Step) {
    step.Add? && s.allocator.Inserted? && Wraps(s.totals, s.allocator.added)
  }

  /** A request that passes the test although its sum wraps. */
  predicate Misjudged(s: State, r: Record) {
    Fits(s.totals, r.agent, r.tb) && Wraps(s.totals, r)
  }

  lemma InsertBalanced(s: State, agent: string)
    requires Balanced(s, agent) && Enabled(s, Insert) && s.allocator.record.id !in s.records
    ensures Balanced(Next(s, Insert), agent)
  {
    hide SumOf;
    SumAfterInsert(s.records, s.allocator.record.id, s.allocator.record, ShareOf(agent));
  }

  lemma RemoveBalanced(s: State, id: string, agent: string)
    requires Balanced(s, agent) && Enabled(s, Remove(id))
    ensures Balanced(Next(s, Remove(id)), agent)
  {
    hide SumOf;
    if id in s.records {
      SumAfterRemove(s.records, id, ShareOf(agent));
    }
  }

  lemma SubtractBalanced(s: State, agent: string)
    requires Balanced(s, agent) && Enabled(s, Subtract)
    requires Balanced(s, s.freer.record.agent) && Known(s, s.freer.record.agent)
    ensures Balanced(Next(s, Subtract), agent)
  {
    hide AgentSum;
  }

  lemma AddBalanced(s: State, agent: string)
    requires Balanced(s, agent) && Enabled(s, Add)
    ensures Balanced(Next(s, Add), agent) <==> agent != s.allocator.added.agent || !AddWraps(s, Add)
  {
    hide AgentSum;
    WrapsByOne(s.totals, s.allocator.added);
  }

  lemma StepBalanced(s: State, step: Step, agent: string)
    requires Ledger(s) && Enabled(s, step) && !AddWraps(s, step)
    ensures Balanced(Next(s, step), agent)
  {
    hide AgentSum;
    assert Balanced(s, agent);
    match step
    case Insert => InsertBalanced(s, agent);
    case Add => AddBalanced(s, agent);
    case Remove(id) => RemoveBalanced(s, id, agent);
    case Subtract =>
      assert Balanced(s, s.freer.record.agent);
      SubtractBalanced(s, agent);
    case _ =>
  }

  /** The test alone bounds every total, whether sums wrap or not. */
  lemma StepBounded(s: State, step: Step, agent: string)
    requires PendingFits(s) && Enabled(s, step)
    requires Total(s.totals, agent) <= MAX_PER_AGENT_TB
    ensures Total(Next(s, step).totals, agent) <= MAX_PER_AGENT_TB
  {
    hide Wrap64;
  }

  lemma StepFits(s: State, step: Step)
    requires PendingFits(s) && Enabled(s, step)
    ensures PendingFits(Next(s, step))
  {
    hide Wrap64;
  }

  /** A step that the locks allow keeps the ledger, exactly if it does not add with a sum that wraps. */
  lemma StepKeepsLedger(s: State, step: Step)
    requires Ledger(s) && Enabled(s, step)
    ensures Ledger(Next(s, step)) <==> !AddWraps(s, step)
  {
    hide Balanced, AgentSum, Fits, PendingFits, Wraps;
    if AddWraps(s, step) {
      assert Balanced(s, s.allocator.added.agent);
      AddBalanced(s, s.allocator.added.agent);
    } else {
      StepFits(s, step);
      forall agent
        ensures Balanced(Next(s, step), agent) && Total(Next(s, step).totals, agent) <= MAX_PER_AGENT_TB
      {
        StepBalanced(s, step, agent);
        assert Total(s.totals, agent) <= MAX_PER_AGENT_TB;
        StepBounded(s, step, agent);
      }
    }
  }

  // ----- every run -----

  lemma {:induction false} LedgerUpTo(states: seq<State>, steps: seq<Step>, i: nat)
    requires IsRun(states, steps) && i <= |steps|
    requires forall j | 0 <= j < i :: !AddWraps(states[j], steps[j])
    ensures Ledger(states[i])
  {
    if i > 0 {
      LedgerUpTo(states, steps, i - 1);
      StepKeepsLedger(states[i - 1], steps[i - 1]);
    }
  }

  /** From the empty service, the ledger holds at every moment of a run exactly if no addition wraps. */
  lemma LedgerIff(states: seq<State>, steps: seq<Step>)
    requires IsRun(states, steps)
    ensures (forall i | 0 <= i <= |steps| :: Ledger(states[i]))
            <==> forall j | 0 <= j < |steps| :: !AddWraps(states[j], steps[j])
  {
    hide Ledger, AddWraps, Next, Enabled;
    if forall i | 0 <= i <= |steps| :: Ledger(states[i]) {
      forall j | 0 <= j < |steps| ensures !AddWraps(states[j], steps[j]) {
        assert Ledger(states[j]) && Ledger(states[j + 1]);
        StepKeepsLedger(states[j], steps[j]);
      }
    }
    if forall j | 0 <= j < |steps| :: !AddWraps(states[j], steps[j]) {
      forall i | 0 <= i <= |steps| ensures Ledger(states[i]) {
        LedgerUpTo(states, steps, i);
      }
    }
  }

  function Pending(s: State): Record
    requires !s.allocator.NoAllocator?
  {
    if s.allocator.Checked? then s.allocator.record else s.allocator.added
  }

  /** Whatever else happens, an allocate call in flight sees the totals it was accepted with. */
  lemma {:induction false} PendingSince(states: seq<State>, steps: seq<Step>, j: nat) returns (i: nat)
    requires IsRun(states, steps) && j <= |steps| && !states[j].allocator.NoAllocator?
    ensures i < j && steps[i] == Check(Pending(states[j])) && states[i].totals == states[j].totals
    ensures Fits(states[i].totals, Pending(states[j]).agent, Pending(states[j]).tb)
  {
    hide Fits;
    assert Enabled(states[j - 1], steps[j - 1]) && states[j] == Next(states[j - 1], steps[j - 1]);
    if states[j - 1].allocator.NoAllocator? {
      i := j - 1;
    } else {
      i := PendingSince(states, steps, j - 1);
    }
  }

  /** In every run in which no request is misjudged, the ledger holds at every moment. */
  lemma LedgerAlways(states: seq<State>, steps: seq<Step>, i: nat)
    requires IsRun(states, steps) && i <= |steps|
    requires forall j | 0 <= j < |steps| && steps[j].Check? :: !Misjudged(states[j], steps[j].record)
    ensures Ledger(states[i])
  {
    forall j | 0 <= j < i ensures !AddWraps(states[j], steps[j]) {
      if AddWraps(states[j], steps[j]) {
        var k := PendingSince(states, steps, j);
        assert Misjudged(states[k], steps[k].record);
      }
    }
    LedgerUpTo(states, steps, i);
  }

  /** No total is above the limit, and none is above what the ledger asks for. */
  ghost predicate Understated(s: State) {
    && PendingFits(s)
    && (s.allocator.Checked? ==> s.allocator.record.id !in s.records)
    && forall agent ::
         && Total(s.totals, agent) <= MAX_PER_AGENT_TB
         && Total(s.totals, agent) + NotYetAdded(s, agent) <= AgentSum(s.records, agent) + NotYetSubtracted(s, agent)
  }

  lemma StepUnderstates(s: State, step: Step, agent: string)
    requires Understated(s) && Enabled(s, step)
    ensures var s' := Next(s, step);
            Total(s'.totals, agent) + NotYetAdded(s', agent) <=
            AgentSum(s'.records, agent) + NotYetSubtracted(s', agent)
  {
    hide SumOf, Wrap64;
    assert Total(s.totals, agent) + NotYetAdded(s, agent) <= AgentSum(s.records, agent) + NotYetSubtracted(s, agent);
    match step
    case Insert =>
      SumAfterInsert(s.records, s.allocator.record.id, s.allocator.record, ShareOf(agent));
    case Add =>
      WrapsByOne(s.totals, s.allocator.added);
    case Remove(id) =>
      if id in s.records {
        SumAfterRemove(s.records, id, ShareOf(agent));
      }
    case _ =>
  }

  lemma StepKeepsUnderstated(s: State, step: Step)
    requires Understated(s) && Enabled(s, step)
    ensures Understated(Next(s, step))
  {
    var s' := Next(s, step);
    StepFits(s, step);
    assert s'.allocator.Checked? ==> s'.allocator.record.id !in s'.records;
    hide Next, Enabled, Total, NotYetAdded, NotYetSubtracted, AgentSum, PendingFits;
    forall agent
      ensures Total(s'.totals, agent) <= MAX_PER_AGENT_TB
      ensures Total(s'.totals, agent) + NotYetAdded(s', agent) <=
              AgentSum(s'.records, agent) + NotYetSubtracted(s', agent)
    {
      StepUnderstates(s, step, agent);
      StepBounded(s, step, agent);
    }
  }

  /** In every run, misjudged requests included, totals only understate and never exceed the limit. */
  lemma {:induction false} NeverOverstated(states: seq<State>, steps: seq<Step>, i: nat)
    requires IsRun(states, steps) && i <= |steps|
    ensures Understated(states[i])
  {
    if i > 0 {
      NeverOverstated(states, steps, i - 1);
      hide Understated;
      StepKeepsUnderstated(states[i - 1], steps[i - 1]);
    }
  }

  // ----- what the ledger gives -----

  /** When no allocate or free is in flight, every agent's total is the sum of its live records. */
  lemma QuiescentTotals(s: State, agent: string)
    requires Ledger(s) && s.allocator.NoAllocator? && s.freer.NoFreer?
    ensures Total(s.totals, agent) == AgentSum(s.records, agent) <= MAX_PER_AGENT_TB
  {
    assert Balanced(s, agent);
  }

  /** A status call reads the maps at such a moment, whatever else is in flight. */
  lemma StatusSeesTotals(s: State, agent: string)
    requires Ledger(s) && Enabled(s, FinishStatus)
    ensures Total(s.totals, agent) == AgentSum(s.records, agent) <= MAX_PER_AGENT_TB
  {
    QuiescentTotals(s, agent);
  }

  /** Subtraction finds the agent and never saturates. */
  lemma SubtractionExact(s: State)
    requires Ledger(s) && Enabled(s, Subtract)
    ensures var r := s.freer.record;
            r.agent in s.totals && s.totals[r.agent] >= r.tb
            && Next(s, Subtract).totals[r.agent] == s.totals[r.agent] - r.tb
  {
    assert Balanced(s, s.freer.record.agent);
  }

  // ----- who is granted -----

  /** What is granted, from the agent's total: within the quota of 1000, or so large that the sum wraps into it. */
  lemma GrantedFromTotal(s: State, r: Record)
    requires Enabled(s, Check(r)) && Total(s.totals, r.agent) <= 1000
    ensures Next(s, Check(r)).allocator == Checked(r) <==>
            var sum := Total(s.totals, r.agent) + r.tb;
            sum <= 1000 || 0x1_0000_0000_0000_0000 <= sum <= 0x1_0000_0000_0000_0000 + 1000
  {
    WrapsByOne(s.totals, r);
    hide Wrap64;
  }

  /** In every run a request whose sum does not wrap is granted exactly if it fits the quota of 1000 TB. */
  lemma GrantedInRuns(states: seq<State>, steps: seq<Step>, i: nat, r: Record)
    requires IsRun(states, steps) && i < |steps| && steps[i] == Check(r)
    requires Total(states[i].totals, r.agent) + r.tb < 0x1_0000_0000_0000_0000
    ensures states[i + 1].allocator == Checked(r) <==> Total(states[i].totals, r.agent) + r.tb <= 1000
    ensures states[i + 1].allocator != Checked(r) ==> states[i + 1] == states[i]
  {
    NeverOverstated(states, steps, i);
    hide AgentSum;
    assert Enabled(states[i], steps[i]) && states[i + 1] == Next(states[i], steps[i]);
    assert Total(states[i].totals, r.agent) <= MAX_PER_AGENT_TB;
    GrantedFromTotal(states[i], r);
  }

  // ----- the service -----

  /** One call after another: the steps of a call, with no other call in between. */
  function Allocated(s: State, r: Record): State
    requires s.Quiet() && r.id !in s.records
  {
    var checked := Next(s, Check(r));
    if checked.allocator.Checked? then Next(Next(checked, Insert), Add) else checked
  }

  function Freed(s: State, id: string): State
    requires s.Quiet()
  {
    var removed := Next(s, Remove(id));
    if removed.freer.Removed? then Next(removed, Subtract) else removed
  }

  /** What an accepted request does to the two maps. */
  lemma AllocatedMaps(s: State, r: Record)
    requires s.Quiet() && r.id !in s.records && Fits(s.totals, r.agent, r.tb)
    ensures Allocated(s, r) == s.(records := s.records[r.id := r],
                                  totals := s.totals[r.agent := Wrap64(Total(s.totals, r.agent) + r.tb)])
  {
    hide Fits, Wrap64;
  }

  /** An undisturbed call leaves no lock held; a free keeps the ledger, an allocate unless it is misjudged. */
  lemma CallsKeepLedger(s: State, r: Record, id: string)
    requires Ledger(s) && s.Quiet() && r.id !in s.records
    ensures (Ledger(Allocated(s, r)) <==> !Misjudged(s, r)) && Allocated(s, r).Quiet()
    ensures Ledger(Freed(s, id)) && Freed(s, id).Quiet()
  {
    hide Ledger, Fits;
    StepKeepsLedger(s, Check(r));
    var checked := Next(s, Check(r));
    if checked.allocator.Checked? {
      StepKeepsLedger(checked, Insert);
      StepKeepsLedger(Next(checked, Insert), Add);
    }
    StepKeepsLedger(s, Remove(id));
    if Next(s, Remove(id)).freer.Removed? {
      StepKeepsLedger(Next(s, Remove(id)), Subtract);
    }
  }

  /** After an allocate the agent's total is the sum of its records, exactly unless it is misjudged: 2^64 is missing. */
  lemma AcceptanceKeepsBound(s: State, r: Record)
    requires Ledger(s) && s.Quiet() && r.id !in s.records
    ensures var t := Allocated(s, r);
            && Total(t.totals, r.agent) <= MAX_PER_AGENT_TB
            && (Balanced(t, r.agent) <==> !Misjudged(s, r))
            && AgentSum(t.records, r.agent) == Total(t.totals, r.agent) + if Misjudged(s, r) then TWO_64 else 0
  {
    hide SumOf, Wrap64;
    assert Balanced(s, r.agent) && Total(s.totals, r.agent) <= MAX_PER_AGENT_TB;
    SumAfterInsert(s.records, r.id, r, ShareOf(r.agent));
    WrapsByOne(s.totals, r);
  }

  lemma OneTerabyte(a: Record)
    requires a.tb == 1
    ensures var s := Allocated(EMPTY, a);
            Ledger(s) && s.Quiet() && Total(s.totals, a.agent) == 1 && s.records == map[a.id := a]
  {
    LedgerUpTo([EMPTY], [], 0);
    CallsKeepLedger(EMPTY, a, "");
    hide Ledger;
    Wrap64Small(1);
  }

  /** Two accepted requests, one after the other, are a run of six steps. */
  lemma RunOfTwo(a: Record, b: Record) returns (states: seq<State>)
    requires a.id != b.id && Fits(EMPTY.totals, a.agent, a.tb)
    requires Fits(Allocated(EMPTY, a).totals, b.agent, b.tb)
    ensures IsRun(states, [Check(a), Insert, Add, Check(b), Insert, Add])
    ensures states[6] == Allocated(Allocated(EMPTY, a), b)
  {
    hide Fits, Wrap64;
    var s1 := Next(EMPTY, Check(a));
    var s2 := Next(s1, Insert);
    var s3 := Next(s2, Add);
    var s4 := Next(s3, Check(b));
    var s5 := Next(s4, Insert);
    states := [EMPTY, s1, s2, s3, s4, s5, Next(s5, Add)];
  }

  /** It happens: an agent that holds 1 TB asks for 2^64 - 1, gets it, and then has a total of 0. */
  lemma MisjudgedHappens(a: Record, b: Record)
    requires a.id != b.id && a.agent == b.agent && a.tb == 1 && b.tb == TWO_64 - 1
    ensures exists states: seq<State> ::
              && IsRun(states, [Check(a), Insert, Add, Check(b), Insert, Add])
              && Total(states[6].totals, a.agent) == 0 && AgentSum(states[6].records, a.agent) == TWO_64
  {
    OneTerabyte(a);
    Wrap64Small(1);
    var s := Allocated(EMPTY, a);
    WrapsByOne(s.totals, b);
    var states := RunOfTwo(a, b);
    AcceptanceKeepsBound(s, b);
    hide Ledger, Wrap64, AgentSum, IsRun;
    assert Total(states[6].totals, a.agent) == 0;
  }

  /** Freeing an allocation gives back the records and all totals, exactly unless it was misjudged. */
  lemma FreeUndoesAllocate(s: State, r: Record, agent: string)
    requires Ledger(s) && s.Quiet() && r.id !in s.records
    ensures var freed := Freed(Allocated(s, r), r.id);
            && freed.records == s.records
            && (Total(freed.totals, agent) == Total(s.totals, agent) <==> agent != r.agent || !Misjudged(s, r))
  {
    assert Total(s.totals, r.agent) <= MAX_PER_AGENT_TB;
    hide Ledger, Wrap64;
    if Fits(s.totals, r.agent, r.tb) {
      AllocatedMaps(s, r);
      WrapsByOne(s.totals, r);
      hide Allocated;
      assert Allocated(s, r).records - {r.id} == s.records;
    } else {
      assert Allocated(s, r) == s;
    }
  }

  lemma FitsFromRecords(s: State, agent: string, tb: u64)
    ensures Ledger(s) && s.Quiet() && AgentSum(s.records, agent) + tb < TWO_64 ==>
              (Fits(s.totals, agent, tb) <==> AgentSum(s.records, agent) + tb <= 1000)
  {
    if Ledger(s) && s.Quiet() && AgentSum(s.records, agent) + tb < TWO_64 {
      QuiescentTotals(s, agent);
      Wrap64Small(Total(s.totals, agent) + tb);
    }
  }

  /** With nothing in flight the live records decide: what is granted is recorded, what is refused changes nothing. */
  lemma GrantedFromRecords(s: State, r: Record)
    requires Ledger(s) && s.Quiet() && r.id !in s.records
    requires AgentSum(s.records, r.agent) + r.tb < 0x1_0000_0000_0000_0000
    ensures if AgentSum(s.records, r.agent) + r.tb <= 1000 then Allocated(s, r).records == s.records[r.id := r]
            else Allocated(s, r) == s
  {
    QuiescentTotals(s, r.agent);
    GrantedFromTotal(s, r);
    hide AgentSum, Ledger, Wrap64;
    if Fits(s.totals, r.agent, r.tb) {
      AllocatedMaps(s, r);
    }
  }

  ghost predicate IsShareOf(records: map<string, Record>, agent: string, idFilter: string, r: Record) {
    r.id in records && records[r.id] == r && r.agent == agent && (idFilter == "" || r.id == idFilter)
  }

  /** The terabytes of a list of records. */
  ghost function Listed(infos: seq<Record>): nat {
    if infos == [] then 0 else Listed(infos[..|infos| - 1]) + infos[|infos| - 1].tb
  }

  class AllocationService {
    var allocations: map<string, Record>
    var agentAllocations: map<string, u64>

    ghost function Now(): State
      reads this
    {
      State(allocations, agentAllocations, NoAllocator, NoFreer, 0)
    }

    constructor ()
      ensures Now() == EMPTY
    {
      allocations := map[];
      agentAllocations := map[];
    }

    /** The identifier is the fresh UUID; the node's name comes from its first characters. */
    method AllocateMemory(id: string, agent: string, requestedTb: u64, durationMs: s64, purpose: string, nowMs: s64)
      returns (response: Option<Record>)
      requires id !in allocations && |id| >= 8
      modifies this
      ensures response.Some? <==> old(Fits(agentAllocations, agent, requestedTb))
      ensures old(Ledger(Now())) && old(AgentSum(allocations, agent)) + requestedTb < TWO_64 ==>
                (response.Some? <==> old(AgentSum(allocations, agent)) + requestedTb <= 1000)
      ensures response.None? ==> Now() == old(Now())
      ensures response.Some? ==>
                && response.value == Record(id, agent, requestedTb, purpose, "node-" + id[..8], nowMs,
                     WrapSigned(nowMs + if durationMs > 0 then durationMs else DEFAULT_DURATION_MS))
                && Now() == Allocated(old(Now()), response.value)
    {
      hide Wrap64, WrapSigned, Allocated, Ledger, AgentSum;
      ghost var before := Now();
      FitsFromRecords(before, agent, requestedTb);
      var currentAlloc: u64 := if agent in agentAllocations then agentAllocations[agent] else 0;
      if Wrap64(currentAlloc + requestedTb) > MAX_PER_AGENT_TB {
        return None;
      }
      var expiresAt := WrapSigned(if durationMs > 0 then nowMs + durationMs else nowMs + DEFAULT_DURATION_MS);
      var record := Record(id, agent, requestedTb, purpose, "node-" + id[..8], nowMs, expiresAt);
      AllocatedMaps(before, record);
      allocations := allocations[id := record];
      if agent !in agentAllocations {
        agentAllocations := agentAllocations[agent := 0];
      }
      agentAllocations := agentAllocations[agent := Wrap64(agentAllocations[agent] + requestedTb)];
      response := Some(record);
      assert agentAllocations == before.totals[agent := Wrap64(Total(before.totals, agent) + requestedTb)];
    }

    method FreeMemory(id: string) returns (freed: Option<u64>)
      modifies this
      ensures freed == old(if id in allocations then Some(allocations[id].tb) else None)
      ensures Now() == Freed(old(Now()), id) && allocations == old(allocations) - {id}
    {
      if id !in allocations {
        return None;
      }
      var record := allocations[id];
      allocations := allocations - {id};
      if record.agent in agentAllocations {
        agentAllocations := agentAllocations[record.agent := SaturatingSub(agentAllocations[record.agent], record.tb)];
      }
      freed := Some(record.tb);
    }

    /** An agent with the most room, if that is enough and not nothing. */
    method RouteMemoryRequest(requiredTb: u64) returns (best: Option<(string, u64)>)
      ensures best.Some? ==>
                && best.value.0 in agentAllocations
                && best.value.1 == SaturatingSub(MAX_PER_AGENT_TB, agentAllocations[best.value.0])
                && best.value.1 >= requiredTb && best.value.1 > 0
                && forall a | a in agentAllocations ::
                     SaturatingSub(MAX_PER_AGENT_TB, agentAllocations[a]) <= best.value.1
      ensures best.None? ==>
                forall a | a in agentAllocations ::
                  var room := SaturatingSub(MAX_PER_AGENT_TB, agentAllocations[a]); room < requiredTb || room == 0
    {
      best := None;
      var rest := agentAllocations.Keys;
      while rest != {}
        invariant rest <= agentAllocations.Keys
        invariant best.Some? ==>
                    && best.value.0 in agentAllocations
                    && best.value.1 == SaturatingSub(MAX_PER_AGENT_TB, agentAllocations[best.value.0])
                    && best.value.1 >= requiredTb && best.value.1 > 0
        invariant forall a | a in agentAllocations && a !in rest ::
                    var room := SaturatingSub(MAX_PER_AGENT_TB, agentAllocations[a]);
                    if best.Some? then room <= best.value.1 else room < requiredTb || room == 0
        decreases rest
      {
        var agent :| agent in rest;
        rest := rest - {agent};
        var available := SaturatingSub(MAX_PER_AGENT_TB, agentAllocations[agent]);
        var bestAvailable := if best.Some? then best.value.1 else 0;
        if available >= requiredTb && available > bestAvailable {
          best := Some((agent, available));
        }
      }
    }

    /** While the ledger holds the sum does not wrap; without a record filter it is the agent's total. */
    method GetAllocationStatus(agent: string, idFilter: string)
      returns (infos: seq<Record>, totalTb: u64, remainingTb: u64)
      requires forall id | id in allocations :: allocations[id].id == id
      ensures forall id | id in allocations ::
                allocations[id] in infos <==> allocations[id].agent == agent && (idFilter == "" || id == idFilter)
      ensures forall r | r in infos :: r.id in allocations && allocations[r.id] == r
      ensures forall i, j | 0 <= i < j < |infos| :: infos[i] != infos[j]
      ensures totalTb == Wrap64(Listed(infos))
      ensures idFilter == "" ==> Listed(infos) == AgentSum(allocations, agent)
      ensures Ledger(Now()) ==>
                && totalTb == Listed(infos) <= Total(agentAllocations, agent) <= MAX_PER_AGENT_TB
                && (idFilter == "" ==> totalTb == Total(agentAllocations, agent))
      ensures remainingTb == SaturatingSub(MAX_PER_AGENT_TB, totalTb)
    {
      hide SumOver, Reported, Ledger, Wrap64;
      infos, totalTb := [], 0;
      var rest := allocations.Keys;
      StartReport(allocations, agent, idFilter);
      Wrap64Small(0);
      while rest != {}
        invariant rest <= allocations.Keys && Reported(allocations, rest, agent, idFilter, infos)
        invariant totalTb == Wrap64(Listed(infos))
        invariant Listed(infos) + SumOver(allocations, rest, ShareOf(agent)) <= AgentSum(allocations, agent)
        invariant idFilter == "" ==>
                    Listed(infos) + SumOver(allocations, rest, ShareOf(agent)) == AgentSum(allocations, agent)
        decreases rest
      {
        var id :| id in rest;
        SumOverRemove(allocations, rest, id, ShareOf(agent));
        ReportOneMore(allocations, rest, id, agent, idFilter, infos);
        rest := rest - {id};
        var record := allocations[id];
        if record.agent == agent && (idFilter == "" || id == idFilter) {
          Wrap64Adds(Listed(infos), record.tb);
          totalTb := Wrap64(totalTb + record.tb);
          infos := infos + [record];
        }
      }
      if Ledger(Now()) {
        QuiescentTotals(Now(), agent);
        Wrap64Small(Listed(infos));
      }
      ReportedAll(allocations, agent, idFilter, infos);
      remainingTb := SaturatingSub(MAX_PER_AGENT_TB, totalTb);
    }
  }

  /** All matching records except those still to be looked at are listed, each once. */
  ghost predicate Reported(records: map<string, Record>, rest: set<string>, agent: string, idFilter: string,
                           infos: seq<Record>) {
    && (forall r :: r in infos <==> r.id !in rest && IsShareOf(records, agent, idFilter, r))
    && (forall i, j | 0 <= i < j < |infos| :: infos[i] != infos[j])
  }

  lemma ReportedAll(records: map<string, Record>, agent: string, idFilter: string, infos: seq<Record>)
    requires Reported(records, {}, agent, idFilter, infos) && forall id | id in records :: records[id].id == id
    ensures forall id | id in records ::
              records[id] in infos <==> records[id].agent == agent && (idFilter == "" || id == idFilter)
    ensures forall r | r in infos :: r.id in records && records[r.id] == r
    ensures forall i, j | 0 <= i < j < |infos| :: infos[i] != infos[j]
  {
  }

  lemma StartReport(records: map<string, Record>, agent: string, idFilter: string)
    ensures Reported(records, records.Keys, agent, idFilter, [])
  {
  }

  lemma ReportOneMore(records: map<string, Record>, rest: set<string>, id: string, agent: string, idFilter: string,
                      infos: seq<Record>)
    requires forall k | k in records :: records[k].id == k
    requires id in rest && rest <= records.Keys && Reported(records, rest, agent, idFilter, infos)
    ensures Reported(records, rest - {id}, agent, idFilter,
                     if IsShareOf(records, agent, idFilter, records[id]) then infos + [records[id]] else infos)
  {
    assert records[id] !in infos;
  }
}
