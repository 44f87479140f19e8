/**
 The controller of a check queue (`CCheckQueueControl`): its destructor waits unless `Wait` was called before. What it
 guarantees is stated over all runs of the queue in which the master makes certain calls.
 */
module CheckQueueControl {
  import opened CheckQueue

  /** A call of the master. */
  datatype Op = Add(checks: seq<Check>) | Wait

  // ---------- The controller ----------

  /** Its own field, `fDone`. */
  datatype Control = Control(done: bool)

  function Called(c: Control, op: Op): Control {
    match op
    case Add(_) => c
    case Wait => Control(true)
  }

  /** After construction and the given calls. */
  function Used(ops: seq<Op>): Control {
    if ops == [] then Control(false) else Called(Used(ops[..|ops| - 1]), ops[|ops| - 1])
  }

  /** What the destructor calls. */
  function Destructor(c: Control): seq<Op> {
    if c.done then [] else [Wait]
  }

  /** All calls that reach the queue from construction to destruction. */
  function Life(ops: seq<Op>): seq<Op> {
    ops + Destructor(Used(ops))
  }

  lemma {:induction false} UsedIs(ops: seq<Op>)
    ensures Used(ops).done <==> Wait in ops
  {
    if ops != [] {
      var n := |ops| - 1;
      UsedIs(ops[..n]);
      assert ops == ops[..n] + [ops[n]];
    }
  }

  // ---------- What the master did in a run ----------

  /** The k-th step is a return of `Wait`. */
  ghost predicate Returns(states: seq<System>, steps: seq<Step>, k: nat)
    requires k < |steps| && |states| == |steps| + 1
  {
    HasSection(steps[k]) && steps[k].i == 0 && |states[k + 1].threads| > 0 && states[k + 1].threads[0].Outside?
  }

  /** The master's calls that were completed within the first k steps. */
  ghost function Calls(states: seq<System>, steps: seq<Step>, k: nat): seq<Op>
    requires k <= |steps| && |states| == |steps| + 1
  {
    if k == 0 then [] else
      Calls(states, steps, k - 1) +
      if steps[k - 1].AddChecks? then [Add(steps[k - 1].checks)]
      else if Returns(states, steps, k - 1) then [Wait]
      else []
  }

  /** The checks added since the last `Wait`. */
  function Pending(ops: seq<Op>): multiset<Check> {
    if ops == [] then multiset{} else
      match ops[|ops| - 1]
      case Add(checks) => Pending(ops[..|ops| - 1]) + multiset(checks)
      case Wait => multiset{}
  }

  lemma PendingAdd(ops: seq<Op>, checks: seq<Check>)
    ensures Pending(ops + [Add(checks)]) == Pending(ops) + multiset(checks)
  {
    assert (ops + [Add(checks)])[..|ops|] == ops;
  }

  lemma PendingWait(ops: seq<Op>)
    ensures Pending(ops + [Wait]) == multiset{}
  {
    assert (ops + [Wait])[|ops|] == Wait;
  }

  lemma RunLength(states: seq<System>, steps: seq<Step>, workers: nat, batchSize: nat)
    requires IsRun(states, steps, workers, batchSize)
    ensures |states| == |steps| + 1
  {
  }

  lemma StartsEmpty(states: seq<System>, steps: seq<Step>, workers: nat, batchSize: nat)
    requires IsRun(states, steps, workers, batchSize)
    ensures |states| > 0 && states[0].added == Pending([])
  {
  }

  lemma StepAdds(y: System, step: Step, batchSize: nat)
    requires Inv(y) && Enabled(y, step)
    ensures Sane(y, step)
    ensures
      var z := Next(y, step, batchSize);
      && |z.threads| == |y.threads| > 0
      && z.added ==
         if step.AddChecks? then y.added + multiset(step.checks)
         else if HasSection(step) && step.i == 0 && z.threads[0].Outside? then multiset{}
         else y.added
  {
    StepInv(y, step, batchSize);
  }

  /** The history in the state is what the calls left pending. */
  lemma {:induction false} AddedIsPending(states: seq<System>, steps: seq<Step>, workers: nat, batchSize: nat, k: nat)
    requires IsRun(states, steps, workers, batchSize) && |states| == |steps| + 1 && k < |states|
    ensures states[k].added == Pending(Calls(states, steps, k))
  {
    hide Inv, Next, Enabled, Sane, IsRun, Pending;
    RunLength(states, steps, workers, batchSize);
    if k == 0 {
      StartsEmpty(states, steps, workers, batchSize);
    } else {
      AddedIsPending(states, steps, workers, batchSize, k - 1);
      RunInv(states, steps, workers, batchSize, k - 1);
      RunStep(states, steps, workers, batchSize, k - 1);
      StepAdds(states[k - 1], steps[k - 1], batchSize);
      var before := Calls(states, steps, k - 1);
      if steps[k - 1].AddChecks? {
        PendingAdd(before, steps[k - 1].checks);
      } else if Returns(states, steps, k - 1) {
        PendingWait(before);
      } else {
        assert before + [] == before;
      }
    }
  }

  lemma RunStep(states: seq<System>, steps: seq<Step>, workers: nat, batchSize: nat, k: nat)
    requires IsRun(states, steps, workers, batchSize) && k < |steps|
    ensures Inv(states[k]) && Enabled(states[k], steps[k]) && Sane(states[k], steps[k])
    ensures states[k + 1] == Next(states[k], steps[k], batchSize)
  {
    hide Inv, Next;
    RunInv(states, steps, workers, batchSize, k);
    StepInv(states[k], steps[k], batchSize);
  }

  // ---------- Runs for given calls ----------

  /** The run ends with the master outside `Wait`, having made these calls. */
  ghost predicate Performs(states: seq<System>, steps: seq<Step>, workers: nat, batchSize: nat, ops: seq<Op>) {
    && IsRun(states, steps, workers, batchSize)
    && |states[|steps|].threads| > 0 && states[|steps|].threads[0].Outside?
    && Calls(states, steps, |steps|) == ops
  }

  lemma {:induction false} CallsOfPrefix(states: seq<System>, steps: seq<Step>, z: System, step: Step, k: nat)
    requires |states| == |steps| + 1 && k <= |steps|
    ensures Calls(states + [z], steps + [step], k) == Calls(states, steps, k)
  {
    if k > 0 {
      CallsOfPrefix(states, steps, z, step, k - 1);
    }
  }

  /** One more step of a run. */
  lemma Extend(states: seq<System>, steps: seq<Step>, workers: nat, batchSize: nat, step: Step)
    returns (states': seq<System>, steps': seq<Step>)
    requires IsRun(states, steps, workers, batchSize) && Enabled(states[|steps|], step)
    ensures Sane(states[|steps|], step)
    ensures steps' == steps + [step] && states' == states + [Next(states[|steps|], step, batchSize)]
    ensures IsRun(states', steps', workers, batchSize) && Inv(states[|steps|]) && Inv(states'[|steps'|])
    ensures |states'[|steps'|].threads| > 0
    ensures Calls(states', steps', |steps'|) ==
            Calls(states, steps, |steps|) +
            if step.AddChecks? then [Add(step.checks)]
            else if HasSection(step) && step.i == 0 && states'[|steps'|].threads[0].Outside? then [Wait]
            else []
  {
    hide Inv, Next, Enabled, Sane;
    var y := states[|steps|];
    RunInv(states, steps, workers, batchSize, |steps|);
    StepInv(y, step, batchSize);
    InvHasMaster(Next(y, step, batchSize));
    var z := Next(y, step, batchSize);
    states', steps' := states + [z], steps + [step];
    CallsOfPrefix(states, steps, z, step, |steps|);
    assert steps'[|steps|] == step && states'[|steps| + 1] == z;
  }

  lemma InvHasMaster(y: System)
    requires Inv(y)
    ensures |y.threads| > 0
  {
  }

  /** From any state inside `Wait` some continuation returns: driven steps are always there, and run out. */
  lemma {:induction false} Finish(states: seq<System>, steps: seq<Step>, workers: nat, batchSize: nat)
    returns (states': seq<System>, steps': seq<Step>)
    requires IsRun(states, steps, workers, batchSize)
    requires |states[|steps|].threads| > 0 && !states[|steps|].threads[0].Outside?
    ensures Performs(states', steps', workers, batchSize, Calls(states, steps, |steps|) + [Wait])
    ensures states'[|steps'|].shared.nTodo == 0
    decreases Effort(states[|steps|])
  {
    hide Inv, Next, Enabled, Sane, Effort, Calls;
    var y := states[|steps|];
    RunInv(states, steps, workers, batchSize, |steps|);
    NoDeadlock(states, steps, workers, batchSize, |steps|);
    var step :| Driven(y, step);
    EffortDecreases(y, step, batchSize);
    states', steps' := Extend(states, steps, workers, batchSize, step);
    if states'[|steps'|].threads[0].Outside? {
      ReturnedBy(states, steps, workers, batchSize, step, states', steps');
    } else {
      var calls := Calls(states, steps, |steps|);
      assert calls + [] == calls;
      StillInside(y, step, batchSize);
      states', steps' := Finish(states', steps', workers, batchSize);
    }
  }

  lemma StillInside(y: System, step: Step, batchSize: nat)
    requires Driven(y, step)
    ensures !step.AddChecks?
  {
  }

  /** A step after which the master is outside again was its own, and left nothing to do. */
  lemma ReturnedBy(states: seq<System>, steps: seq<Step>, workers: nat, batchSize: nat, step: Step,
                   states': seq<System>, steps': seq<Step>)
    requires IsRun(states, steps, workers, batchSize) && IsRun(states', steps', workers, batchSize)
    requires steps' == steps + [step] && |states'| == |states| + 1 && states'[..|states|] == states
    requires |states[|steps|].threads| > 0 && !states[|steps|].threads[0].Outside? && !step.AddChecks?
    requires |states'[|steps'|].threads| > 0 && states'[|steps'|].threads[0].Outside?
    ensures HasSection(step) && step.i == 0 && states'[|steps'|].shared.nTodo == 0
  {
    var k := |steps|;
    assert steps'[k] == step && states'[k] == states'[..|states|][k] == states[k];
    RunStep(states', steps', workers, batchSize, k);
    OwnStep(states'[k], step, batchSize);
    WaitIsRight(states', steps', workers, batchSize, k);
  }

  lemma OwnStep(y: System, step: Step, batchSize: nat)
    requires Enabled(y, step) && Sane(y, step) && |y.threads| > 0 && !y.threads[0].Outside? && !step.AddChecks?
    requires |Next(y, step, batchSize).threads| > 0 && Next(y, step, batchSize).threads[0].Outside?
    ensures HasSection(step) && step.i == 0 && Section(y, step, batchSize).1.Returned?
  {
  }

  /** For all calls there is a run in which the master makes them, and after the last `Wait` nobody else does
      anything. */
  lemma {:induction false} SomeRun(ops: seq<Op>, workers: nat, batchSize: nat)
    returns (states: seq<System>, steps: seq<Step>)
    ensures Performs(states, steps, workers, batchSize, ops)
    ensures states[|steps|].shared.nTodo == |Pending(ops)|
    decreases |ops|
  {
    hide Inv, Enabled, Sane, Calls;
    if ops == [] {
      states, steps := FreshRun(workers, batchSize);
    } else {
      var n := |ops| - 1;
      assert ops == ops[..n] + [ops[n]];
      states, steps := SomeRun(ops[..n], workers, batchSize);
      match ops[n] {
        case Add(checks) =>
          PendingAdd(ops[..n], checks);
          states, steps := AddRun(states, steps, workers, batchSize, ops[..n], checks);
        case Wait =>
          states, steps := WaitRun(states, steps, workers, batchSize, ops[..n]);
      }
    }
  }

  lemma FreshRun(workers: nat, batchSize: nat) returns (states: seq<System>, steps: seq<Step>)
    ensures Performs(states, steps, workers, batchSize, []) && states[|steps|].shared.nTodo == 0
  {
    states, steps := [Start(workers)], [];
  }

  lemma AddRun(states: seq<System>, steps: seq<Step>, workers: nat, batchSize: nat, ops: seq<Op>, checks: seq<Check>)
    returns (states': seq<System>, steps': seq<Step>)
    requires Performs(states, steps, workers, batchSize, ops)
    ensures Performs(states', steps', workers, batchSize, ops + [Add(checks)])
    ensures states'[|steps'|].shared.nTodo == states[|steps|].shared.nTodo + |checks|
  {
    hide Inv, Calls;
    states', steps' := Extend(states, steps, workers, batchSize, AddChecks(checks, 0));
  }

  lemma WaitRun(states: seq<System>, steps: seq<Step>, workers: nat, batchSize: nat, ops: seq<Op>)
    returns (states': seq<System>, steps': seq<Step>)
    requires Performs(states, steps, workers, batchSize, ops)
    ensures Performs(states', steps', workers, batchSize, ops + [Wait]) && states'[|steps'|].shared.nTodo == 0
  {
    hide Inv, Calls, Next, Sane;
    states', steps' := Extend(states, steps, workers, batchSize, Enter(0));
    if states'[|steps'|].threads[0].Outside? {
      EnteredAndLeft(states', steps', workers, batchSize);
    } else {
      assert ops + [] == ops;
      states', steps' := Finish(states', steps', workers, batchSize);
    }
  }

  lemma EnteredAndLeft(states: seq<System>, steps: seq<Step>, workers: nat, batchSize: nat)
    requires IsRun(states, steps, workers, batchSize) && |steps| > 0 && steps[|steps| - 1] == Enter(0)
    requires |states[|steps|].threads| > 0 && states[|steps|].threads[0].Outside?
    ensures states[|steps|].shared.nTodo == 0
  {
    var k := |steps| - 1;
    RunStep(states, steps, workers, batchSize, k);
    WaitIsRight(states, steps, workers, batchSize, k);
  }

  // ---------- What the controller guarantees ----------

  /** In every run in which the master makes these calls, `IsIdle` holds at the end: a controller can be constructed. */
  ghost predicate AlwaysIdle(ops: seq<Op>, workers: nat, batchSize: nat) {
    forall states: seq<System>, steps: seq<Step> ::
          Performs(states, steps, workers, batchSize, ops) ==> states[|steps|].shared.Idle()
  }

  /** That is so exactly if nothing is pending. */
  lemma IdleIff(ops: seq<Op>, workers: nat, batchSize: nat)
    ensures AlwaysIdle(ops, workers, batchSize) <==> Pending(ops) == multiset{}
  {
    hide Inv, Calls;
    forall states: seq<System>, steps: seq<Step> | Performs(states, steps, workers, batchSize,
                                                            ops) && Pending(ops) == multiset{}
      ensures states[|steps|].shared.Idle()
    {
      RunInv(states, steps, workers, batchSize, |steps|);
      AddedIsPending(states, steps, workers, batchSize, |steps|);
      IdleWhenNothingAdded(states[|steps|]);
    }
    var states, steps := SomeRun(ops, workers, batchSize);
  }

  /** A non-empty `Add` without a later `Wait`. */
  predicate Outstanding(ops: seq<Op>, j: nat) {
    j < |ops| && ops[j].Add? && ops[j].checks != [] && forall k | j < k < |ops| :: !ops[k].Wait?
  }

  lemma {:induction false} PendingIff(ops: seq<Op>)
    ensures Pending(ops) != multiset{} <==> exists j: nat :: Outstanding(ops, j)
  {
    if ops != [] {
      var n := |ops| - 1;
      PendingIff(ops[..n]);
      match ops[n] {
        case Wait =>
          assert forall j: nat | Outstanding(ops, j) :: j == n || ops[n].Wait?;
        case Add(checks) =>
          if checks != [] {
            assert checks[0] in multiset(checks) && Outstanding(ops, n);
          } else {
            assert ops == ops[..n] + [Add([])];
            SameOutstanding(ops, ops[..n]);
          }
      }
    }
  }

  lemma SameOutstanding(ops: seq<Op>, rest: seq<Op>)
    requires ops == rest + [Add([])]
    ensures (exists j: nat :: Outstanding(ops, j)) <==> exists j: nat :: Outstanding(rest, j)
  {
    forall j: nat
      ensures Outstanding(ops, j) <==> Outstanding(rest, j)
    {
      if j < |rest| {
        assert forall k | j < k < |rest| :: rest[k] == ops[k];
      }
    }
  }

  /** The calls on one controller that it does not wait for: a non-empty `Add` after the last of some `Wait`s. */
  predicate Late(use: seq<Op>) {
    exists i: nat, j: nat :: i < j < |use| && use[i].Wait? && Outstanding(use, j)
  }

  lemma LifeIff(before: seq<Op>, use: seq<Op>)
    ensures Pending(before + Life(use)) == multiset{} <==> !Late(use)
  {
    var ops := before + Life(use);
    PendingIff(ops);
    UsedIs(use);
    if Late(use) {
      var i: nat, j: nat :| i < j < |use| && use[i].Wait? && Outstanding(use, j);
      assert Life(use) == use;
      var j' := |before| + j;
      assert ops[j'] == use[j] && forall k | j' < k < |ops| :: ops[k] == use[k - |before|];
      assert Outstanding(ops, j');
    }
    forall j: nat | Outstanding(ops, j)
      ensures Late(use)
    {
      LateBecause(before, use, j);
    }
  }

  lemma EndsWithWait(before: seq<Op>, use: seq<Op>)
    ensures Wait in use || (before + Life(use) != [] && (before + Life(use))[|before + Life(use)| - 1] == Wait)
  {
    UsedIs(use);
  }

  lemma LateBecause(before: seq<Op>, use: seq<Op>, j: nat)
    requires Outstanding(before + Life(use), j)
    ensures Late(use)
  {
    var ops := before + Life(use);
    EndsWithWait(before, use);
    var i: nat :| i < |use| && use[i] == Wait;
    assert ops[|before| + i] == Wait;
    var j' := j - |before|;
    assert ops[j] == use[j'] && forall k | j' < k < |use| :: use[k] == ops[|before| + k];
    assert Outstanding(use, j');
  }

  /** Whatever happened before, after the life of a controller the next one can be constructed, in every run, if and
      only if no non-empty `Add` came after its last `Wait`. */
  lemma ControllerIff(before: seq<Op>, use: seq<Op>, workers: nat, batchSize: nat)
    ensures AlwaysIdle(before + Life(use), workers, batchSize) <==> !Late(use)
  {
    hide AlwaysIdle, Late, Life;
    IdleIff(before + Life(use), workers, batchSize);
    LifeIff(before, use);
  }

  /** Adding a check after `Wait` is enough to break it. */
  lemma AddAfterWait(c: Check, workers: nat, batchSize: nat)
    ensures !AlwaysIdle(Life([Wait, Add([c])]), workers, batchSize)
  {
    hide AlwaysIdle, Life;
    var use := [Wait, Add([c])];
    assert use[0].Wait? && Outstanding(use, 1);
    ControllerIff([], use, workers, batchSize);
    assert [] + Life(use) == Life(use);
  }
}
