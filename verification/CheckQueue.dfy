/**
 The parallel check queue (`CCheckQueue`): one master and any number of workers around a mutex and two condition
 variables. `Queue` is the object with its critical sections; below it the threads are a state machine whose atomic
 steps are those critical sections, single check evaluations and wake-ups, interleaved in any order.
 */
module CheckQueue {

  /** A verification; `passes` is what calling it returns. */
  datatype Check = Check(id: int, passes: bool)

  predicate AllPass(m: multiset<Check>) {
    forall c | c in m :: c.passes
  }

  // ---------- The fields under the mutex, as a value ----------

  datatype Shared = Shared(queue: seq<Check>, nIdle: int, nTotal: int, allOk: bool, nTodo: int, quit: bool) {
    predicate Idle() {
      nTotal == nIdle && nTodo == 0 && allOk
    }
  }

  function Initial(): Shared {
    Shared([], 0, 0, true, 0, false)
  }

  /** Which sleeping workers `Add` notifies. */
  datatype Wakeups = Nobody | One | All

  function WakeupsFor(n: nat): Wakeups {
    if n == 0 then Nobody else if n == 1 then One else All
  }

  function Grown(s: Shared, checks: seq<Check>): Shared {
    s.(queue := s.queue + checks, nTodo := s.nTodo + |checks|)
  }

  /** How a critical section ends: `Loop` returns, the thread sleeps on its condition variable, or it leaves with a
      batch and the value of `fOk` to start it with. */
  datatype Outcome = Returned(result: bool) | Asleep | Leaves(batch: seq<Check>, ok: bool)

  function Min(a: int, b: int): int {
    if a <= b then a else b
  }

  function Max(a: int, b: int): int {
    if a >= b then a else b
  }

  /** How many checks to take at once. */
  function BatchLength(s: Shared, batchSize: nat): (n: nat)
    requires s.queue != [] && s.nTotal + s.nIdle >= 0
    ensures 1 <= n <= |s.queue| && (n > 1 ==> n <= batchSize)
  {
    var share := |s.queue| / (s.nTotal + s.nIdle + 1);
    Max(1, Min(batchSize, share))
  }

  /** The last `n` elements, last first: the order in which they are popped. */
  function Popped(queue: seq<Check>, n: nat): (r: seq<Check>)
    requires n <= |queue|
    ensures |r| == n
  {
    if n == 0 then [] else Popped(queue, n - 1) + [queue[|queue| - n]]
  }

  /** How often a check occurs. */
  function Times(s: seq<Check>, c: Check): nat {
    multiset(s)[c]
  }

  /** A check is popped as often as it leaves the queue. */
  lemma {:induction false} PoppedIsTheRest(queue: seq<Check>, n: nat, c: Check)
    requires n <= |queue|
    ensures Times(queue, c) == Times(queue[..|queue| - n], c) + Times(Popped(queue, n), c)
  {
    hide Times, Popped;
    if n == 0 {
      PoppedStart(queue, c);
    } else {
      PoppedIsTheRest(queue, n - 1, c);
      PoppedStep(queue, n, c);
    }
  }

  lemma PoppedStart(queue: seq<Check>, c: Check)
    ensures queue[..|queue| - 0] == queue && Times(Popped(queue, 0), c) == 0
  {
  }

  lemma PoppedStep(queue: seq<Check>, n: nat, c: Check)
    requires 0 < n <= |queue|
    ensures
      var one := if queue[|queue| - n] == c then 1 else 0;
      && Times(queue[..|queue| - (n - 1)], c) == Times(queue[..|queue| - n], c) + one
      && Times(Popped(queue, n), c) == Times(Popped(queue, n - 1), c) + one
  {
    var k := |queue| - n;
    assert queue[..k + 1] == queue[..k] + [queue[k]];
  }

  /** The checks of one sequence are those of the two others together. */
  ghost predicate SplitsInto(s: seq<Check>, a: seq<Check>, b: seq<Check>) {
    |s| == |a| + |b| && forall c :: multiset(s)[c] == multiset(a)[c] + multiset(b)[c]
  }

  /** Accounting for a finished batch of `nNow` checks, or for a thread that just came in (`nNow == 0`). */
  function CleanedUp(s: Shared, nNow: nat, ok: bool): Shared {
    if nNow != 0 then s.(allOk := s.allOk && ok, nTodo := s.nTodo - nNow) else s.(nTotal := s.nTotal + 1)
  }

  /** A worker that has finished the last checks tells the master. */
  predicate TellsMaster(s: Shared, isMaster: bool, nNow: nat) {
    nNow != 0 && !isMaster && s.nTodo == nNow
  }

  function Taken(s: Shared, batchSize: nat): (n: nat)
    requires s.nTotal + s.nIdle >= 0
    ensures n <= |s.queue| && (s.queue != [] ==> n >= 1)
  {
    if s.queue == [] then 0 else BatchLength(s, batchSize)
  }

  /** The loop on an empty queue and the choice of a batch. */
  function Dispatched(s: Shared, isMaster: bool, batchSize: nat): (Shared, Outcome)
    requires s.nTotal + s.nIdle >= 0
  {
    DispatchedBy(s, isMaster, Taken(s, batchSize))
  }

  /** The same with a batch of n checks. */
  function DispatchedBy(s: Shared, isMaster: bool, n: nat): (Shared, Outcome)
    requires n <= |s.queue|
  {
    if s.queue == [] then
      if (isMaster || s.quit) && s.nTodo == 0 then
        (s.(nTotal := s.nTotal - 1, allOk := isMaster || s.allOk), Returned(s.allOk))
      else
        (s.(nIdle := s.nIdle + 1), Asleep)
    else
      (s.(queue := s.queue[..|s.queue| - n]), Leaves(Popped(s.queue, n), s.allOk))
  }

  // ---------- The object ----------

  class Queue {
    var queue: seq<Check>
    var nIdle: int
    var nTotal: int
    var fAllOk: bool
    var nTodo: int
    var fQuit: bool
    const nBatchSize: nat

    function Value(): Shared
      reads this
    {
      Shared(queue, nIdle, nTotal, fAllOk, nTodo, fQuit)
    }

    constructor (batchSize: nat)
      ensures Value() == Initial() && nBatchSize == batchSize
    {
      queue, nIdle, nTotal, fAllOk, nTodo, fQuit := [], 0, 0, true, 0, false;
      nBatchSize := batchSize;
    }

    /** From taking the mutex at the top of `Loop` to releasing it. */
    method BeginRound(fMaster: bool, nNow: nat, fOk: bool) returns (outcome: Outcome, notifyMaster: bool)
      requires nTotal + nIdle >= 0
      modifies this
      ensures (Value(), outcome) == Dispatched(CleanedUp(old(Value()), nNow, fOk), fMaster, nBatchSize)
      ensures notifyMaster <==> TellsMaster(old(Value()), fMaster, nNow)
    {
      notifyMaster := false;
      if nNow != 0 {
        fAllOk := fAllOk && fOk;
        nTodo := nTodo - nNow;
        if nTodo == 0 && !fMaster {
          notifyMaster := true;
        }
      } else {
        nTotal := nTotal + 1;
      }
      outcome := Dispatch(fMaster);
    }

    /** From getting the mutex back inside `cond.wait` to releasing it. */
    method Resume(fMaster: bool) returns (outcome: Outcome)
      requires nTotal + nIdle >= 1
      modifies this
      ensures (Value(), outcome) == Dispatched(old(Value()).(nIdle := old(nIdle) - 1), fMaster, nBatchSize)
    {
      nIdle := nIdle - 1;
      outcome := Dispatch(fMaster);
    }

    method Dispatch(fMaster: bool) returns (outcome: Outcome)
      requires nTotal + nIdle >= 0
      modifies this
      ensures (Value(), outcome) == Dispatched(old(Value()), fMaster, nBatchSize)
    {
      if queue == [] {
        if (fMaster || fQuit) && nTodo == 0 {
          nTotal := nTotal - 1;
          var fRet := fAllOk;
          if fMaster {
            fAllOk := true;
          }
          return Returned(fRet);
        }
        nIdle := nIdle + 1;
        return Asleep;
      }
      var nNow := BatchLength(Value(), nBatchSize);
      var vChecks := [];
      var i := 0;
      while i < nNow
        invariant 0 <= i <= nNow
        invariant queue == old(queue)[..|old(queue)| - i]
        invariant vChecks == Popped(old(queue), i)
        invariant Value() == old(Value()).(queue := queue)
      {
        vChecks := vChecks + [queue[|queue| - 1]];
        queue := queue[..|queue| - 1];
        i := i + 1;
      }
      return Leaves(vChecks, fAllOk);
    }

    method Add(vChecks: seq<Check>) returns (notified: Wakeups)
      modifies this
      ensures Value() == Grown(old(Value()), vChecks) && notified == WakeupsFor(|vChecks|)
    {
      var i := 0;
      while i < |vChecks|
        invariant 0 <= i <= |vChecks|
        invariant Value() == old(Value()).(queue := old(queue) + vChecks[..i])
      {
        queue := queue + [vChecks[i]];
        i := i + 1;
      }
      assert vChecks[..|vChecks|] == vChecks;
      nTodo := nTodo + |vChecks|;
      notified := if |vChecks| == 1 then One else if |vChecks| > 1 then All else Nobody;
    }

    method IsIdle() returns (idle: bool)
      ensures idle == Value().Idle()
    {
      idle := nTotal == nIdle && nTodo == 0 && fAllOk;
    }
  }

  lemma AllPassPush(b: seq<Check>, k: nat)
    requires k < |b|
    ensures AllPass(multiset(b[..k + 1])) <==> AllPass(multiset(b[..k])) && b[k].passes
  {
    assert b[..k + 1] == b[..k] + [b[k]];
  }

  /** The work on a batch outside the mutex: evaluate until the first failure. */
  method Execute(vChecks: seq<Check>, ok: bool) returns (fOk: bool)
    ensures fOk == (ok && AllPass(multiset(vChecks)))
  {
    fOk := ok;
    for i := 0 to |vChecks|
      invariant fOk == (ok && AllPass(multiset(vChecks[..i])))
    {
      AllPassPush(vChecks, i);
      if fOk {
        fOk := vChecks[i].passes;
      }
    }
    assert vChecks[..|vChecks|] == vChecks;
  }

  // ---------- The threads ----------

  /** Where a thread is. Thread 0 is the master: `Outside` means it is not inside `Wait`. */
  datatype Phase = Outside | Waiting(notified: bool) | Running(batch: seq<Check>, done: nat, ok: bool)

  /** All threads with the shared fields, and two histories since the last `Wait` returned: the checks added and the
      checks accounted for. */
  datatype System = System(shared: Shared, threads: seq<Phase>, added: multiset<Check>, finished: multiset<Check>)

  datatype Step =
    | Enter(i: nat)                        // Thread i starts `Loop`: a worker thread begins, or the master calls `Wait`.
    | Work(i: nat)                         // It evaluates, or skips, one check of its batch.
    | EndBatch(i: nat)                     // It takes the mutex again after its batch.
    | Wake(i: nat)                         // It gets the mutex back inside `cond.wait`, notified or spuriously.
    | AddChecks(checks: seq<Check>, w: nat) // The master adds checks; w is the worker that `notify_one` picks.

  ghost predicate Enabled(y: System, step: Step) {
    match step
    case Enter(i) => i < |y.threads| && y.threads[i].Outside?
    case Work(i) => i < |y.threads| && y.threads[i].Running? && y.threads[i].done < |y.threads[i].batch|
    case EndBatch(i) => i < |y.threads| && y.threads[i].Running? && y.threads[i].done == |y.threads[i].batch|
    case Wake(i) => i < |y.threads| && y.threads[i].Waiting?
    case AddChecks(_, _) => |y.threads| > 0 && y.threads[0].Outside?
  }

  function PhaseAfter(outcome: Outcome): Phase {
    match outcome
    case Returned(_) => Outside
    case Asleep => Waiting(false)
    case Leaves(batch, ok) => Running(batch, 0, ok)
  }

  function Notify(p: Phase): Phase {
    if p.Waiting? then Waiting(true) else p
  }

  /** Thread i leaves a critical section that turned the fields into `s` with the given outcome. */
  function Released(y: System, i: nat, r: (Shared, Outcome)): System
    requires i < |y.threads|
  {
    var z := y.(shared := r.0, threads := y.threads[i := PhaseAfter(r.1)]);
    if r.1.Returned? && i == 0 then z.(added := multiset{}, finished := multiset{}) else z
  }

  /** The divisor in the choice of a batch is positive. */
  predicate Sane(y: System, step: Step) {
    y.shared.nTotal >= 0 && y.shared.nIdle >= (if step.Wake? then 1 else 0)
  }

  predicate HasSection(step: Step) {
    step.Enter? || step.EndBatch? || step.Wake?
  }

  /** What the critical section of the step does. */
  ghost function Section(y: System, step: Step, batchSize: nat): (Shared, Outcome)
    requires HasSection(step) && Enabled(y, step) && Sane(y, step)
  {
    match step
    case Enter(i) => Dispatched(CleanedUp(y.shared, 0, true), i == 0, batchSize)
    case EndBatch(i) => Dispatched(CleanedUp(y.shared, |y.threads[i].batch|, y.threads[i].ok), i == 0, batchSize)
    case Wake(i) => Dispatched(y.shared.(nIdle := y.shared.nIdle - 1), i == 0, batchSize)
  }

  /** After thread i has evaluated the next check of its batch, or skipped it because one failed. */
  ghost function Worked(y: System, i: nat): (r: seq<Phase>)
    requires Enabled(y, Work(i))
    ensures |r| == |y.threads|
  {
    var p := y.threads[i];
    y.threads[i := p.(done := p.done + 1, ok := p.ok && p.batch[p.done].passes)]
  }

  /** The threads after worker i has told the master that nothing is left to do. */
  function Told(y: System, i: nat): (r: seq<Phase>)
    requires i < |y.threads| && y.threads[i].Running?
    ensures |r| == |y.threads|
  {
    if TellsMaster(y.shared, i == 0, |y.threads[i].batch|) then y.threads[0 := Notify(y.threads[0])] else y.threads
  }

  /** One atomic step. */
  ghost function Next(y: System, step: Step, batchSize: nat): System
    requires Enabled(y, step) && Sane(y, step)
  {
    match step
    case Enter(i) =>
      Released(y, i, Section(y, step, batchSize))
    case Work(i) =>
      y.(threads := Worked(y, i))
    case EndBatch(i) =>
      var z := y.(threads := Told(y, i), finished := y.finished + multiset(y.threads[i].batch));
      Released(z, i, Section(y, step, batchSize))
    case Wake(i) =>
      Released(y, i, Section(y, step, batchSize))
    case AddChecks(checks, w) =>
      y.(shared := Grown(y.shared, checks), added := y.added + multiset(checks),
         threads := Notified(y.threads, |checks|, w))
  }

  /** After `notify_one` (of worker w) or `notify_all` on the workers' condition variable. */
  function NotifiedBy(threads: seq<Phase>, wakeups: Wakeups, w: nat): (r: seq<Phase>)
    requires |threads| > 0
    ensures |r| == |threads| && r[0] == threads[0]
    ensures forall i | 0 <= i < |r| :: r[i] == threads[i] || r[i] == Notify(threads[i])
  {
    match wakeups
    case Nobody => threads
    case One => if 0 < w < |threads| then threads[w := Notify(threads[w])] else threads
    case All => seq(|threads|, i requires 0 <= i < |threads| => if i == 0 then threads[0] else Notify(threads[i]))
  }

  function Notified(threads: seq<Phase>, n: nat, w: nat): seq<Phase>
    requires |threads| > 0
  {
    NotifiedBy(threads, WakeupsFor(n), w)
  }

  // ---------- Counting over threads ----------

  function IdleOf(p: Phase): nat { if p.Waiting? then 1 else 0 }
  function InsideOf(p: Phase): nat { if p.Outside? then 0 else 1 }
  function HoldingOf(p: Phase): nat { if p.Running? then 1 else 0 }
  function LoadOf(p: Phase): nat { if p.Running? then |p.batch| else 0 }

  ghost function Sum(threads: seq<Phase>, f: Phase -> nat): nat {
    if threads == [] then 0 else Sum(threads[..|threads| - 1], f) + f(threads[|threads| - 1])
  }

  lemma {:induction false} SumUpdate(threads: seq<Phase>, f: Phase -> nat, i: nat, p: Phase)
    requires i < |threads|
    ensures Sum(threads[i := p], f) == Sum(threads, f) - f(threads[i]) + f(p)
    decreases |threads|
  {
    var n := |threads| - 1;
    if i < n {
      SumUpdate(threads[..n], f, i, p);
      assert threads[i := p][..n] == threads[..n][i := p];
    } else {
      assert threads[i := p][..n] == threads[..n];
    }
  }

  lemma {:induction false} SumAtLeast(threads: seq<Phase>, f: Phase -> nat, i: nat)
    requires i < |threads|
    ensures Sum(threads, f) >= f(threads[i])
  {
    SumUpdate(threads, f, i, threads[i]);
    if i < |threads| - 1 {
      SumAtLeast(threads[..|threads| - 1], f, i);
    }
  }

  lemma {:induction false} SumAlike(a: seq<Phase>, f: Phase -> nat, b: seq<Phase>, g: Phase -> nat)
    requires |a| == |b| && forall i | 0 <= i < |a| :: f(a[i]) == g(b[i])
    ensures Sum(a, f) == Sum(b, g)
  {
    if a != [] {
      SumAlike(a[..|a| - 1], f, b[..|b| - 1], g);
    }
  }

  lemma {:induction false} SumPositive(threads: seq<Phase>, f: Phase -> nat) returns (i: nat)
    requires Sum(threads, f) > 0
    ensures i < |threads| && f(threads[i]) > 0
  {
    i := |threads| - 1;
    if f(threads[i]) == 0 {
      i := SumPositive(threads[..i], f);
    }
  }

  function BatchOf(p: Phase): seq<Check> {
    if p.Running? then p.batch else []
  }

  /** How often a thread's batch holds the check. */
  ghost function CountOf(c: Check): Phase -> nat {
    (p: Phase) => multiset(BatchOf(p))[c]
  }

  // ---------- The invariant ----------

  /** The counters are exact, for threads of which `extra` more are inside than have a phase. */
  ghost predicate Counted(s: Shared, threads: seq<Phase>, extra: nat) {
    && s.nIdle == Sum(threads, IdleOf)
    && s.nTotal == Sum(threads, InsideOf) + extra
    && s.nTodo == |s.queue| + Sum(threads, LoadOf)
  }

  /** How often a check is queued, in a batch, or accounted for. */
  ghost function Tally(c: Check, queue: seq<Check>, threads: seq<Phase>, finished: multiset<Check>): nat {
    multiset(queue)[c] + Sum(threads, CountOf(c)) + finished[c]
  }

  /** Every added check is queued, in a batch or accounted for, and nothing else is. */
  ghost predicate Conserved(queue: seq<Check>, threads: seq<Phase>, finished: multiset<Check>, added: multiset<Check>) {
    forall c {:trigger Tally(c, queue, threads, finished)} :: added[c] == Tally(c, queue, threads, finished)
  }

  /** `ok` so far is right about the `seen` checks, although others may have been skipped: true means they all pass,
      false means some added check fails. */
  ghost predicate Honest(ok: bool, seen: multiset<Check>, added: multiset<Check>) {
    if ok then AllPass(seen) else !AllPass(added)
  }

  ghost predicate ThreadOk(p: Phase, added: multiset<Check>) {
    p.Running? ==>
      && 1 <= |p.batch| && p.done <= |p.batch|
      && if p.ok then forall j | 0 <= j < p.done :: p.batch[j].passes else !AllPass(added)
  }

  ghost predicate ThreadsOk(threads: seq<Phase>, added: multiset<Check>) {
    forall i | 0 <= i < |threads| :: ThreadOk(threads[i], added)
  }

  /** Inside `Wait` there is work that was added; asleep there, the queue is empty, and without a notification some
      check is unfinished. */
  ghost predicate MasterOk(m: Phase, s: Shared, added: multiset<Check>) {
    && (!m.Outside? ==> added != multiset{})
    && (m.Waiting? ==> s.queue == [])
    && (m == Waiting(false) ==> s.nTodo > 0)
  }

  ghost predicate Inv(y: System) {
    && |y.threads| > 0 && !y.shared.quit
    && Counted(y.shared, y.threads, 0)
    && Conserved(y.shared.queue, y.threads, y.finished, y.added)
    && Honest(y.shared.allOk, y.finished, y.added)
    && ThreadsOk(y.threads, y.added)
    && MasterOk(y.threads[0], y.shared, y.added)
  }

  // ---------- Every step keeps it ----------

  function Start(workers: nat): System {
    System(Initial(), seq(1 + workers, _ => Outside), multiset{}, multiset{})
  }

  lemma {:induction false} AllOutside(threads: seq<Phase>)
    requires forall i | 0 <= i < |threads| :: threads[i].Outside?
    ensures Sum(threads, IdleOf) == Sum(threads, InsideOf) == Sum(threads, LoadOf) == 0
    ensures forall c :: Sum(threads, CountOf(c)) == 0
  {
    if threads != [] {
      AllOutside(threads[..|threads| - 1]);
    }
  }

  lemma StartInv(workers: nat)
    ensures Inv(Start(workers))
  {
    AllOutside(Start(workers).threads);
  }

  /** Thread i is inside a critical section, its old batch already accounted for: it counts as inside, but has no
      phase of its own. */
  ghost predicate Mid(y: System, i: nat) {
    && i < |y.threads| && y.threads[i].Outside? && !y.shared.quit
    && Counted(y.shared, y.threads, 1)
    && Conserved(y.shared.queue, y.threads, y.finished, y.added)
    && Honest(y.shared.allOk, y.finished, y.added)
    && ThreadsOk(y.threads, y.added)
    && MasterOk(y.threads[0], y.shared, y.added)
  }

  lemma NoLoadNoBatch(y: System, i: nat)
    requires Mid(y, i) && y.shared.queue == [] && y.shared.nTodo == 0
    ensures y.finished == y.added
    ensures forall c :: Sum(y.threads, CountOf(c)) == 0
    ensures forall k | 0 <= k < |y.threads| :: !y.threads[k].Running?
    ensures Sum(y.threads, InsideOf) == Sum(y.threads, IdleOf)
  {
    forall k | 0 <= k < |y.threads|
      ensures !y.threads[k].Running?
    {
      SumAtLeast(y.threads, LoadOf, k);
    }
    forall c
      ensures Sum(y.threads, CountOf(c)) == 0 && y.finished[c] == y.added[c]
    {
      SumAlike(y.threads, CountOf(c), y.threads, LoadOf);
      assert y.added[c] == Tally(c, y.shared.queue, y.threads, y.finished);
    }
    SumAlike(y.threads, InsideOf, y.threads, IdleOf);
  }

  /** Unfinished work was added. */
  lemma TodoWasAdded(s: Shared, threads: seq<Phase>, extra: nat, finished: multiset<Check>, added: multiset<Check>)
    requires Counted(s, threads, extra) && Conserved(s.queue, threads, finished, added) && s.nTodo > 0
    ensures added != multiset{}
  {
    if s.queue != [] {
      assert added[s.queue[0]] == Tally(s.queue[0], s.queue, threads, finished);
    } else {
      var i := SumPositive(threads, LoadOf);
      var c := threads[i].batch[0];
      SumAtLeast(threads, CountOf(c), i);
      assert added[c] == Tally(c, s.queue, threads, finished);
    }
  }

  lemma SumsUpdate(threads: seq<Phase>, i: nat, p: Phase)
    requires i < |threads|
    ensures Sum(threads[i := p], IdleOf) == Sum(threads, IdleOf) - IdleOf(threads[i]) + IdleOf(p)
    ensures Sum(threads[i := p], InsideOf) == Sum(threads, InsideOf) - InsideOf(threads[i]) + InsideOf(p)
    ensures Sum(threads[i := p], LoadOf) == Sum(threads, LoadOf) - LoadOf(threads[i]) + LoadOf(p)
  {
    SumUpdate(threads, IdleOf, i, p);
    SumUpdate(threads, InsideOf, i, p);
    SumUpdate(threads, LoadOf, i, p);
  }

  lemma ThreadsOkUpdate(threads: seq<Phase>, added: multiset<Check>, i: nat, p: Phase)
    requires ThreadsOk(threads, added) && i < |threads| && ThreadOk(p, added)
    ensures ThreadsOk(threads[i := p], added)
  {
  }

  /** Replacing phases by ones with the same batches that only differ otherwise moves no check. */
  lemma SameBatches(a: seq<Phase>, b: seq<Phase>, s: Shared, extra: nat, finished: multiset<Check>,
                    added: multiset<Check>)
    requires |a| == |b|
    requires forall i | 0 <= i < |a| :: BatchOf(a[i]) == BatchOf(b[i]) && a[i].Waiting? == b[i].Waiting?
    requires forall i | 0 <= i < |a| :: a[i].Outside? == b[i].Outside?
    requires Counted(s, a, extra) && Conserved(s.queue, a, finished, added)
    ensures Counted(s, b, extra) && Conserved(s.queue, b, finished, added)
  {
    SumAlike(a, IdleOf, b, IdleOf);
    SumAlike(a, InsideOf, b, InsideOf);
    SumAlike(a, LoadOf, b, LoadOf);
    forall c
      ensures Tally(c, s.queue, b, finished) == Tally(c, s.queue, a, finished)
    {
      SumAlike(a, CountOf(c), b, CountOf(c));
    }
  }

  lemma ReturnInv(y: System, i: nat)
    requires Mid(y, i) && y.shared.queue == [] && y.shared.nTodo == 0
    ensures
      var s := y.shared.(nTotal := y.shared.nTotal - 1, allOk := i == 0 || y.shared.allOk);
      && Inv(Released(y, i, (s, Returned(y.shared.allOk))))
      && (i == 0 ==> y.shared.allOk == AllPass(y.added) && s.Idle())
  {
    NoLoadNoBatch(y, i);
    assert y.threads[i := Outside] == y.threads;
  }

  lemma SleepInv(y: System, i: nat)
    requires Mid(y, i) && y.shared.queue == [] && (i == 0 ==> y.shared.nTodo != 0)
    ensures Inv(Released(y, i, (y.shared.(nIdle := y.shared.nIdle + 1), Asleep)))
  {
    SumsUpdate(y.threads, i, Waiting(false));
    ConservedUpdate(y.shared.queue, y.shared.queue, y.threads, i, Waiting(false), y.finished, y.finished, y.added);
    if y.shared.nTodo > 0 {
      TodoWasAdded(y.shared, y.threads, 1, y.finished, y.added);
    }
  }

  /** Replacing the phase of thread i, and the queue and the finished checks with it, so that for every check the
      changes cancel out. */
  lemma ConservedUpdate(queue: seq<Check>, queue': seq<Check>, threads: seq<Phase>, i: nat, p: Phase,
                        finished: multiset<Check>, finished': multiset<Check>, added: multiset<Check>)
    requires i < |threads| && Conserved(queue, threads, finished, added)
    requires forall c :: multiset(queue)[c] + multiset(BatchOf(threads[i]))[c] + finished[c] ==
                         multiset(queue')[c] + multiset(BatchOf(p))[c] + finished'[c]
    ensures Conserved(queue', threads[i := p], finished', added)
  {
    forall c
      ensures added[c] == Tally(c, queue', threads[i := p], finished')
    {
      SumUpdate(threads, CountOf(c), i, p);
      assert added[c] == Tally(c, queue, threads, finished);
    }
  }

  /** Moving some queued checks into a batch of thread i. */
  lemma LeaveMoves(s: Shared, rest: seq<Check>, threads: seq<Phase>, i: nat, p: Phase, finished: multiset<Check>,
                   added: multiset<Check>)
    requires i < |threads| && threads[i].Outside? && p.Running?
    requires SplitsInto(s.queue, rest, p.batch)
    requires Counted(s, threads, 1) && Conserved(s.queue, threads, finished, added)
    ensures Counted(s.(queue := rest), threads[i := p], 0) && Conserved(rest, threads[i := p], finished, added)
  {
    SumsUpdate(threads, i, p);
    ConservedUpdate(s.queue, rest, threads, i, p, finished, finished, added);
  }

  lemma MidToInv(y: System, i: nat, s: Shared, p: Phase)
    requires Mid(y, i) && s.allOk == y.shared.allOk && !s.quit && ThreadOk(p, y.added)
    requires Counted(s, y.threads[i := p], 0) && Conserved(s.queue, y.threads[i := p], y.finished, y.added)
    requires MasterOk(y.threads[i := p][0], s, y.added)
    ensures Inv(y.(shared := s, threads := y.threads[i := p]))
  {
    ThreadsOkUpdate(y.threads, y.added, i, p);
  }

  lemma LeaveInv(y: System, i: nat, rest: seq<Check>, p: Phase)
    requires Mid(y, i) && p.Running? && |p.batch| >= 1 && p.done == 0 && p.ok == y.shared.allOk
    requires SplitsInto(y.shared.queue, rest, p.batch)
    ensures Inv(y.(shared := y.shared.(queue := rest), threads := y.threads[i := p]))
  {
    LeaveMoves(y.shared, rest, y.threads, i, p, y.finished, y.added);
    TodoWasAdded(y.shared, y.threads, 1, y.finished, y.added);
    MidToInv(y, i, y.shared.(queue := rest), p);
  }

  function AfterLeaving(y: System, i: nat, n: nat): System
    requires i < |y.threads| && n <= |y.shared.queue|
  {
    y.(shared := y.shared.(queue := y.shared.queue[..|y.shared.queue| - n]),
       threads := y.threads[i := Running(Popped(y.shared.queue, n), 0, y.shared.allOk)])
  }

  lemma LeaveReleased(y: System, i: nat, n: nat)
    requires i < |y.threads| && y.shared.queue != [] && n <= |y.shared.queue|
    ensures Released(y, i, DispatchedBy(y.shared, i == 0, n)) == AfterLeaving(y, i, n)
    ensures DispatchedBy(y.shared, i == 0, n).1.Leaves?
  {
  }

  lemma LeaveByInv(y: System, i: nat, n: nat)
    requires Mid(y, i) && 1 <= n <= |y.shared.queue|
    ensures Inv(AfterLeaving(y, i, n))
  {
    hide Inv, Mid, SplitsInto, Popped;
    PoppedSplits(y.shared.queue, n);
    var p := Running(Popped(y.shared.queue, n), 0, y.shared.allOk);
    LeaveInv(y, i, y.shared.queue[..|y.shared.queue| - n], p);
  }

  lemma PoppedSplits(queue: seq<Check>, n: nat)
    requires n <= |queue|
    ensures SplitsInto(queue, queue[..|queue| - n], Popped(queue, n))
  {
    forall c
      ensures multiset(queue)[c] == multiset(queue[..|queue| - n])[c] + multiset(Popped(queue, n))[c]
    {
      PoppedIsTheRest(queue, n, c);
    }
  }

  /** The end of a critical section keeps the invariant, however many checks are taken; when the master returns, the
      result says whether all added checks pass and the queue is idle. */
  lemma DispatchByInv(y: System, i: nat, n: nat)
    requires Mid(y, i) && n <= |y.shared.queue| && (y.shared.queue != [] ==> n >= 1)
    ensures
      var r := DispatchedBy(y.shared, i == 0, n);
      && Inv(Released(y, i, r))
      && (r.1.Returned? && i == 0 ==> r.1.result == AllPass(y.added) && r.0.Idle())
  {
    if y.shared.queue != [] {
      LeaveByInv(y, i, n);
      LeaveReleased(y, i, n);
    } else if i == 0 && y.shared.nTodo == 0 {
      ReturnInv(y, i);
    } else {
      SleepInv(y, i);
    }
  }

  lemma DispatchInv(y: System, i: nat, batchSize: nat)
    requires Mid(y, i)
    ensures
      var r := Dispatched(y.shared, i == 0, batchSize);
      && Inv(Released(y, i, r))
      && (r.1.Returned? && i == 0 ==> r.1.result == AllPass(y.added) && r.0.Idle())
  {
    DispatchByInv(y, i, Taken(y.shared, batchSize));
  }

  // The system as thread i sees it between its own clean-up and its choice of what to do next.

  function MidEnter(y: System): System {
    y.(shared := CleanedUp(y.shared, 0, true))
  }

  function MidEndBatch(y: System, i: nat): System
    requires i < |y.threads| && y.threads[i].Running?
  {
    var p := y.threads[i];
    y.(shared := CleanedUp(y.shared, |p.batch|, p.ok),
       threads := Told(y, i)[i := Outside],
       finished := y.finished + multiset(p.batch))
  }

  function MidWake(y: System, i: nat): System
    requires i < |y.threads|
  {
    y.(shared := y.shared.(nIdle := y.shared.nIdle - 1), threads := y.threads[i := Outside])
  }

  lemma EnterMid(y: System, i: nat)
    requires Inv(y) && Enabled(y, Enter(i))
    ensures Mid(MidEnter(y), i)
  {
  }

  lemma WakeMid(y: System, i: nat)
    requires Inv(y) && Enabled(y, Wake(i))
    ensures Mid(MidWake(y, i), i)
  {
    SumsUpdate(y.threads, i, Outside);
    ConservedUpdate(y.shared.queue, y.shared.queue, y.threads, i, Outside, y.finished, y.finished, y.added);
  }

  lemma ToldAlike(y: System, i: nat)
    requires Inv(y) && Enabled(y, EndBatch(i))
    ensures Counted(y.shared, Told(y, i), 0)
    ensures Conserved(y.shared.queue, Told(y, i), y.finished, y.added)
    ensures ThreadsOk(Told(y, i), y.added)
  {
    SameBatches(y.threads, Told(y, i), y.shared, 0, y.finished, y.added);
    ThreadsOkUpdate(y.threads, y.added, 0, Notify(y.threads[0]));
  }

  /** Moving a finished batch from thread i to the checks accounted for. */
  lemma EndBatchMoves(s: Shared, threads: seq<Phase>, i: nat, finished: multiset<Check>, added: multiset<Check>)
    requires i < |threads| && threads[i].Running? && |threads[i].batch| > 0
    requires Counted(s, threads, 0) && Conserved(s.queue, threads, finished, added)
    ensures Counted(CleanedUp(s, |threads[i].batch|, threads[i].ok), threads[i := Outside], 1)
    ensures Conserved(s.queue, threads[i := Outside], finished + multiset(threads[i].batch), added)
  {
    SumsUpdate(threads, i, Outside);
    ConservedUpdate(s.queue, s.queue, threads, i, Outside, finished, finished + multiset(threads[i].batch), added);
  }

  lemma EndBatchMid(y: System, i: nat)
    requires Inv(y) && Enabled(y, EndBatch(i))
    ensures Mid(MidEndBatch(y, i), i)
  {
    var p := y.threads[i];
    assert ThreadOk(p, y.added);
    assert p.batch[..p.done] == p.batch;
    ToldAlike(y, i);
    EndBatchMoves(y.shared, Told(y, i), i, y.finished, y.added);
    ThreadsOkUpdate(Told(y, i), y.added, i, Outside);
    assert MidEndBatch(y, i).shared.nTodo >= 0;
  }

  lemma WorkThreadOk(y: System, i: nat)
    requires ThreadsOk(y.threads, y.added) && Conserved(y.shared.queue, y.threads, y.finished, y.added)
    requires Enabled(y, Work(i))
    ensures ThreadOk(Worked(y, i)[i], y.added)
  {
    var p := y.threads[i];
    assert ThreadOk(p, y.added);
    assert p.batch[p.done] in y.added by {
      var c := p.batch[p.done];
      SumAtLeast(y.threads, CountOf(c), i);
      assert y.added[c] == Tally(c, y.shared.queue, y.threads, y.finished);
    }
  }

  lemma WorkInv(y: System, i: nat)
    requires Inv(y) && Enabled(y, Work(i))
    ensures Inv(y.(threads := Worked(y, i)))
  {
    SameBatches(y.threads, Worked(y, i), y.shared, 0, y.finished, y.added);
    WorkThreadOk(y, i);
    ThreadsOkUpdate(y.threads, y.added, i, Worked(y, i)[i]);
  }

  lemma ThreadsOkAdd(threads: seq<Phase>, added: multiset<Check>, checks: seq<Check>, w: nat)
    requires ThreadsOk(threads, added) && |threads| > 0
    ensures ThreadsOk(Notified(threads, |checks|, w), added + multiset(checks))
  {
    var r := Notified(threads, |checks|, w);
    forall i | 0 <= i < |r|
      ensures ThreadOk(r[i], added + multiset(checks))
    {
      assert ThreadOk(threads[i], added);
    }
  }

  lemma AddInv(y: System, checks: seq<Check>, w: nat, batchSize: nat)
    requires Inv(y) && Enabled(y, AddChecks(checks, w))
    ensures Inv(Next(y, AddChecks(checks, w), batchSize))
  {
    var threads := Notified(y.threads, |checks|, w);
    SameBatches(y.threads, threads, y.shared, 0, y.finished, y.added);
    ThreadsOkAdd(y.threads, y.added, checks, w);
    forall c
      ensures (y.added + multiset(checks))[c] == Tally(c, y.shared.queue + checks, threads, y.finished)
    {
      assert y.added[c] == Tally(c, y.shared.queue, threads, y.finished);
    }
  }

  /** Every atomic step of every thread keeps the invariant. */
  lemma StepInv(y: System, step: Step, batchSize: nat)
    requires Inv(y) && Enabled(y, step)
    ensures Sane(y, step) && Inv(Next(y, step, batchSize))
  {
    if step.Wake? {
      SumAtLeast(y.threads, IdleOf, step.i);
    }
    match step {
      case Enter(i) =>
        EnterMid(y, i);
        DispatchInv(MidEnter(y), i, batchSize);
      case Work(i) =>
        WorkInv(y, i);
      case EndBatch(i) =>
        EndBatchMid(y, i);
        DispatchInv(MidEndBatch(y, i), i, batchSize);
        NextEndBatch(y, i, batchSize);
      case Wake(i) =>
        WakeMid(y, i);
        DispatchInv(MidWake(y, i), i, batchSize);
        NextWake(y, i, batchSize);
      case AddChecks(checks, w) =>
        AddInv(y, checks, w, batchSize);
    }
  }

  lemma NextEndBatch(y: System, i: nat, batchSize: nat)
    requires Inv(y) && Enabled(y, EndBatch(i))
    ensures
      var z := MidEndBatch(y, i);
      && z.shared.nTotal + z.shared.nIdle >= 0
      && Next(y, EndBatch(i), batchSize) == Released(z, i, Dispatched(z.shared, i == 0, batchSize))
  {
    var z := MidEndBatch(y, i);
    var r := Dispatched(z.shared, i == 0, batchSize);
    assert Next(y, EndBatch(i), batchSize).threads == Released(z, i, r).threads;
  }

  lemma NextWake(y: System, i: nat, batchSize: nat)
    requires Inv(y) && Enabled(y, Wake(i))
    ensures
      var z := MidWake(y, i);
      && z.shared.nTotal + z.shared.nIdle >= 0
      && Sane(y, Wake(i))
      && Next(y, Wake(i), batchSize) == Released(z, i, Dispatched(z.shared, i == 0, batchSize))
  {
    SumAtLeast(y.threads, IdleOf, i);
    var z := MidWake(y, i);
    var r := Dispatched(z.shared, i == 0, batchSize);
    assert Next(y, Wake(i), batchSize).threads == Released(z, i, r).threads;
  }

  // ---------- The object takes the steps ----------

  /** Thread i evaluates the rest of its batch, one `Work` step after the other. */
  ghost function WorkedOff(y: System, i: nat): System
    requires i < |y.threads| && y.threads[i].Running? && y.threads[i].done <= |y.threads[i].batch|
    decreases |y.threads[i].batch| - y.threads[i].done
  {
    if y.threads[i].done == |y.threads[i].batch| then y else WorkedOff(y.(threads := Worked(y, i)), i)
  }

  /** What `Execute` computes at once is what these steps come to, and they change nothing else. */
  lemma {:induction false} WorkIsExecute(y: System, i: nat)
    requires i < |y.threads| && y.threads[i].Running? && y.threads[i].done <= |y.threads[i].batch|
    ensures
      var p := y.threads[i];
      var ok := p.ok && AllPass(multiset(p.batch[p.done..]));
      WorkedOff(y, i) == y.(threads := y.threads[i := Running(p.batch, |p.batch|, ok)])
    decreases |y.threads[i].batch| - y.threads[i].done
  {
    var p := y.threads[i];
    if p.done == |p.batch| {
      assert p.batch[p.done..] == [];
      assert y.threads == y.threads[i := Running(p.batch, |p.batch|, p.ok)];
    } else {
      var z := y.(threads := Worked(y, i));
      WorkIsExecute(z, i);
      assert p.batch[p.done..] == [p.batch[p.done]] + p.batch[p.done + 1..];
      AllPassCons(p.batch[p.done], p.batch[p.done + 1..]);
      var ok := p.ok && AllPass(multiset(p.batch[p.done..]));
      assert z.threads[i := Running(p.batch, |p.batch|, ok)] == y.threads[i := Running(p.batch, |p.batch|, ok)];
    }
  }

  lemma AllPassCons(c: Check, rest: seq<Check>)
    ensures AllPass(multiset([c] + rest)) <==> c.passes && AllPass(multiset(rest))
  {
    assert forall d :: d in multiset([c] + rest) <==> d == c || d in multiset(rest);
  }

  /** Any step of any thread, taken on the object: its critical sections are those of the state machine, their
      preconditions always hold, and its notifications reach the threads that the state machine says. */
  method Advance(q: Queue, threads: seq<Phase>, step: Step, ghost y: System) returns (after: seq<Phase>)
    requires Inv(y) && Enabled(y, step) && q.Value() == y.shared && threads == y.threads
    modifies q
    ensures Sane(y, step) && Inv(Next(y, step, q.nBatchSize))
    ensures q.Value() == Next(y, step, q.nBatchSize).shared && after == Next(y, step, q.nBatchSize).threads
  {
    hide Inv, Popped, AllPass;
    StepInv(y, step, q.nBatchSize);
    match step {
      case Enter(i) =>
        var outcome, _ := q.BeginRound(i == 0, 0, true);
        after := threads[i := PhaseAfter(outcome)];
      case Work(i) =>
        var p := threads[i];
        var ok := if p.ok then p.batch[p.done].passes else false;
        after := threads[i := Running(p.batch, p.done + 1, ok)];
      case EndBatch(i) =>
        var outcome, notifyMaster := q.BeginRound(i == 0, |threads[i].batch|, threads[i].ok);
        after := if notifyMaster then threads[0 := Notify(threads[0])] else threads;
        after := after[i := PhaseAfter(outcome)];
      case Wake(i) =>
        var outcome := q.Resume(i == 0);
        after := threads[i := PhaseAfter(outcome)];
      case AddChecks(checks, w) =>
        var notified := q.Add(checks);
        after := NotifiedBy(threads, notified, w);
    }
  }

  // ---------- Whole runs ----------

  /** States and steps of a run from a fresh queue with the given number of workers. */
  ghost predicate IsRun(states: seq<System>, steps: seq<Step>, workers: nat, batchSize: nat) {
    && |states| == |steps| + 1
    && states[0] == Start(workers)
    && forall k | 0 <= k < |steps| ::
         && Enabled(states[k], steps[k])
         && (Sane(states[k], steps[k]) ==> states[k + 1] == Next(states[k], steps[k], batchSize))
  }

  lemma {:induction false} RunInv(states: seq<System>, steps: seq<Step>, workers: nat, batchSize: nat, k: nat)
    requires IsRun(states, steps, workers, batchSize) && k < |states|
    ensures Inv(states[k])
  {
    if k == 0 {
      StartInv(workers);
    } else {
      RunInv(states, steps, workers, batchSize, k - 1);
      StepInv(states[k - 1], steps[k - 1], batchSize);
    }
  }

  /** In every run, `nTodo` is the number of queued and in-flight checks, and `nTotal - nIdle` the number of threads
      that hold a batch. */
  lemma CountersAreExact(states: seq<System>, steps: seq<Step>, workers: nat, batchSize: nat, k: nat)
    requires IsRun(states, steps, workers, batchSize) && k < |states|
    ensures
      var y := states[k];
      && y.shared.nTodo == |y.shared.queue| + Sum(y.threads, LoadOf)
      && y.shared.nTotal - y.shared.nIdle == Sum(y.threads, HoldingOf)
  {
    RunInv(states, steps, workers, batchSize, k);
    SumSplit(states[k].threads);
  }

  lemma {:induction false} SumSplit(threads: seq<Phase>)
    ensures Sum(threads, InsideOf) == Sum(threads, IdleOf) + Sum(threads, HoldingOf)
  {
    if threads != [] {
      SumSplit(threads[..|threads| - 1]);
    }
  }

  /** Whenever the master's `Wait` returns in a run, it returns true exactly if every check added since the previous
      return evaluates to true, and it leaves the queue idle. */
  lemma WaitIsRight(states: seq<System>, steps: seq<Step>, workers: nat, batchSize: nat, k: nat)
    requires IsRun(states, steps, workers, batchSize) && k < |steps|
    requires HasSection(steps[k]) && steps[k].i == 0
    ensures Sane(states[k], steps[k])
    ensures
      var outcome := Section(states[k], steps[k], batchSize).1;
      outcome.Returned? ==>
        && outcome.result == AllPass(states[k].added)
        && states[k + 1].added == multiset{}
        && states[k + 1].shared.Idle()
  {
    var y := states[k];
    RunInv(states, steps, workers, batchSize, k);
    StepInv(y, steps[k], batchSize);
    match steps[k] {
      case Enter(i) =>
        EnterMid(y, i);
        DispatchInv(MidEnter(y), i, batchSize);
      case EndBatch(i) =>
        EndBatchMid(y, i);
        DispatchInv(MidEndBatch(y, i), i, batchSize);
      case Wake(i) =>
        WakeMid(y, i);
        DispatchInv(MidWake(y, i), i, batchSize);
    }
  }

  /** As long as nothing has been added since the last `Wait`, the queue is idle. */
  lemma IdleWhenNothingAdded(y: System)
    requires Inv(y) && y.added == multiset{}
    ensures y.shared.Idle()
  {
    if y.shared.nTodo > 0 {
      TodoWasAdded(y.shared, y.threads, 0, y.finished, y.added);
      assert false;
    }
    NothingLeft(y);
    SumSplit(y.threads);
  }

  predicate AddsSomething(step: Step) {
    step.AddChecks? && step.checks != []
  }

  /** From a state where nothing is added, such as the start or a return of `Wait`, until the next non-empty `Add`, the
      queue is idle at every moment, whatever the workers do. */
  lemma {:induction false} IdleUntilAdd(states: seq<System>, steps: seq<Step>, workers: nat, batchSize: nat, j: nat,
                                        k: nat)
    requires IsRun(states, steps, workers, batchSize) && j <= k < |states|
    requires states[j].added == multiset{} && forall m | j <= m < k :: !AddsSomething(steps[m])
    ensures states[k].added == multiset{} && states[k].shared.Idle()
  {
    RunInv(states, steps, workers, batchSize, k);
    if j < k {
      IdleUntilAdd(states, steps, workers, batchSize, j, k - 1);
      RunInv(states, steps, workers, batchSize, k - 1);
      StepInv(states[k - 1], steps[k - 1], batchSize);
    }
    IdleWhenNothingAdded(states[k]);
  }

  /** In every run `IsIdle` is true exactly if no thread holds a batch, nothing is queued, and every check added since
      the last `Wait` passes. */
  lemma IdleMeans(states: seq<System>, steps: seq<Step>, workers: nat, batchSize: nat, k: nat)
    requires IsRun(states, steps, workers, batchSize) && k < |states|
    ensures
      var y := states[k];
      y.shared.Idle() <==>
        && (forall i | 0 <= i < |y.threads| :: !y.threads[i].Running?)
        && y.shared.queue == []
        && AllPass(y.added)
  {
    RunInv(states, steps, workers, batchSize, k);
    CountersAreExact(states, steps, workers, batchSize, k);
    var y := states[k];
    if y.shared.nTodo == 0 {
      NothingLeft(y);
    }
    if y.shared.queue == [] && forall i | 0 <= i < |y.threads| :: !y.threads[i].Running? {
      if Sum(y.threads, LoadOf) > 0 {
        var i := SumPositive(y.threads, LoadOf);
        assert false;
      }
      NothingLeft(y);
    }
  }

  /** With nothing left to do no thread holds a batch, and everything added is accounted for. */
  lemma NothingLeft(y: System)
    requires Inv(y) && y.shared.nTodo == 0
    ensures y.shared.queue == [] && Sum(y.threads, HoldingOf) == 0 && y.finished == y.added
    ensures forall i | 0 <= i < |y.threads| :: !y.threads[i].Running?
  {
    forall i | 0 <= i < |y.threads|
      ensures !y.threads[i].Running?
    {
      SumAtLeast(y.threads, LoadOf, i);
      assert ThreadOk(y.threads[i], y.added);
    }
    SumAlike(y.threads, HoldingOf, y.threads, LoadOf);
    forall c
      ensures y.finished[c] == y.added[c]
    {
      SumAlike(y.threads, CountOf(c), y.threads, LoadOf);
      assert y.added[c] == Tally(c, y.shared.queue, y.threads, y.finished);
    }
  }

  // ---------- Progress ----------

  /** A step that some thread inside `Loop` will take without a spurious wake-up. */
  ghost predicate Driven(y: System, step: Step) {
    && Enabled(y, step)
    && (step.Work? || step.EndBatch? || (step.Wake? && y.threads[step.i].notified))
  }

  /** No lost wake-up: while the master is inside `Wait`, some thread has a driven step. In particular it never sleeps
      without a notification once everything is done. */
  lemma NoDeadlock(states: seq<System>, steps: seq<Step>, workers: nat, batchSize: nat, k: nat)
    requires IsRun(states, steps, workers, batchSize) && k < |states|
    requires |states[k].threads| > 0 && !states[k].threads[0].Outside?
    ensures states[k].threads[0] == Waiting(false) ==> states[k].shared.nTodo > 0
    ensures exists step :: Driven(states[k], step)
  {
    RunInv(states, steps, workers, batchSize, k);
    var y := states[k];
    var i: nat := 0;
    if y.threads[0] == Waiting(false) {
      i := SumPositive(y.threads, LoadOf);
    }
    assert ThreadOk(y.threads[i], y.added);
    if y.threads[i].Waiting? {
      assert Driven(y, Wake(i));
    } else if y.threads[i].done < |y.threads[i].batch| {
      assert Driven(y, Work(i));
    } else {
      assert Driven(y, EndBatch(i));
    }
  }

  function EffortOf(p: Phase): nat {
    match p
    case Outside => 1
    case Waiting(notified) => if notified then 1 else 0
    case Running(batch, done, _) => if done <= |batch| then 2 * (|batch| - done) + 3 else 0
  }

  /** An upper bound on the driven steps still to come before `Wait` returns. */
  ghost function Effort(y: System): nat {
    5 * |y.shared.queue| + Sum(y.threads, EffortOf)
  }

  lemma DispatchEffort(y: System, i: nat, n: nat)
    requires Mid(y, i) && n <= |y.shared.queue| && (y.shared.queue != [] ==> n >= 1)
    ensures
      var r := DispatchedBy(y.shared, i == 0, n);
      !r.1.Returned? ==> Effort(Released(y, i, r)) < Effort(y)
  {
    SumUpdate(y.threads, EffortOf, i, PhaseAfter(DispatchedBy(y.shared, i == 0, n).1));
  }

  lemma EndBatchEffort(y: System, i: nat)
    requires Inv(y) && Enabled(y, EndBatch(i))
    ensures Effort(MidEndBatch(y, i)) < Effort(y)
  {
    SumUpdate(y.threads, EffortOf, 0, Notify(y.threads[0]));
    SumUpdate(Told(y, i), EffortOf, i, Outside);
  }

  /** Until `Wait` returns, every driven step and every start of a worker brings the bound down, and a spurious wake-up
      does not raise it. */
  lemma EffortDecreases(y: System, step: Step, batchSize: nat)
    requires Inv(y) && Enabled(y, step) && !y.threads[0].Outside?
    ensures Sane(y, step)
    ensures
      var z := Next(y, step, batchSize);
      && |z.threads| > 0
      && (!z.threads[0].Outside? ==> Effort(z) <= Effort(y))
      && (!z.threads[0].Outside? && (Driven(y, step) || step.Enter?) ==> Effort(z) < Effort(y))
  {
    StepInv(y, step, batchSize);
    match step {
      case Enter(i) =>
        EnterMid(y, i);
        DispatchEffort(MidEnter(y), i, Taken(MidEnter(y).shared, batchSize));
      case Work(i) =>
        SumUpdate(y.threads, EffortOf, i, Next(y, step, batchSize).threads[i]);
      case EndBatch(i) =>
        EndBatchMid(y, i);
        EndBatchEffort(y, i);
        DispatchEffort(MidEndBatch(y, i), i, Taken(MidEndBatch(y, i).shared, batchSize));
        NextEndBatch(y, i, batchSize);
      case Wake(i) =>
        WakeMid(y, i);
        SumUpdate(y.threads, EffortOf, i, Outside);
        DispatchEffort(MidWake(y, i), i, Taken(MidWake(y, i).shared, batchSize));
        NextWake(y, i, batchSize);
    }
  }

  /** A wake-up that nobody asked for. */
  ghost predicate Spurious(y: System, step: Step) {
    step.Wake? && Enabled(y, step) && !y.threads[step.i].notified
  }

  /** How many of the steps from j to k are spurious wake-ups. */
  ghost function SpuriousSteps(states: seq<System>, steps: seq<Step>, j: nat, k: nat): nat
    requires j <= k <= |steps| && |states| == |steps| + 1
  {
    if j == k then 0 else SpuriousSteps(states, steps, j, k - 1) + if Spurious(states[k - 1], steps[k - 1]) then 1
        else 0
  }

  /** The master is inside `Wait` from state j to state k. */
  ghost predicate InsideWait(states: seq<System>, j: nat, k: nat) {
    forall m | j <= m <= k && m < |states| :: |states[m].threads| > 0 && !states[m].threads[0].Outside?
  }

  /** `Wait` terminates: as long as it has not returned, the number of steps taken since state j, spurious wake-ups not
      counted, is bounded by the effort at j. With `NoDeadlock` this leaves unbounded spurious wake-ups as the only
      way for it not to return. */
  lemma {:induction false} WaitIsBounded(states: seq<System>, steps: seq<Step>, workers: nat, batchSize: nat, j: nat,
                                         k: nat)
    requires IsRun(states, steps, workers, batchSize) && j <= k < |states| && InsideWait(states, j, k)
    ensures k - j + Effort(states[k]) <= Effort(states[j]) + SpuriousSteps(states, steps, j, k)
    decreases k - j
  {
    if j < k {
      WaitIsBounded(states, steps, workers, batchSize, j, k - 1);
      RunInv(states, steps, workers, batchSize, k - 1);
      var y, step := states[k - 1], steps[k - 1];
      assert !y.threads[0].Outside? && !states[k].threads[0].Outside?;
      EffortDecreases(y, step, batchSize);
    }
  }
}
