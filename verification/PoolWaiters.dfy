/** wait_for_tasks: when its callers are woken, when they are not, and why the pool settles. */
module PoolWaiters {
  import opened PoolSections
  import opened PoolProtocol
  import opened PoolInvariants

  ghost predicate SomeSleeping(waiters: seq<Waiter>) {
    exists i :: 0 <= i < |waiters| && waiters[i].Sleeping?
  }

  ghost predicate SomeNotified(waiters: seq<Waiter>) {
    exists i :: 0 <= i < |waiters| && waiters[i].Notified?
  }

  /** However many threads are in wait_for_tasks: if one of them sleeps, it has something left to wait for,
      and the flag tells the workers to notify it. */
  ghost predicate WaiterInv(s: State) {
    SomeSleeping(s.waiters) ==> !Done(s.sh) && s.sh.waiting
  }

  /** The guard. A waiter goes back to sleep only while the flag is up, and the calls that can make the
      awaited condition true without a notification (pause, purge, and reset's own writes to `paused`)
      happen under a sleeper only while a running task will notify it later. */
  ghost predicate Calm(s: State, step: Step) {
    match step
    case Recheck(_) => Done(s.sh) || s.sh.waiting
    case Pause => SomeSleeping(s.waiters) ==> s.sh.tasksRunning > 0
    case Purge => SomeSleeping(s.waiters) ==> s.sh.tasksRunning > 0
    case CallReset(_) => SomeSleeping(s.waiters) ==> s.sh.tasksRunning > 0
    case EndJoin => s.owner.Joining? && s.owner.job.Reset? && s.owner.job.wasPaused ==> !SomeSleeping(s.waiters)
    case _ => true
  }

  lemma WaiterMoves(waiters: seq<Waiter>, i: nat, waiter: Waiter)
    requires i < |waiters|
    ensures waiter.Sleeping? ==> SomeSleeping(waiters[i := waiter])
    ensures waiter.Notified? ==> SomeNotified(waiters[i := waiter])
    ensures SomeSleeping(waiters[i := waiter]) ==> waiter.Sleeping? || SomeSleeping(waiters)
    ensures SomeNotified(waiters[i := waiter]) ==> waiter.Notified? || SomeNotified(waiters)
    ensures waiters[i].Sleeping? ==> SomeSleeping(waiters)
    ensures waiters[i].Notified? ==> SomeNotified(waiters)
  {
    var after := waiters[i := waiter];
    assert after[i] == waiter;
    if j :| 0 <= j < |after| && after[j].Sleeping? {
      assert j == i || waiters[j] == after[j];
    }
    if j :| 0 <= j < |after| && after[j].Notified? {
      assert j == i || waiters[j] == after[j];
    }
  }

  lemma NotifiedWaiters(waiters: seq<Waiter>)
    ensures !SomeSleeping(NotifyAll(waiters))
  {
  }

  /** The steps that change where a waiter is. */
  predicate MovesWaiter(step: Step) {
    step.EnterWait? || step.Recheck? || step.WaiterWakes? || step.WorkerFinish?
  }

  lemma WaitersStay(s: State, step: Step)
    requires Enabled(s, step) && !MovesWaiter(step)
    ensures Apply(s, step).waiters == s.waiters && Apply(s, step).sh.waiting == s.sh.waiting
  {
    hide SomeAsleep;
  }

  /** What the other steps do to the awaited condition. */
  ghost predicate DoneAfter(s: State, step: Step) {
    match step
    case Push => Done(s.sh) && s.sh.paused
    case Unpause => Done(s.sh) && s.sh.tasks == []
    case Pause => s.sh.tasksRunning == 0
    case Purge => s.sh.tasksRunning == 0
    case CallReset(_) => s.sh.tasksRunning == 0
    case EndJoin =>
      if s.owner.Joining? && s.owner.job.Reset? then s.owner.job.wasPaused || s.sh.tasks == [] else Done(s.sh)
    case _ => Done(s.sh)
  }

  lemma DoneOfStep(s: State, step: Step)
    requires Inv(s) && Enabled(s, step) && !MovesWaiter(step)
    ensures Done(Apply(s, step).sh) <==> DoneAfter(s, step)
  {
    hide Conserved, Dispatched, InOrder, Staffed, SomeAsleep, WakeAll;
    if step.EndJoin? {
      AllExitedHoldsNothing(s, IsBusy);
    }
  }

  lemma WaiterStep(s: State, step: Step)
    requires Inv(s) && WaiterInv(s) && Enabled(s, step) && MovesWaiter(step)
    ensures WaiterInv(Apply(s, step)) <==> Calm(s, step)
  {
    hide Inv, SomeSleeping, SomeNotified, SomeAsleep;
    match step
    case EnterWait(i) => WaiterMoves(s.waiters, i, Apply(s, step).waiters[i]);
    case Recheck(i) => WaiterMoves(s.waiters, i, Apply(s, step).waiters[i]);
    case WaiterWakes(i) => WaiterMoves(s.waiters, i, Notified);
    case WorkerFinish(w) => NotifiedWaiters(s.waiters);
  }

  /** From a state in which every sleeper is accounted for, a step keeps it so if and only if the
      step respects the guard, with any number of waiters. */
  lemma WaiterInvIffCalm(s: State, step: Step)
    requires Inv(s) && WaiterInv(s) && Enabled(s, step)
    ensures WaiterInv(Apply(s, step)) <==> Calm(s, step)
  {
    if MovesWaiter(step) {
      WaiterStep(s, step);
    } else {
      WaitersStay(s, step);
      DoneOfStep(s, step);
      EndJoinDone(s, step);
      hide Apply, Inv, SomeSleeping;
    }
  }

  /** Nothing runs when the joins are over. */
  lemma EndJoinDone(s: State, step: Step)
    requires Inv(s) && Enabled(s, step)
    ensures step.EndJoin? ==> s.sh.tasksRunning == 0
  {
    if step.EndJoin? {
      AllExitedHoldsNothing(s, IsBusy);
    }
  }

  ghost predicate CalmRun(s: State, steps: seq<Step>)
    requires Runs(s, steps)
    decreases |steps|
  {
    steps != [] ==> Calm(s, steps[0]) && CalmRun(Apply(s, steps[0]), steps[1..])
  }

  lemma {:induction false} CalmRunKeeps(s: State, steps: seq<Step>)
    requires Inv(s) && WaiterInv(s) && Runs(s, steps) && CalmRun(s, steps)
    ensures Inv(Final(s, steps)) && WaiterInv(Final(s, steps))
    decreases |steps|
  {
    hide Inv, WaiterInv, Calm, Enabled, Apply;
    if steps != [] {
      InvStep(s, steps[0]);
      WaiterInvIffCalm(s, steps[0]);
      CalmRunKeeps(Apply(s, steps[0]), steps[1..]);
    }
  }

  /** A sleeper nobody has notified is waiting for a worker that holds a task, or for an unpaused
      queue that is not empty: over every run that respects the guard, with any number of waiters. */
  lemma NoLostWaiter(start: State, threadCount: nat, clients: nat, steps: seq<Step>, i: nat)
    requires Init(start, threadCount, clients) && Runs(start, steps) && CalmRun(start, steps)
    requires i < |Final(start, steps).waiters| && Final(start, steps).waiters[i].Sleeping?
    ensures
      var s := Final(start, steps);
      || (exists w :: 0 <= w < |s.workers| && (s.workers[w].Executing? || s.workers[w].Returned?))
      || (!s.sh.paused && s.sh.tasks != [])
  {
    InvInit(start, threadCount, clients);
    CalmRunKeeps(start, steps);
    var s := Final(start, steps);
    TallyPositive(s.workers, IsBusy);
    if Tally(s.workers, IsBusy) > 0 {
      var w :| 0 <= w < |s.workers| && Fits(s.workers[w], IsBusy);
      assert s.workers[w].Executing? || s.workers[w].Returned?;
    }
  }

  // The guard as a caller sees it

  /** A waiter that has been notified finds its predicate true, or the flag still up. */
  ghost predicate NotifiedInv(s: State) {
    SomeNotified(s.waiters) ==> Done(s.sh) || s.sh.waiting
  }

  /** The same guard in terms of calls only: instead of the recheck that goes wrong, the push, the unpause
      or the end of a reset that makes it go wrong, by making the predicate false under a notified waiter
      whose flag another waiter has lowered. */
  ghost predicate CallerCalm(s: State, step: Step) {
    match step
    case Push => SomeNotified(s.waiters) ==> s.sh.waiting || s.sh.paused
    case Unpause => SomeNotified(s.waiters) ==> s.sh.waiting || s.sh.tasks == []
    case EndJoin =>
      s.owner.Joining? && s.owner.job.Reset? ==>
        if s.owner.job.wasPaused then !SomeSleeping(s.waiters)
        else SomeNotified(s.waiters) ==> s.sh.waiting || s.sh.tasks == []
    case Recheck(_) => true
    case _ => Calm(s, step)
  }

  lemma CallerStep(s: State, step: Step)
    requires Inv(s) && WaiterInv(s) && NotifiedInv(s) && Enabled(s, step) && MovesWaiter(step)
    ensures Calm(s, step) && NotifiedInv(Apply(s, step))
  {
    hide SomeSleeping, SomeNotified, SomeAsleep;
    match step
    case EnterWait(i) => WaiterMoves(s.waiters, i, Apply(s, step).waiters[i]);
    case Recheck(i) => WaiterMoves(s.waiters, i, Apply(s, step).waiters[i]);
    case WaiterWakes(i) => WaiterMoves(s.waiters, i, Notified);
    case WorkerFinish(w) => BusyRuns(s, w);
  }

  lemma BusyRuns(s: State, w: nat)
    requires Inv(s) && w < |s.workers| && s.workers[w].Returned?
    ensures s.sh.tasksRunning > 0
  {
    assert Fits(s.workers[w], IsBusy);
    TallyPositive(s.workers, IsBusy);
  }

  /** Exactly the calls that respect this guard keep every waiter accounted for, asleep or notified. */
  lemma CallerInvIffCalm(s: State, step: Step)
    requires Inv(s) && WaiterInv(s) && NotifiedInv(s) && Enabled(s, step)
    ensures WaiterInv(Apply(s, step)) && NotifiedInv(Apply(s, step)) <==> CallerCalm(s, step)
  {
    WaiterInvIffCalm(s, step);
    if MovesWaiter(step) {
      CallerStep(s, step);
    } else {
      WaitersStay(s, step);
      DoneOfStep(s, step);
      EndJoinDone(s, step);
      hide Apply, Inv, SomeSleeping, SomeNotified;
    }
  }

  ghost predicate CallerCalmRun(s: State, steps: seq<Step>)
    requires Runs(s, steps)
    decreases |steps|
  {
    steps != [] ==> CallerCalm(s, steps[0]) && CallerCalmRun(Apply(s, steps[0]), steps[1..])
  }

  /** Callers that respect their guard never bring a waiter to a recheck that breaks the first one. */
  lemma {:induction false} CallersKeepCalm(s: State, steps: seq<Step>)
    requires Inv(s) && WaiterInv(s) && NotifiedInv(s) && Runs(s, steps) && CallerCalmRun(s, steps)
    ensures CalmRun(s, steps)
    decreases |steps|
  {
    hide Inv, WaiterInv, NotifiedInv, Calm, CallerCalm, Enabled, Apply;
    if steps != [] {
      InvStep(s, steps[0]);
      CallerInvIffCalm(s, steps[0]);
      WaiterInvIffCalm(s, steps[0]);
      CallersKeepCalm(Apply(s, steps[0]), steps[1..]);
    }
  }

  /** The rule for callers: push, unpause and reset only while no waiter is on its way out, and pause, purge
      and reset under a sleeping waiter only while a task is running. */
  ghost predicate Courteous(s: State, step: Step) {
    && (step.Push? || step.Unpause? || step.EndJoin? ==> !SomeNotified(s.waiters))
    && (step.Pause? || step.Purge? || step.CallReset? ==> SomeSleeping(s.waiters) ==> s.sh.tasksRunning > 0)
    && (step.EndJoin? ==> !SomeSleeping(s.waiters))
  }

  lemma CourteousIsCalm(s: State, step: Step)
    requires Courteous(s, step)
    ensures CallerCalm(s, step)
  {
    hide SomeSleeping, SomeNotified;
  }

  /** What a return from wait_for_tasks guarantees: unless the pool is paused, every task pushed so
      far has completed or was purged. */
  lemma WaitReturnsWhenAllDone(s: State, step: Step, task: Task)
    requires Reachable(s) && Enabled(s, step) && (step.EnterWait? || step.Recheck?)
    requires Apply(s, step).waiters[step.i].Outside? && !s.sh.paused && task < s.pushed
    ensures task in s.completed || task in s.purged
  {
    ReachableInv(s);
    ExactlyOnePlace(s, task);
    TallyPositive(s.workers, IsBusy);
    assert s.sh.tasksRunning == 0 && s.sh.tasks == [];
    assert forall w :: 0 <= w < |s.workers| ==> !Fits(s.workers[w], IsBusy);
  }

  // Settling

  /** A step taken by the pool itself: a worker that does something, or a notification owed. */
  ghost predicate Internal(s: State, step: Step) {
    || step.NotifyOne?
    || (step.WorkerTurn? && !TurnOf(s.sh).Retry?)
    || step.TaskReturns?
    || step.WorkerFinish?
  }

  function Work(s: State): nat {
    3 * |s.sh.tasks| + 2 * s.owed
    + Tally(s.workers, IsReady) + 2 * Tally(s.workers, IsBusy) + Tally(s.workers, IsExecuting)
  }

  lemma MoveWorker(workers: seq<Worker>, w: nat, worker: Worker)
    requires w < |workers|
    ensures forall kind: Kind ::
      Tally(workers[w := worker], kind) == Tally(workers, kind) - Is(workers[w], kind) + Is(worker, kind)
  {
    forall kind: Kind {
      TallyUpdate(workers, w, worker, kind);
    }
  }

  lemma WorkDecreases(s: State, step: Step)
    requires Enabled(s, step) && Internal(s, step)
    ensures Work(Apply(s, step)) < Work(s)
  {
    match step
    case NotifyOne(w) => if SomeAsleep(s.workers) { MoveWorker(s.workers, w, Ready); }
    case WorkerTurn(w) => MoveWorker(s.workers, w, Apply(s, step).workers[w]);
    case TaskReturns(w) => MoveWorker(s.workers, w, Returned(s.workers[w].task));
    case WorkerFinish(w) => MoveWorker(s.workers, w, Ready);
    case _ =>
  }

  ghost predicate InternalRun(s: State, steps: seq<Step>)
    requires Runs(s, steps)
    decreases |steps|
  {
    steps != [] ==> Internal(s, steps[0]) && InternalRun(Apply(s, steps[0]), steps[1..])
  }

  /** Left to itself the pool stops after at most Work(s) steps, whatever the schedule. */
  lemma {:induction false} PoolSettles(s: State, steps: seq<Step>)
    requires Runs(s, steps) && InternalRun(s, steps)
    ensures |steps| <= Work(s)
    decreases |steps|
  {
    if steps != [] {
      WorkDecreases(s, steps[0]);
      PoolSettles(Apply(s, steps[0]), steps[1..]);
    }
  }

  /** And where it stops, unpaused, the queue is empty, no task is running, every task pushed is
      completed or purged, and no guarded waiter is still asleep: every wait returns. */
  lemma SettledMeansDone(s: State, task: Task)
    requires Inv(s) && s.sh.workersRunning && |s.workers| >= 1 && !s.sh.paused
    requires forall step :: Enabled(s, step) ==> !Internal(s, step)
    ensures s.sh.tasks == [] && s.sh.tasksRunning == 0
    ensures task < s.pushed ==> task in s.completed || task in s.purged
    ensures WaiterInv(s) ==> !SomeSleeping(s.waiters)
  {
    forall w | 0 <= w < |s.workers|
      ensures s.workers[w].Asleep?
    {
      assert Enabled(s, WorkerTurn(w)) ==> !Internal(s, WorkerTurn(w));
      assert Enabled(s, TaskReturns(w)) ==> !Internal(s, TaskReturns(w));
      assert Enabled(s, WorkerFinish(w)) ==> !Internal(s, WorkerFinish(w));
    }
    assert s.workers[0].Asleep?;
    assert Enabled(s, NotifyOne(0)) ==> !Internal(s, NotifyOne(0));
    TallyPositive(s.workers, IsReady);
    TallyPositive(s.workers, IsBusy);
    TallyPositive(s.workers, Holds(task));
    assert Places(s, task) == if task < s.pushed then 1 else 0;
  }

  /** Where it stops, paused or not, no task runs and every worker is asleep, unless it is kept busy by tasks
      queued in a paused pool: a worker with nothing in the queue never spins. */
  lemma SettledWorkers(s: State, w: nat)
    requires Inv(s) && s.sh.workersRunning && w < |s.workers|
    requires forall step :: Enabled(s, step) ==> !Internal(s, step)
    ensures s.workers[w].Asleep? || (s.workers[w].Ready? && s.sh.paused && s.sh.tasks != [])
    ensures s.sh.tasksRunning == 0
  {
    forall v | 0 <= v < |s.workers|
      ensures s.workers[v].Asleep? || (s.workers[v].Ready? && s.sh.paused && s.sh.tasks != [])
    {
      assert Enabled(s, WorkerTurn(v)) ==> !Internal(s, WorkerTurn(v));
      assert Enabled(s, TaskReturns(v)) ==> !Internal(s, TaskReturns(v));
      assert Enabled(s, WorkerFinish(v)) ==> !Internal(s, WorkerFinish(v));
    }
    TallyPositive(s.workers, IsBusy);
  }

  // When the guard is not respected

  /** The waiter sleeps although what it waits for holds, and no worker is left to say so. */
  ghost predicate Stranded(s: State, i: nat) {
    i < |s.waiters| && s.waiters[i].Sleeping? && s.sh.tasks == [] && s.sh.tasksRunning == 0
  }

  /** Nothing but a new task or a spurious wakeup gets a stranded waiter out. */
  lemma StrandedStays(s: State, step: Step, i: nat)
    requires Inv(s) && Stranded(s, i) && Enabled(s, step)
    requires !step.Push? && step != WaiterWakes(i)
    ensures Done(s.sh) && Stranded(Apply(s, step), i)
  {
    TallyPositive(s.workers, IsBusy);
    assert forall w :: 0 <= w < |s.workers| ==> !Fits(s.workers[w], IsBusy);
  }

  function Fresh(threadCount: nat, clients: nat): State {
    State(Shared([], 0, false, false, false), [], threadCount, Creating,
          seq(clients, _ => Outside), 0, 0, [], [], [])
  }

  lemma FreshReachable(threadCount: nat, clients: nat)
    requires threadCount >= 1 && clients >= 1
    ensures Reachable(Fresh(threadCount, clients))
  {
    var s := Fresh(threadCount, clients);
    assert Init(s, threadCount, clients) && Runs(s, []) && s == Final(s, []);
  }

  /** A one-worker pool, unpaused and running, with its owner idle. */
  function Solo(
    worker: Worker, queue: seq<Task>, running: int, waiting: bool, waiters: seq<Waiter>, owed: nat,
    pushed: nat, dispatched: seq<Task>, completed: seq<Task>, purged: seq<Task>): State
  {
    State(Shared(queue, running, false, waiting, true), [worker], 1, Idle, waiters, owed,
          pushed, dispatched, completed, purged)
  }

  lemma Go(s: State, step: Step, s': State)
    requires Reachable(s) && Enabled(s, step) && Apply(s, step) == s'
    ensures Reachable(s')
  {
    ReachableStep(s, step);
  }

  lemma SoloReachable(clients: nat)
    requires clients >= 1
    ensures Reachable(Solo(Ready, [], 0, false, seq(clients, _ => Outside), 0, 0, [], [], []))
  {
    FreshReachable(1, clients);
    var s := Fresh(1, clients);
    ReachableStep(s, StartWorkers);
    ReachableStep(Apply(s, StartWorkers), Spawn);
  }

  lemma PurgedUnderWaiter() returns (s: State)
    ensures Reachable(s) && s == Solo(Ready, [], 0, true, [Outside, Sleeping], 1, 1, [], [], [0])
  {
    SoloReachable(2);
    var outside, asleep := [Outside, Outside], [Outside, Sleeping];
    assert seq(2, _ => Outside) == outside;
    var pushed := Solo(Ready, [0], 0, false, outside, 1, 1, [], [], []);
    Go(Solo(Ready, [], 0, false, outside, 0, 0, [], [], []), Push, pushed);
    var entered := Solo(Ready, [0], 0, true, asleep, 1, 1, [], [], []);
    Go(pushed, EnterWait(1), entered);
    s := Solo(Ready, [], 0, true, asleep, 1, 1, [], [], [0]);
    Go(entered, Purge, s);
  }

  /** Purging while another thread waits for an idle pool strands that thread. */
  lemma PurgeStrandsWaiter() returns (s: State)
    ensures Reachable(s) && Stranded(s, 1) && s.workers == [Asleep] && s.owed == 0
  {
    var asleep := [Outside, Sleeping];
    var purged := PurgedUnderWaiter();
    var notified := Solo(Ready, [], 0, true, asleep, 0, 1, [], [], [0]);
    Go(purged, NotifyOne(0), notified);
    s := Solo(Asleep, [], 0, true, asleep, 0, 1, [], [], [0]);
    Go(notified, WorkerTurn(0), s);
  }

  lemma FirstAsleep() returns (s: State)
    ensures Reachable(s)
    ensures s == Solo(Executing(0), [], 1, true, [Outside, Sleeping, Outside], 1, 1, [0], [], [])
  {
    SoloReachable(3);
    var outside := [Outside, Outside, Outside];
    assert seq(3, _ => Outside) == outside;
    var pushed := Solo(Ready, [0], 0, false, outside, 1, 1, [], [], []);
    Go(Solo(Ready, [], 0, false, outside, 0, 0, [], [], []), Push, pushed);
    var taken := Solo(Executing(0), [], 1, false, outside, 1, 1, [0], [], []);
    Go(pushed, WorkerTurn(0), taken);
    s := Solo(Executing(0), [], 1, true, [Outside, Sleeping, Outside], 1, 1, [0], [], []);
    Go(taken, EnterWait(1), s);
  }

  lemma BothNotified() returns (s: State)
    ensures Reachable(s)
    ensures s == Solo(Ready, [], 0, true, [Outside, Notified, Notified], 1, 1, [0], [0], [])
  {
    var first := FirstAsleep();
    var both := Solo(Executing(0), [], 1, true, [Outside, Sleeping, Sleeping], 1, 1, [0], [], []);
    Go(first, EnterWait(2), both);
    var returned := Solo(Returned(0), [], 1, true, [Outside, Sleeping, Sleeping], 1, 1, [0], [0], []);
    Go(both, TaskReturns(0), returned);
    s := Solo(Ready, [], 0, true, [Outside, Notified, Notified], 1, 1, [0], [0], []);
    Go(returned, WorkerFinish(0), s);
  }

  lemma SecondSleepsUnflagged() returns (s: State)
    ensures Reachable(s)
    ensures s == Solo(Executing(1), [], 1, false, [Outside, Outside, Sleeping], 2, 2, [0, 1], [0], [])
  {
    var both := BothNotified();
    var first := Solo(Ready, [], 0, false, [Outside, Outside, Notified], 1, 1, [0], [0], []);
    Go(both, Recheck(1), first);
    var pushed := Solo(Ready, [1], 0, false, [Outside, Outside, Notified], 2, 2, [0], [0], []);
    Go(first, Push, pushed);
    var taken := Solo(Executing(1), [], 1, false, [Outside, Outside, Notified], 2, 2, [0, 1], [0], []);
    Go(pushed, WorkerTurn(0), taken);
    s := Solo(Executing(1), [], 1, false, [Outside, Outside, Sleeping], 2, 2, [0, 1], [0], []);
    Go(taken, Recheck(2), s);
  }

  /** Two threads in wait_for_tasks at once: the first to return lowers the flag under the second,
      which then sleeps through the end of the next task. */
  lemma SecondWaiterStranded() returns (s: State)
    ensures Reachable(s) && Stranded(s, 2) && s.workers == [Asleep] && s.owed == 0 && !s.sh.paused
    ensures s.purged == [] && s.completed == [0, 1] && s.pushed == 2
  {
    var waiters := [Outside, Outside, Sleeping];
    var unflagged := SecondSleepsUnflagged();
    var returned := Solo(Returned(1), [], 1, false, waiters, 2, 2, [0, 1], [0, 1], []);
    Go(unflagged, TaskReturns(0), returned);
    var finished := Solo(Ready, [], 0, false, waiters, 2, 2, [0, 1], [0, 1], []);
    Go(returned, WorkerFinish(0), finished);
    var owedOne := Solo(Ready, [], 0, false, waiters, 1, 2, [0, 1], [0, 1], []);
    Go(finished, NotifyOne(0), owedOne);
    var owedNone := Solo(Ready, [], 0, false, waiters, 0, 2, [0, 1], [0, 1], []);
    Go(owedOne, NotifyOne(0), owedNone);
    s := Solo(Asleep, [], 0, false, waiters, 0, 2, [0, 1], [0, 1], []);
    Go(owedNone, WorkerTurn(0), s);
  }
}
