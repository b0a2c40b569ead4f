/** reset() and the destructor, under the one thread that owns the pool, while other threads push. */
module PoolLifeCycle {
  import opened PoolSections
  import opened PoolProtocol
  import opened PoolInvariants
  import opened PoolWaiters

  predicate InCycle(owner: Owner) {
    match owner
    case Waits(job) => !job.PlainWait?
    case Stopping(_) => true
    case Waking(_) => true
    case Joining(_, _) => true
    case Gone(_) => true
    case _ => false
  }

  function JobOf(owner: Owner): Job
    requires InCycle(owner)
  {
    owner.job
  }

  function Tickets(lo: nat, hi: nat): (tickets: seq<Task>)
    requires lo <= hi
    ensures |tickets| == hi - lo && forall i :: 0 <= i < |tickets| ==> tickets[i] == lo + i
  {
    seq(hi - lo, i requires 0 <= i < hi - lo => lo + i)
  }

  // Joining

  /** Once the workers have been told to stop and notified, none of them is asleep, and the one the
      owner joins next has either exited or can step. */
  lemma JoinCannotBlock(s: State)
    requires Reachable(s) && s.owner.Joining?
    ensures !SomeAsleep(s.workers)
    ensures s.owner.next == |s.workers| ==> Enabled(s, EndJoin)
    ensures s.owner.next < |s.workers| ==>
      var w := s.owner.next;
      Enabled(s, JoinNext) || Enabled(s, WorkerTurn(w)) || Enabled(s, TaskReturns(w)) || Enabled(s, WorkerFinish(w))
  {
    ReachableInv(s);
    if s.owner.next < |s.workers| {
      assert !s.workers[s.owner.next].Asleep?;
    }
  }

  function StepsToExit(s: State): nat {
    Tally(s.workers, IsReady) + 2 * Tally(s.workers, IsBusy) + Tally(s.workers, IsExecuting)
  }

  /** While the owner joins, every step of a worker brings the end nearer and no other step puts it
      off, so the joins return after at most StepsToExit(s) steps of the workers. */
  lemma JoinProgress(s: State, step: Step)
    requires Inv(s) && s.owner.Joining? && Enabled(s, step) && !step.EndJoin?
    ensures step.WorkerTurn? || step.TaskReturns? || step.WorkerFinish? ==>
      StepsToExit(Apply(s, step)) < StepsToExit(s)
    ensures !(step.WorkerTurn? || step.TaskReturns? || step.WorkerFinish?) ==>
      StepsToExit(Apply(s, step)) == StepsToExit(s)
    ensures Apply(s, step).owner.Joining?
  {
    match step
    case WorkerTurn(w) => MoveWorker(s.workers, w, Exited);
    case TaskReturns(w) => MoveWorker(s.workers, w, Returned(s.workers[w].task));
    case WorkerFinish(w) => MoveWorker(s.workers, w, Ready);
    case _ =>
  }

  // Reset

  /** While reset is under way: the queue it found is untouched and only grows at the back. */
  ghost predicate ResetInv(s: State) {
    InCycle(s.owner) && JobOf(s.owner).Reset? ==>
      var job := JobOf(s.owner);
      && job.pushedThen <= s.pushed
      && s.sh.paused
      && s.dispatched == job.dispatchedThen
      && s.sh.tasks == job.queueThen + Tickets(job.pushedThen, s.pushed)
      && (!s.owner.Waits? ==> s.sh.tasksRunning == 0)
  }

  /** reset is disturbed by unpausing, and by purging a queue that is not empty; by nothing else. */
  predicate DisturbsReset(s: State, step: Step) {
    InCycle(s.owner) && JobOf(s.owner).Reset? && (step.Unpause? || (step.Purge? && s.sh.tasks != []))
  }

  lemma ResetInvIff(s: State, step: Step)
    requires Inv(s) && ResetInv(s) && Enabled(s, step)
    ensures ResetInv(Apply(s, step)) <==> !DisturbsReset(s, step)
  {
    if InCycle(s.owner) && JobOf(s.owner).Reset? {
      var job := JobOf(s.owner);
      var s' := Apply(s, step);
      match step
      case Push =>
        assert Tickets(job.pushedThen, s.pushed) + [s.pushed] == Tickets(job.pushedThen, s.pushed + 1);
        assert s'.sh.tasks == job.queueThen + (Tickets(job.pushedThen, s.pushed) + [s.pushed]);
      case WorkerFinish(w) => NoneBusy(s, w);
      case Purge =>
        assert s.sh.tasks != [] ==> |s'.sh.tasks| != |job.queueThen + Tickets(job.pushedThen, s'.pushed)|;
      case _ =>
    }
  }

  lemma NoneBusy(s: State, w: nat)
    requires Counted(s) && w < |s.workers| && s.workers[w].Returned?
    ensures s.sh.tasksRunning != 0
  {
    assert Fits(s.workers[w], IsBusy);
    TallyPositive(s.workers, IsBusy);
  }

  /** A run during which the owner stays in its job and nobody disturbs it. */
  ghost predicate Undisturbed(s: State, steps: seq<Step>)
    requires Runs(s, steps)
    decreases |steps|
  {
    steps != [] ==>
      && !steps[0].EndJoin? && !DisturbsReset(s, steps[0]) && !DisturbsDestroy(s, steps[0])
      && Undisturbed(Apply(s, steps[0]), steps[1..])
  }

  lemma JobStays(s: State, step: Step)
    requires Enabled(s, step) && InCycle(s.owner) && !step.EndJoin?
    ensures InCycle(Apply(s, step).owner) && JobOf(Apply(s, step).owner) == JobOf(s.owner)
  {
  }

  lemma {:induction false} UndisturbedKeeps(s: State, steps: seq<Step>)
    requires Inv(s) && ResetInv(s) && DestroyInv(s) && InCycle(s.owner)
    requires Runs(s, steps) && Undisturbed(s, steps)
    ensures
      var end := Final(s, steps);
      Inv(end) && ResetInv(end) && DestroyInv(end) && InCycle(end.owner) && JobOf(end.owner) == JobOf(s.owner)
    decreases |steps|
  {
    if steps != [] {
      InvStep(s, steps[0]);
      ResetInvIff(s, steps[0]);
      DestroyInvIff(s, steps[0]);
      JobStays(s, steps[0]);
      UndisturbedKeeps(Apply(s, steps[0]), steps[1..]);
    }
  }

  /** reset, from the call to the end of the joins: every task queued at the call is still queued, in
      the same order, followed by exactly the tasks pushed meanwhile; nothing was dequeued, nothing
      runs, and the pause flag is what it was. */
  lemma ResetKeepsTheQueue(s: State, newCount: nat, steps: seq<Step>) returns (after: State)
    requires Inv(s) && Enabled(s, CallReset(newCount))
    requires
      var called := Apply(s, CallReset(newCount));
      Runs(called, steps) && Undisturbed(called, steps) && Enabled(Final(called, steps), EndJoin)
    ensures after == Apply(Final(Apply(s, CallReset(newCount)), steps), EndJoin)
    ensures s.pushed <= after.pushed
    ensures after.sh.tasks == s.sh.tasks + Tickets(s.pushed, after.pushed)
    ensures after.dispatched == s.dispatched
    ensures after.sh.paused == s.sh.paused
    ensures after.sh.tasksRunning == 0 && after.workers == [] && after.threadCount == newCount
    ensures Inv(after)
  {
    var called := Apply(s, CallReset(newCount));
    InvStep(s, CallReset(newCount));
    assert called.sh.tasks == s.sh.tasks + Tickets(s.pushed, s.pushed);
    UndisturbedKeeps(called, steps);
    after := Apply(Final(called, steps), EndJoin);
    InvStep(Final(called, steps), EndJoin);
  }

  // Destruction

  /** While the destructor runs.  A pool that was paused keeps the queue it had; otherwise the queue
      is empty, and nothing runs, from the moment the destructor's wait returns. */
  ghost predicate DestroyInv(s: State) {
    InCycle(s.owner) && JobOf(s.owner).Destroy? ==>
      var job := JobOf(s.owner);
      && s.sh.paused == job.pausedThen
      && (job.pausedThen ==> job.queueThen <= s.sh.tasks)
      && (!job.pausedThen && !s.owner.Waits? ==> s.sh.tasks == [])
      && (!s.owner.Waits? ==> s.sh.tasksRunning == 0)
  }

  predicate DisturbsDestroy(s: State, step: Step) {
    InCycle(s.owner) && JobOf(s.owner).Destroy? &&
    var pausedThen := JobOf(s.owner).pausedThen;
    match step
    case Pause => !pausedThen
    case Unpause => pausedThen
    case Purge => pausedThen && JobOf(s.owner).queueThen != []
    case Push => !pausedThen && !s.owner.Waits?
    case _ => false
  }

  lemma DestroyInvIff(s: State, step: Step)
    requires Inv(s) && DestroyInv(s) && Enabled(s, step)
    ensures DestroyInv(Apply(s, step)) <==> !DisturbsDestroy(s, step)
  {
    hide Conserved, Dispatched, InOrder, Staffed;
    if step.WorkerFinish? {
      NoneBusy(s, step.w);
    }
  }

  /** The destructor, from the call to the end of the joins.  A pool that was not paused has
      completed every unpurged task exactly once; one that was paused has kept the queue it had and
      never runs what is in it. */
  lemma DestroyOutcome(s: State, steps: seq<Step>, task: Task) returns (after: State)
    requires Reachable(s) && Enabled(s, CallDestroy)
    requires
      var called := Apply(s, CallDestroy);
      Runs(called, steps) && Undisturbed(called, steps) && Enabled(Final(called, steps), EndJoin)
    ensures after == Apply(Final(Apply(s, CallDestroy), steps), EndJoin)
    ensures after.owner.Gone?
    ensures !s.sh.paused ==> after.sh.tasks == []
    ensures !s.sh.paused && task < after.pushed && task !in after.purged ==>
      multiset(after.completed)[task] == 1
    ensures s.sh.paused ==> s.sh.tasks <= after.sh.tasks
    ensures task in after.sh.tasks ==> task !in after.completed && task !in after.dispatched
  {
    var called := Apply(s, CallDestroy);
    ReachableInv(s);
    ReachableStep(s, CallDestroy);
    InvStep(s, CallDestroy);
    UndisturbedKeeps(called, steps);
    ReachableRun(called, steps);
    after := DestroyEnds(Final(called, steps), task);
  }

  lemma DestroyEnds(end: State, task: Task) returns (after: State)
    requires Reachable(end) && Enabled(end, EndJoin) && DestroyInv(end) && end.owner.job.Destroy?
    ensures after == Apply(end, EndJoin) && after.owner.Gone?
    ensures !end.owner.job.pausedThen ==> after.sh.tasks == []
    ensures !end.owner.job.pausedThen && task < after.pushed && task !in after.purged ==>
      multiset(after.completed)[task] == 1
    ensures end.owner.job.pausedThen ==> end.owner.job.queueThen <= after.sh.tasks
    ensures task in after.sh.tasks ==> task !in after.completed && task !in after.dispatched
  {
    ReachableInv(end);
    AllExitedHoldsNothing(end, Holds(task));
    assert Places(end, task) == if task < end.pushed then 1 else 0;
    ExactlyOnePlace(end, task);
    after := Apply(end, EndJoin);
  }

  lemma {:induction false} ReachableRun(s: State, steps: seq<Step>)
    requires Reachable(s) && Runs(s, steps)
    ensures Reachable(Final(s, steps))
    decreases |steps|
  {
    if steps != [] {
      ReachableStep(s, steps[0]);
      ReachableRun(Apply(s, steps[0]), steps[1..]);
    }
  }

  function Stopped(worker: Worker, owner: Owner): State {
    State(Shared([0], 0, false, false, false), [worker], 1, owner, [Outside], 1, 1, [], [], [])
  }

  lemma LatePushMade(job: Job)
    requires job == Destroy(false, [])
    ensures Reachable(Solo(Ready, [0], 0, false, [Outside], 1, 1, [], [], []).(owner := Stopping(job)))
  {
    SoloReachable(1);
    assert seq(1, _ => Outside) == [Outside];
    var idle := Solo(Ready, [], 0, false, [Outside], 0, 0, [], [], []);
    Go(idle, CallDestroy, idle.(owner := Waits(job)));
    Go(idle.(owner := Waits(job)), EnterWait(0), idle.(owner := Stopping(job)));
    var pushed := Solo(Ready, [0], 0, false, [Outside], 1, 1, [], [], []);
    Go(idle.(owner := Stopping(job)), Push, pushed.(owner := Stopping(job)));
  }

  lemma LatePushIgnored(job: Job)
    requires job == Destroy(false, [])
    ensures Reachable(Stopped(Exited, Joining(job, 0)))
  {
    LatePushMade(job);
    var pushed := Solo(Ready, [0], 0, false, [Outside], 1, 1, [], [], []).(owner := Stopping(job));
    Go(pushed, StopWorkers, Stopped(Ready, Waking(job)));
    assert WakeAll([Ready]) == [Ready];
    Go(Stopped(Ready, Waking(job)), WakeWorkers, Stopped(Ready, Joining(job, 0)));
    assert [Ready][0 := Exited] == [Exited];
    Go(Stopped(Ready, Joining(job, 0)), WorkerTurn(0), Stopped(Exited, Joining(job, 0)));
  }

  /** A push that slips in after the destructor's wait has returned can be lost. */
  lemma LatePushIsLost() returns (s: State)
    ensures Reachable(s) && s.owner.Gone? && !s.sh.paused
    ensures s.pushed == 1 && s.sh.tasks == [0] && s.completed == [] && s.purged == []
  {
    var job := Destroy(false, []);
    LatePushIgnored(job);
    Go(Stopped(Exited, Joining(job, 0)), JoinNext, Stopped(Exited, Joining(job, 1)));
    s := Stopped(Exited, Gone(job));
    Go(Stopped(Exited, Joining(job, 1)), EndJoin, s);
  }

  /** But it need not be: a worker may still take it before it is told to stop. */
  lemma LatePushCanComplete() returns (s: State)
    ensures Reachable(s) && s.owner == Stopping(Destroy(false, []))
    ensures s.pushed == 1 && s.completed == [0] && s.sh.tasks == []
  {
    var job := Destroy(false, []);
    LatePushMade(job);
    var pushed := Solo(Ready, [0], 0, false, [Outside], 1, 1, [], [], []).(owner := Stopping(job));
    var taken := Solo(Executing(0), [], 1, false, [Outside], 1, 1, [0], [], []).(owner := Stopping(job));
    Go(pushed, WorkerTurn(0), taken);
    s := Solo(Returned(0), [], 1, false, [Outside], 1, 1, [0], [0], []).(owner := Stopping(job));
    Go(taken, TaskReturns(0), s);
  }

  // Exactly what the destructor loses

  /** The workers have been told to stop for good. */
  ghost predicate Down(s: State) {
    !s.sh.workersRunning &&
    match s.owner
    case Waking(job) => job.Destroy?
    case Joining(job, _) => job.Destroy?
    case Gone(job) => job.Destroy?
    case _ => false
  }

  /** From then on nothing is dequeued: the queue only grows at the back and is purged from the front. */
  ghost predicate OnlyPurged(before: State, after: State) {
    && before.pushed <= after.pushed && after.dispatched == before.dispatched && before.purged <= after.purged
    && after.purged[|before.purged|..] + after.sh.tasks == before.sh.tasks + Tickets(before.pushed, after.pushed)
  }

  lemma DownStep(s: State, step: Step)
    requires Down(s) && Enabled(s, step)
    ensures Down(Apply(s, step)) && OnlyPurged(s, Apply(s, step))
  {
    var s' := Apply(s, step);
    assert step.Push? ==> Tickets(s.pushed, s'.pushed) == [s.pushed];
    assert !step.Push? ==> Tickets(s.pushed, s'.pushed) == [];
    assert s'.purged[|s.purged|..] == if step.Purge? then s.sh.tasks else [];
  }

  lemma OnlyPurgedTwice(a: State, b: State, c: State)
    requires OnlyPurged(a, b) && OnlyPurged(b, c)
    ensures OnlyPurged(a, c)
  {
    var first, second := b.purged[|a.purged|..], c.purged[|b.purged|..];
    assert c.purged[|a.purged|..] == first + second by {
      assert c.purged[..|b.purged|] == b.purged;
    }
    var early, late := Tickets(a.pushed, b.pushed), Tickets(b.pushed, c.pushed);
    assert Tickets(a.pushed, c.pushed) == early + late;
    calc {
      (first + second) + c.sh.tasks;
      first + (second + c.sh.tasks);
      first + (b.sh.tasks + late);
      (first + b.sh.tasks) + late;
      (a.sh.tasks + early) + late;
      a.sh.tasks + (early + late);
    }
  }

  lemma {:induction false} DownRun(s: State, steps: seq<Step>)
    requires Down(s) && Runs(s, steps)
    ensures Down(Final(s, steps)) && OnlyPurged(s, Final(s, steps))
    decreases |steps|
  {
    hide Down, OnlyPurged, Enabled, Apply;
    if steps == [] {
      NothingPurged(s);
    } else {
      DownStep(s, steps[0]);
      DownRun(Apply(s, steps[0]), steps[1..]);
      OnlyPurgedTwice(s, Apply(s, steps[0]), Final(s, steps));
    }
  }

  lemma NothingPurged(s: State)
    ensures OnlyPurged(s, s)
  {
    assert Tickets(s.pushed, s.pushed) == [];
  }

  /** At the end of a destruction a task is lost, neither completed nor purged, exactly if it is still queued. */
  lemma LostIsQueued(s: State, task: Task)
    requires Reachable(s) && s.owner.Gone?
    ensures task < s.pushed && task !in s.completed && task !in s.purged <==> task in s.sh.tasks
  {
    ReachableInv(s);
    ExactlyOnePlace(s, task);
  }

  /** The destructor on every run, with pushes, pauses and purges at any time. From the moment its wait has
      returned and it tells the workers to stop, what it loses is exactly the queue at that moment and what
      is pushed later, less what is purged. Every unpurged task completes if and only if all of that is
      purged. */
  lemma DestroyLosesExactly(s: State, steps: seq<Step>)
    requires Reachable(s) && s.owner.Stopping? && s.owner.job.Destroy?
    requires Runs(Apply(s, StopWorkers), steps) && Final(Apply(s, StopWorkers), steps).owner.Gone?
    ensures
      var after := Final(Apply(s, StopWorkers), steps);
      && s.pushed <= after.pushed && after.dispatched == s.dispatched && s.purged <= after.purged
      && (forall task: Task :: task < after.pushed && task !in after.completed && task !in after.purged <==>
           task in s.sh.tasks + Tickets(s.pushed, after.pushed) && task !in after.purged)
      && ((forall task: Task :: task < after.pushed ==> task in after.completed || task in after.purged) <==>
           (forall task: Task :: task in s.sh.tasks + Tickets(s.pushed, after.pushed) ==> task in after.purged))
  {
    var down := Apply(s, StopWorkers);
    ReachableStep(s, StopWorkers);
    ReachableRun(down, steps);
    DownRun(down, steps);
    var after := Final(down, steps);
    forall task: Task
      ensures task < after.pushed && task !in after.completed && task !in after.purged <==>
        task in s.sh.tasks + Tickets(s.pushed, after.pushed) && task !in after.purged
    {
      LostIsQueued(after, task);
      LeftOver(s, after, task);
    }
  }

  lemma LeftOver(s: State, after: State, task: Task)
    requires OnlyPurged(s, after) && Reachable(after)
    ensures task in after.sh.tasks <==>
      task in s.sh.tasks + Tickets(s.pushed, after.pushed) && task !in after.purged
  {
    var gone := after.purged[|s.purged|..];
    assert task in gone ==> task in after.purged;
    assert task in gone + after.sh.tasks <==> task in gone || task in after.sh.tasks;
    ExactlyOnePlace(after, task);
  }
}
