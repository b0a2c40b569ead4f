/** What every interleaving of the pool keeps, with no assumption about who calls what when. */
module PoolInvariants {
  import opened PoolSections
  import opened PoolProtocol

  /** tasks_running is the number of workers between taking a task and decrementing the counter. */
  ghost predicate Counted(s: State) {
    s.sh.tasksRunning == Tally(s.workers, IsBusy)
  }

  function Count(tasks: seq<Task>, task: Task): nat {
    multiset(tasks)[task]
  }

  /** In how many places is this task: queued, in a worker's hands, completed, purged? */
  function Places(s: State, task: Task): nat {
    Count(s.sh.tasks, task) + Tally(s.workers, Holds(task)) + Count(s.completed, task) + Count(s.purged, task)
  }

  /** Conservation: a pushed task is in exactly one place, once; any other in none. */
  ghost predicate Conserved(s: State) {
    forall task: Task :: Places(s, task) == if task < s.pushed then 1 else 0
  }

  /** A task is dequeued as often as it is held or completed. */
  ghost predicate Dispatched(s: State) {
    forall task: Task :: DispatchedTask(s, task)
  }

  predicate DispatchedTask(s: State, task: Task) {
    Count(s.dispatched, task) == Tally(s.workers, Holds(task)) + Count(s.completed, task)
  }

  ghost predicate Increasing(tasks: seq<Task>) {
    forall i, j :: 0 <= i < j < |tasks| ==> tasks[i] < tasks[j]
  }

  /** Dequeuing follows push order, and what is still queued comes after all of it, in push order. */
  ghost predicate InOrder(s: State) {
    && Increasing(s.dispatched + s.sh.tasks)
    && forall i :: 0 <= i < |s.dispatched + s.sh.tasks| ==> (s.dispatched + s.sh.tasks)[i] < s.pushed
  }

  /** The owner's program counter agrees with the workers that exist. */
  ghost predicate Crewed(s: State) {
    && |s.waiters| >= 1
    && (Inside(s.waiters[0]) ==> s.owner.Waits?)
    && s.threadCount >= 1
    && (s.sh.workersRunning ==> forall w :: 0 <= w < |s.workers| ==> !s.workers[w].Exited?)
    && match s.owner
       case Creating => s.workers == [] && !s.sh.workersRunning
       case Spawning => s.sh.workersRunning && |s.workers| < s.threadCount
       case Idle => s.sh.workersRunning && |s.workers| == s.threadCount
       case Waits(job) => s.sh.workersRunning && |s.workers| == s.threadCount && (job.Reset? ==> job.newCount >= 1)
       case Stopping(job) => s.sh.workersRunning && |s.workers| == s.threadCount && LifeCycle(job)
       case Waking(job) => !s.sh.workersRunning && |s.workers| == s.threadCount && LifeCycle(job)
       case Joining(job, next) =>
         !s.sh.workersRunning && LifeCycle(job) && next <= |s.workers| == s.threadCount
         && !SomeAsleep(s.workers) && forall w :: 0 <= w < next ==> s.workers[w].Exited?
       case Gone(job) =>
         !s.sh.workersRunning && job.Destroy? && forall w :: 0 <= w < |s.workers| ==> s.workers[w].Exited?
  }

  predicate LifeCycle(job: Job) {
    job.Destroy? || (job.Reset? && job.newCount >= 1)
  }

  /** While any worker sleeps, every queued task has a worker of its own about to look at the queue,
      or a push that still owes its notification. */
  ghost predicate Staffed(s: State) {
    s.sh.workersRunning && SomeAsleep(s.workers) ==> |s.sh.tasks| <= s.owed + Tally(s.workers, IsReady)
  }

  ghost predicate Inv(s: State) {
    Counted(s) && Conserved(s) && Dispatched(s) && InOrder(s) && Crewed(s) && Staffed(s)
  }

  /** How a step changes the number of workers that are busy, or that hold one given task. */
  function TallyAfter(s: State, step: Step, kind: Kind): int
    requires Applicable(s, step)
  {
    var before := Tally(s.workers, kind);
    match step
    case WorkerTurn(_) => if TurnOf(s.sh).Take? then before + Is(Executing(s.sh.tasks[0]), kind) else before
    case TaskReturns(v) => before - Is(s.workers[v], kind) + Is(Returned(s.workers[v].task), kind)
    case WorkerFinish(v) => before - Is(s.workers[v], kind)
    case EndJoin => if s.owner.job.Reset? then 0 else before
    case _ => before
  }

  predicate Applicable(s: State, step: Step) {
    && (step.TaskReturns? ==> step.w < |s.workers| && s.workers[step.w].Executing?)
    && (step.WorkerFinish? ==> step.w < |s.workers|)
    && (step.EndJoin? ==> s.owner.Joining?)
  }

  /** A step of one worker changes that worker only. */
  predicate WorkerStep(step: Step) {
    step.NotifyOne? || step.WorkerTurn? || step.TaskReturns? || step.WorkerFinish? || step.WorkerWakes?
  }

  lemma TallyOfTurn(s: State, w: nat, kind: Kind)
    requires Enabled(s, WorkerTurn(w)) && (kind.IsBusy? || kind.Holds?)
    ensures Tally(Apply(s, WorkerTurn(w)).workers, kind) == TallyAfter(s, WorkerTurn(w), kind)
  {
    hide Tally, SomeAsleep;
    var turn := TurnOf(s.sh);
    if turn.Take? { TallyUpdate(s.workers, w, Executing(turn.task), kind); }
    if turn.Sleep? { TallyUpdate(s.workers, w, Asleep, kind); }
    if turn.Exit? { TallyUpdate(s.workers, w, Exited, kind); }
  }

  lemma TallyOfWorkerStep(s: State, step: Step, kind: Kind)
    requires Enabled(s, step) && WorkerStep(step) && (kind.IsBusy? || kind.Holds?)
    ensures Tally(Apply(s, step).workers, kind) == TallyAfter(s, step, kind)
  {
    hide Tally, SomeAsleep;
    match step
    case NotifyOne(w) => if SomeAsleep(s.workers) { TallyUpdate(s.workers, w, Ready, kind); }
    case WorkerTurn(w) => TallyOfTurn(s, w, kind);
    case TaskReturns(w) => TallyUpdate(s.workers, w, Returned(s.workers[w].task), kind);
    case WorkerFinish(w) => TallyUpdate(s.workers, w, Ready, kind);
    case WorkerWakes(w) => TallyUpdate(s.workers, w, Ready, kind);
  }

  lemma TallyOfStep(s: State, step: Step, kind: Kind)
    requires Enabled(s, step) && (kind.IsBusy? || kind.Holds?)
    ensures Tally(Apply(s, step).workers, kind) == TallyAfter(s, step, kind)
  {
    if WorkerStep(step) {
      TallyOfWorkerStep(s, step, kind);
    } else {
      TallyWakeAll(s.workers, kind);
      TallyAppend(s.workers, Ready, kind);
      assert Tally([], kind) == 0;
      hide Tally, SomeAsleep;
    }
  }

  /** Once every join has succeeded no worker holds a task. */
  lemma AllExitedHoldsNothing(s: State, kind: Kind)
    requires Crewed(s) && s.owner.Joining? && s.owner.next == |s.workers|
    requires kind.IsBusy? || kind.Holds?
    ensures Tally(s.workers, kind) == 0
  {
    TallyPositive(s.workers, kind);
  }

  lemma CountedStep(s: State, step: Step)
    requires Inv(s) && Enabled(s, step)
    ensures Counted(Apply(s, step))
  {
    TallyOfStep(s, step, IsBusy);
    if step.EndJoin? { AllExitedHoldsNothing(s, IsBusy); }
  }

  lemma CountAppend(a: seq<Task>, b: seq<Task>, task: Task)
    ensures Count(a + b, task) == Count(a, task) + Count(b, task)
  {
  }

  lemma CountFirst(tasks: seq<Task>, task: Task)
    requires tasks != []
    ensures Count(tasks, task) == Count([tasks[0]], task) + Count(tasks[1..], task)
  {
    assert tasks == [tasks[0]] + tasks[1..];
  }

  /** The steps that move a task from one place to another, or bring a new one. */
  predicate Moves(step: Step) {
    step.Push? || step.WorkerTurn? || step.TaskReturns? || step.Purge? || step.EndJoin?
  }

  lemma PlacesQuietStep(s: State, step: Step, task: Task)
    requires Enabled(s, step) && !Moves(step)
    ensures Apply(s, step).pushed == s.pushed && Places(Apply(s, step), task) == Places(s, task)
  {
    TallyOfStep(s, step, Holds(task));
  }

  lemma PlacesTurn(s: State, w: nat, task: Task)
    requires Enabled(s, WorkerTurn(w))
    ensures Places(ApplyWorkerTurn(s, w), task) == Places(s, task)
  {
    var turn := TurnOf(s.sh);
    if turn.Take? {
      TallyUpdate(s.workers, w, Executing(turn.task), Holds(task));
      CountFirst(s.sh.tasks, task);
    }
    if turn.Sleep? { TallyUpdate(s.workers, w, Asleep, Holds(task)); }
    if turn.Exit? { TallyUpdate(s.workers, w, Exited, Holds(task)); }
  }

  lemma PlacesReturn(s: State, w: nat, task: Task)
    requires Enabled(s, TaskReturns(w))
    ensures Places(Apply(s, TaskReturns(w)), task) == Places(s, task)
  {
    TallyUpdate(s.workers, w, Returned(s.workers[w].task), Holds(task));
    CountAppend(s.completed, [s.workers[w].task], task);
  }

  lemma PlacesStep(s: State, step: Step, task: Task)
    requires Crewed(s) && Enabled(s, step)
    ensures Places(Apply(s, step), task) == Places(s, task) + if step.Push? && task == s.pushed then 1 else 0
  {
    match step
    case Push => CountAppend(s.sh.tasks, [s.pushed], task);
    case WorkerTurn(w) => PlacesTurn(s, w, task);
    case TaskReturns(w) => PlacesReturn(s, w, task);
    case Purge => CountAppend(s.purged, s.sh.tasks, task);
    case EndJoin => AllExitedHoldsNothing(s, Holds(task));
    case _ => PlacesQuietStep(s, step, task);
  }

  lemma ConservedStep(s: State, step: Step)
    requires Inv(s) && Enabled(s, step)
    ensures Conserved(Apply(s, step))
  {
    forall task: Task
      ensures Places(Apply(s, step), task) == if task < Apply(s, step).pushed then 1 else 0
    {
      PlacesStep(s, step, task);
      assert Places(s, task) == if task < s.pushed then 1 else 0;
    }
  }

  lemma DispatchedTaskStep(s: State, step: Step, task: Task)
    requires Crewed(s) && Enabled(s, step) && DispatchedTask(s, task)
    ensures DispatchedTask(Apply(s, step), task)
  {
    TallyOfStep(s, step, Holds(task));
    match step
    case WorkerTurn(w) => if TurnOf(s.sh).Take? { CountAppend(s.dispatched, [s.sh.tasks[0]], task); }
    case TaskReturns(w) => CountAppend(s.completed, [s.workers[w].task], task);
    case EndJoin => AllExitedHoldsNothing(s, Holds(task));
    case _ =>
  }

  lemma DispatchedStep(s: State, step: Step)
    requires Inv(s) && Enabled(s, step)
    ensures Dispatched(Apply(s, step))
  {
    forall task: Task
      ensures DispatchedTask(Apply(s, step), task)
    {
      DispatchedTaskStep(s, step, task);
    }
  }

  lemma InOrderStep(s: State, step: Step)
    requires Inv(s) && Enabled(s, step)
    ensures InOrder(Apply(s, step))
  {
    var s' := Apply(s, step);
    var before, after := s.dispatched + s.sh.tasks, s'.dispatched + s'.sh.tasks;
    match step
    case Push => assert after == before + [s.pushed];
    case WorkerTurn(w) => assert after == before;
    case Purge => assert after == before[..|s.dispatched|];
    case _ => assert after == before;
  }

  lemma CrewedWorkerStep(s: State, step: Step)
    requires Crewed(s) && Enabled(s, step) && WorkerStep(step)
    ensures Crewed(Apply(s, step))
  {
    hide Tally, FinishNotifies;
  }

  lemma CrewedStep(s: State, step: Step)
    requires Crewed(s) && Enabled(s, step)
    ensures Crewed(Apply(s, step))
  {
    hide Tally;
    if WorkerStep(step) {
      CrewedWorkerStep(s, step);
    }
  }

  lemma StaffedStep(s: State, step: Step)
    requires Inv(s) && Enabled(s, step)
    ensures Staffed(Apply(s, step))
  {
    match step
    case NotifyOne(w) => if SomeAsleep(s.workers) { TallyUpdate(s.workers, w, Ready, IsReady); }
    case WorkerTurn(w) =>
      var turn := TurnOf(s.sh);
      if turn.Take? { TallyUpdate(s.workers, w, Executing(turn.task), IsReady); }
    case TaskReturns(w) => TallyUpdate(s.workers, w, Returned(s.workers[w].task), IsReady);
    case WorkerFinish(w) => TallyUpdate(s.workers, w, Ready, IsReady);
    case WorkerWakes(w) => TallyUpdate(s.workers, w, Ready, IsReady);
    case Spawn =>
      TallyAppend(s.workers, Ready, IsReady);
      if SomeAsleep(s.workers + [Ready]) {
        var w :| 0 <= w < |s.workers + [Ready]| && (s.workers + [Ready])[w].Asleep?;
        assert s.workers[w].Asleep?;
      }
    case _ =>
  }

  lemma InvStep(s: State, step: Step)
    requires Inv(s) && Enabled(s, step)
    ensures Inv(Apply(s, step))
  {
    CountedStep(s, step);
    ConservedStep(s, step);
    DispatchedStep(s, step);
    InOrderStep(s, step);
    CrewedStep(s, step);
    StaffedStep(s, step);
  }

  lemma InvInit(s: State, threadCount: nat, clients: nat)
    requires Init(s, threadCount, clients)
    ensures Inv(s)
  {
  }

  /** Every state of every run from a state in Inv is in Inv. */
  lemma {:induction false} InvRun(s: State, steps: seq<Step>)
    requires Inv(s) && Runs(s, steps)
    ensures Inv(Final(s, steps))
    decreases |steps|
  {
    if steps != [] {
      InvStep(s, steps[0]);
      InvRun(Apply(s, steps[0]), steps[1..]);
    }
  }

  ghost predicate Reachable(s: State) {
    exists start, steps, threadCount, clients ::
      Init(start, threadCount, clients) && Runs(start, steps) && s == Final(start, steps)
  }

  lemma ReachableInv(s: State)
    requires Reachable(s)
    ensures Inv(s)
  {
    var start, steps, threadCount, clients :|
      Init(start, threadCount, clients) && Runs(start, steps) && s == Final(start, steps);
    InvInit(start, threadCount, clients);
    InvRun(start, steps);
  }

  lemma {:induction false} RunsOneMore(s: State, steps: seq<Step>, step: Step)
    requires Runs(s, steps) && Enabled(Final(s, steps), step)
    ensures Runs(s, steps + [step]) && Final(s, steps + [step]) == Apply(Final(s, steps), step)
    decreases |steps|
  {
    if steps == [] {
      assert steps + [step] == [step];
    } else {
      RunsOneMore(Apply(s, steps[0]), steps[1..], step);
      assert (steps + [step])[1..] == steps[1..] + [step];
    }
  }

  lemma ReachableStep(s: State, step: Step)
    requires Reachable(s) && Enabled(s, step)
    ensures Reachable(Apply(s, step))
  {
    var start, steps, threadCount, clients :|
      Init(start, threadCount, clients) && Runs(start, steps) && s == Final(start, steps);
    RunsOneMore(start, steps, step);
  }

  /** No lost wakeup, for every interleaving: once a worker exists, a non-empty queue means some
      worker is awake, or some pusher still owes its notify_one; and no task waits for a busy worker
      while another sleeps unless a worker or a notification is on its way for every queued task. */
  lemma NoLostWakeup(s: State)
    requires Reachable(s) && s.sh.workersRunning && |s.workers| >= 1 && s.sh.tasks != []
    ensures s.owed > 0 || exists w :: 0 <= w < |s.workers| && !s.workers[w].Asleep? && !s.workers[w].Exited?
    ensures SomeAsleep(s.workers) ==> |s.sh.tasks| <= s.owed + Tally(s.workers, IsReady)
  {
    ReachableInv(s);
    TallyPositive(s.workers, IsReady);
    assert !s.workers[0].Exited?;
    if SomeAsleep(s.workers) && s.owed == 0 {
      var w :| 0 <= w < |s.workers| && Fits(s.workers[w], IsReady);
    }
  }

  /** Each task is executed at most once and in push order, and each pushed task is, at any moment,
      in exactly one of: the queue, a worker's hands, the completed list, the purged list. */
  lemma ExactlyOnePlace(s: State, task: Task)
    requires Reachable(s)
    ensures Increasing(s.dispatched)
    ensures Count(s.completed, task) <= Count(s.dispatched, task) <= 1
    ensures task < s.pushed <==>
      || task in s.sh.tasks
      || (exists w :: 0 <= w < |s.workers| && s.workers[w] == Executing(task))
      || task in s.completed
      || task in s.purged
    ensures task in s.sh.tasks ==> task !in s.completed && task !in s.purged && task !in s.dispatched
    ensures task in s.completed ==> task !in s.purged
    ensures forall v, w :: 0 <= v < w < |s.workers| && s.workers[v] == Executing(task) ==> s.workers[w] != Executing(task)
    ensures (exists w :: 0 <= w < |s.workers| && s.workers[w] == Executing(task)) ==>
      task !in s.sh.tasks && task !in s.completed && task !in s.purged
  {
    ReachableInv(s);
    var before := s.dispatched + s.sh.tasks;
    assert forall i :: 0 <= i < |s.dispatched| ==> before[i] == s.dispatched[i];
    assert Places(s, task) == if task < s.pushed then 1 else 0;
    assert DispatchedTask(s, task);
    TallyPositive(s.workers, Holds(task));
    assert task in s.sh.tasks <==> Count(s.sh.tasks, task) > 0;
    assert task in s.completed <==> Count(s.completed, task) > 0;
    assert task in s.purged <==> Count(s.purged, task) > 0;
    assert task in s.dispatched <==> Count(s.dispatched, task) > 0;
    assert (exists w :: 0 <= w < |s.workers| && s.workers[w] == Executing(task)) <==>
      (exists w :: 0 <= w < |s.workers| && Fits(s.workers[w], Holds(task)));
    forall v, w | 0 <= v < w < |s.workers| && s.workers[v] == Executing(task)
      ensures s.workers[w] != Executing(task)
    {
      if s.workers[w] == Executing(task) { TwoHolders(s.workers, v, w, task); }
    }
  }

  lemma TwoHolders(workers: seq<Worker>, v: nat, w: nat, task: Task)
    requires v < w < |workers| && workers[v] == Executing(task) == workers[w]
    ensures Tally(workers, Holds(task)) >= 2
  {
    TallyUpdate(workers, w, Ready, Holds(task));
    assert Fits(workers[w := Ready][v], Holds(task));
    TallyPositive(workers[w := Ready], Holds(task));
  }
}
