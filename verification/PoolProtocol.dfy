/** The thread pool as a protocol: worker threads, pushing threads that still owe a notify_one,
    threads inside wait_for_tasks, and the one thread that owns the pool and may reset or destroy it.

    Every critical section is one atomic step; everything outside the lock (a task's body, a
    notification, a join, starting a thread) is a step of its own, so any interleaving is a run.
    Condition variables may wake a sleeper spuriously.  The fields from `pushed` on are history:
    no step reads them to decide what to do. */
module PoolProtocol {
  import opened PoolSections

  /** Ready: about to take the lock.  Returned: the task's body is over, the counter not yet down. */
  datatype Worker = Ready | Asleep | Executing(task: Task) | Returned(task: Task) | Exited

  /** A thread that may call wait_for_tasks.  Waiter 0 is the owner. */
  datatype Waiter = Outside | Sleeping | Notified

  /** What the owner is waiting for; the fields ending in Then record the pool at the call. */
  datatype Job =
    | PlainWait
    | Reset(newCount: nat, wasPaused: bool, queueThen: seq<Task>, dispatchedThen: seq<Task>, pushedThen: nat)
    | Destroy(pausedThen: bool, queueThen: seq<Task>)

  datatype Owner =
    | Creating
    | Spawning
    | Idle
    | Waits(job: Job)
    | Stopping(job: Job)
    | Waking(job: Job)
    | Joining(job: Job, next: nat)
    | Gone(job: Job)

  datatype State = State(
    sh: Shared,
    workers: seq<Worker>,
    threadCount: nat,
    owner: Owner,
    waiters: seq<Waiter>,
    owed: nat,
    pushed: nat,
    dispatched: seq<Task>,
    completed: seq<Task>,
    purged: seq<Task>)

  datatype Step =
    | Push
    | NotifyOne(w: nat)
    | WorkerTurn(w: nat)
    | TaskReturns(w: nat)
    | WorkerFinish(w: nat)
    | WorkerWakes(w: nat)
    | EnterWait(i: nat)
    | Recheck(i: nat)
    | WaiterWakes(i: nat)
    | Pause
    | Unpause
    | Purge
    | CallWait
    | CallReset(newCount: nat)
    | CallDestroy
    | StopWorkers
    | WakeWorkers
    | JoinNext
    | EndJoin
    | StartWorkers
    | Spawn

  predicate SomeAsleep(workers: seq<Worker>) {
    exists w :: 0 <= w < |workers| && workers[w].Asleep?
  }

  predicate Inside(waiter: Waiter) {
    !waiter.Outside?
  }

  function WakeAll(workers: seq<Worker>): (woken: seq<Worker>)
    ensures |woken| == |workers|
    ensures forall w :: 0 <= w < |workers| ==> woken[w] == if workers[w].Asleep? then Ready else workers[w]
  {
    seq(|workers|, w requires 0 <= w < |workers| => if workers[w].Asleep? then Ready else workers[w])
  }

  function NotifyAll(waiters: seq<Waiter>): (notified: seq<Waiter>)
    ensures |notified| == |waiters|
    ensures forall i :: 0 <= i < |waiters| ==>
      notified[i] == if waiters[i].Sleeping? then Notified else waiters[i]
  {
    seq(|waiters|, i requires 0 <= i < |waiters| => if waiters[i].Sleeping? then Notified else waiters[i])
  }

  ghost predicate Enabled(s: State, step: Step) {
    match step
    case Push => !s.owner.Gone?
    case NotifyOne(w) => s.owed > 0 && (SomeAsleep(s.workers) ==> w < |s.workers| && s.workers[w].Asleep?)
    case WorkerTurn(w) => w < |s.workers| && s.workers[w].Ready?
    case TaskReturns(w) => w < |s.workers| && s.workers[w].Executing?
    case WorkerFinish(w) => w < |s.workers| && s.workers[w].Returned?
    case WorkerWakes(w) => w < |s.workers| && s.workers[w].Asleep?
    case EnterWait(i) => i < |s.waiters| && s.waiters[i].Outside? && !s.owner.Gone? && (i == 0 ==> s.owner.Waits?)
    case Recheck(i) => i < |s.waiters| && s.waiters[i].Notified?
    case WaiterWakes(i) => i < |s.waiters| && s.waiters[i].Sleeping?
    case Pause => !s.owner.Gone?
    case Unpause => !s.owner.Gone?
    case Purge => !s.owner.Gone?
    case CallWait => s.owner.Idle?
    case CallReset(newCount) => s.owner.Idle? && newCount >= 1
    case CallDestroy => s.owner.Idle?
    case StopWorkers => s.owner.Stopping?
    case WakeWorkers => s.owner.Waking?
    case JoinNext => s.owner.Joining? && s.owner.next < |s.workers| && s.workers[s.owner.next].Exited?
    case EndJoin => s.owner.Joining? && s.owner.next == |s.workers|
    case StartWorkers => s.owner.Creating?
    case Spawn => s.owner.Spawning? && |s.workers| < s.threadCount
  }

  /** The owner's wait_for_tasks has returned. */
  function AfterWait(owner: Owner): Owner
    requires owner.Waits?
  {
    if owner.job.PlainWait? then Idle else Stopping(owner.job)
  }

  function WaitReturns(s: State, i: nat, sh: Shared): State
    requires i < |s.waiters|
  {
    s.(sh := sh, waiters := s.waiters[i := Outside],
       owner := if i == 0 && s.owner.Waits? then AfterWait(s.owner) else s.owner)
  }

  function ApplyWorkerTurn(s: State, w: nat): State
    requires w < |s.workers|
  {
    var s' := s.(sh := AfterTurn(s.sh));
    match TurnOf(s.sh)
    case Sleep => s'.(workers := s.workers[w := Asleep])
    case Exit => s'.(workers := s.workers[w := Exited])
    case Retry => s'
    case Take(task) => s'.(workers := s.workers[w := Executing(task)], dispatched := s.dispatched + [task])
  }

  function ApplyEndJoin(s: State): State
    requires s.owner.Joining?
  {
    match s.owner.job
    case Reset(newCount, wasPaused, _, _, _) =>
      s.(sh := s.sh.(paused := wasPaused), workers := [], threadCount := newCount, owner := Creating)
    case PlainWait => s
    case Destroy(_, _) => s.(owner := Gone(s.owner.job))
  }

  ghost function Apply(s: State, step: Step): State
    requires Enabled(s, step)
  {
    match step
    case Push => s.(sh := AfterPush(s.sh, s.pushed), owed := s.owed + 1, pushed := s.pushed + 1)
    case NotifyOne(w) =>
      s.(owed := s.owed - 1, workers := if SomeAsleep(s.workers) then s.workers[w := Ready] else s.workers)
    case WorkerTurn(w) => ApplyWorkerTurn(s, w)
    case TaskReturns(w) =>
      s.(workers := s.workers[w := Returned(s.workers[w].task)], completed := s.completed + [s.workers[w].task])
    case WorkerFinish(w) =>
      s.(sh := AfterFinish(s.sh), workers := s.workers[w := Ready],
         waiters := if FinishNotifies(s.sh) then NotifyAll(s.waiters) else s.waiters)
    case WorkerWakes(w) => s.(workers := s.workers[w := Ready])
    case EnterWait(i) =>
      if Done(s.sh) then WaitReturns(s, i, AfterWaitCheck(s.sh))
      else s.(sh := AfterWaitCheck(s.sh), waiters := s.waiters[i := Sleeping])
    case Recheck(i) =>
      if Done(s.sh) then WaitReturns(s, i, AfterRecheck(s.sh))
      else s.(sh := AfterRecheck(s.sh), waiters := s.waiters[i := Sleeping])
    case WaiterWakes(i) => s.(waiters := s.waiters[i := Notified])
    case Pause => s.(sh := s.sh.(paused := true))
    case Unpause => s.(sh := s.sh.(paused := false))
    case Purge => s.(sh := s.sh.(tasks := []), purged := s.purged + s.sh.tasks)
    case CallWait => s.(owner := Waits(PlainWait))
    case CallReset(newCount) =>
      s.(sh := s.sh.(paused := true),
         owner := Waits(Reset(newCount, s.sh.paused, s.sh.tasks, s.dispatched, s.pushed)))
    case CallDestroy => s.(owner := Waits(Destroy(s.sh.paused, s.sh.tasks)))
    case StopWorkers => s.(sh := s.sh.(workersRunning := false), owner := Waking(s.owner.job))
    case WakeWorkers => s.(workers := WakeAll(s.workers), owner := Joining(s.owner.job, 0))
    case JoinNext => s.(owner := Joining(s.owner.job, s.owner.next + 1))
    case EndJoin => ApplyEndJoin(s)
    case StartWorkers => s.(sh := s.sh.(workersRunning := true), owner := Spawning)
    case Spawn =>
      s.(workers := s.workers + [Ready],
         owner := if |s.workers| + 1 == s.threadCount then Idle else Spawning)
  }

  /** A pool under construction with `threadCount` workers, and `clients` threads that may wait. */
  ghost predicate Init(s: State, threadCount: nat, clients: nat) {
    && threadCount >= 1 && clients >= 1
    && s == State(Shared([], 0, false, false, false), [], threadCount, Creating,
                  seq(clients, _ => Outside), 0, 0, [], [], [])
  }

  /** steps is a schedule that can be carried out from s, one enabled step after the other. */
  ghost predicate Runs(s: State, steps: seq<Step>)
    decreases |steps|
  {
    steps != [] ==> Enabled(s, steps[0]) && Runs(Apply(s, steps[0]), steps[1..])
  }

  ghost function Final(s: State, steps: seq<Step>): State
    requires Runs(s, steps)
    decreases |steps|
  {
    if steps == [] then s else Final(Apply(s, steps[0]), steps[1..])
  }

  // Counting workers

  datatype Kind = IsReady | IsExecuting | IsBusy | Holds(task: Task)

  predicate Fits(worker: Worker, kind: Kind) {
    match kind
    case IsReady => worker.Ready?
    case IsExecuting => worker.Executing?
    case IsBusy => worker.Executing? || worker.Returned?
    case Holds(task) => worker == Executing(task)
  }

  function Is(worker: Worker, kind: Kind): nat {
    if Fits(worker, kind) then 1 else 0
  }

  function Tally(workers: seq<Worker>, kind: Kind): nat {
    if workers == [] then 0 else Is(workers[0], kind) + Tally(workers[1..], kind)
  }

  lemma {:induction false} TallyUpdate(workers: seq<Worker>, w: nat, worker: Worker, kind: Kind)
    requires w < |workers|
    ensures Tally(workers[w := worker], kind) == Tally(workers, kind) - Is(workers[w], kind) + Is(worker, kind)
  {
    if w == 0 {
      assert workers[w := worker][1..] == workers[1..];
    } else {
      TallyUpdate(workers[1..], w - 1, worker, kind);
      assert workers[w := worker][1..] == workers[1..][w - 1 := worker];
    }
  }

  lemma {:induction false} TallyAppend(workers: seq<Worker>, worker: Worker, kind: Kind)
    ensures Tally(workers + [worker], kind) == Tally(workers, kind) + Is(worker, kind)
  {
    if workers != [] {
      TallyAppend(workers[1..], worker, kind);
      assert (workers + [worker])[1..] == workers[1..] + [worker];
    }
  }

  lemma {:induction false} TallyPositive(workers: seq<Worker>, kind: Kind)
    ensures Tally(workers, kind) > 0 <==> exists w :: 0 <= w < |workers| && Fits(workers[w], kind)
  {
    if workers != [] {
      TallyPositive(workers[1..], kind);
      if Tally(workers[1..], kind) > 0 {
        var w :| 0 <= w < |workers[1..]| && Fits(workers[1..][w], kind);
        assert Fits(workers[w + 1], kind);
      }
      if w :| 0 <= w < |workers| && Fits(workers[w], kind) {
        assert w == 0 || Fits(workers[1..][w - 1], kind);
      }
    }
  }

  /** Waking every sleeper changes no worker that holds a task. */
  lemma {:induction false} TallyWakeAll(workers: seq<Worker>, kind: Kind)
    requires kind.IsBusy? || kind.Holds?
    ensures Tally(WakeAll(workers), kind) == Tally(workers, kind)
  {
    if workers != [] {
      TallyWakeAll(workers[1..], kind);
      assert WakeAll(workers)[1..] == WakeAll(workers[1..]);
    }
  }

  lemma {:induction false} HoldersAreBusy(workers: seq<Worker>, task: Task)
    ensures Tally(workers, Holds(task)) <= Tally(workers, IsBusy)
  {
    if workers != [] {
      HoldersAreBusy(workers[1..], task);
    }
  }
}
