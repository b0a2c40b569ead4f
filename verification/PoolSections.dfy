/** The critical sections of BS::thread_pool: what each stretch of code that runs under
    tasks_mutex does to the fields that mutex guards.

    A task is named by its ticket, the number of tasks pushed before it.  The class at the end of
    this file performs the sections on mutable fields; the protocol in PoolProtocol.dfy interleaves
    them between threads. */
module PoolSections {
  type Task = nat

  /** The fields guarded by tasks_mutex. */
  datatype Shared = Shared(
    tasks: seq<Task>,
    tasksRunning: int,
    paused: bool,
    waiting: bool,
    workersRunning: bool)

  /** How a worker leaves the critical section at the top of its loop. */
  datatype Turn = Sleep | Exit | Retry | Take(task: Task)

  /** The predicate a worker waits for on task_available_cv. */
  predicate WorkerMayGo(sh: Shared) {
    sh.tasks != [] || !sh.workersRunning
  }

  /** The predicate wait_for_tasks waits for on tasks_done_cv. */
  predicate Done(sh: Shared) {
    sh.tasksRunning == 0 && (sh.paused || sh.tasks == [])
  }

  function TurnOf(sh: Shared): (turn: Turn)
    ensures turn.Take? ==> sh.tasks != [] && turn.task == sh.tasks[0]
  {
    if !WorkerMayGo(sh) then Sleep
    else if !sh.workersRunning then Exit
    else if sh.paused then Retry
    else Take(sh.tasks[0])
  }

  function AfterTurn(sh: Shared): Shared {
    if TurnOf(sh).Take? then sh.(tasks := sh.tasks[1..], tasksRunning := sh.tasksRunning + 1) else sh
  }

  function AfterFinish(sh: Shared): Shared {
    sh.(tasksRunning := sh.tasksRunning - 1)
  }

  /** Does the worker that has just decremented tasksRunning call notify_all on tasks_done_cv? */
  predicate FinishNotifies(sh: Shared) {
    sh.waiting && Done(AfterFinish(sh))
  }

  function AfterPush(sh: Shared, task: Task): Shared {
    sh.(tasks := sh.tasks + [task])
  }

  /** wait_for_tasks from raising the flag to the first evaluation of its predicate (entering), or
      from a wakeup to the next evaluation. */
  function AfterWaitCheck(sh: Shared): Shared {
    sh.(waiting := !Done(sh))
  }

  function AfterRecheck(sh: Shared): Shared {
    if Done(sh) then sh.(waiting := false) else sh
  }

  class ThreadPool {
    var tasks: seq<Task>
    var tasksRunning: int
    var paused: bool
    var waiting: bool
    var workersRunning: bool

    ghost function View(): Shared
      reads this
    {
      Shared(tasks, tasksRunning, paused, waiting, workersRunning)
    }

    constructor ()
      ensures View() == Shared([], 0, false, false, false)
    {
      tasks, tasksRunning, paused, waiting, workersRunning := [], 0, false, false, false;
    }

    method PushTask(task: Task)
      modifies this
      ensures View() == AfterPush(old(View()), task)
    {
      tasks := tasks + [task];
    }

    /** The top of worker(): one evaluation of the wait predicate and what follows under the lock. */
    method WorkerTurn() returns (turn: Turn)
      modifies this
      ensures turn == TurnOf(old(View()))
      ensures View() == AfterTurn(old(View()))
    {
      if tasks == [] && workersRunning {
        return Sleep;
      }
      if !workersRunning {
        return Exit;
      }
      if paused {
        return Retry;
      }
      turn := Take(tasks[0]);
      tasks := tasks[1..];
      tasksRunning := tasksRunning + 1;
    }

    /** The bottom of worker(), after the task has returned. */
    method WorkerFinish() returns (notifyWaiters: bool)
      modifies this
      ensures notifyWaiters == FinishNotifies(old(View()))
      ensures View() == AfterFinish(old(View()))
    {
      tasksRunning := tasksRunning - 1;
      notifyWaiters := waiting && tasksRunning == 0 && (paused || tasks == []);
    }

    /** Entering wait_for_tasks; result false means the caller goes to sleep on tasks_done_cv. */
    method EnterWait() returns (done: bool)
      modifies this
      ensures done == Done(old(View()))
      ensures View() == AfterWaitCheck(old(View()))
    {
      waiting := true;
      done := tasksRunning == 0 && (paused || tasks == []);
      if done {
        waiting := false;
      }
    }

    /** A sleeper in wait_for_tasks evaluates its predicate again. */
    method RecheckWait() returns (done: bool)
      modifies this
      ensures done == Done(old(View()))
      ensures View() == AfterRecheck(old(View()))
    {
      done := tasksRunning == 0 && (paused || tasks == []);
      if done {
        waiting := false;
      }
    }

    method Pause()
      modifies this
      ensures View() == old(View()).(paused := true)
    {
      paused := true;
    }

    method Unpause()
      modifies this
      ensures View() == old(View()).(paused := false)
    {
      paused := false;
    }

    /** purge() pops until the queue is empty; popped records what was discarded, in order. */
    method Purge() returns (popped: seq<Task>)
      modifies this
      ensures popped == old(tasks)
      ensures View() == old(View()).(tasks := [])
    {
      popped := [];
      while tasks != []
        invariant popped + tasks == old(tasks)
        invariant View() == old(View()).(tasks := tasks)
        decreases |tasks|
      {
        popped := popped + [tasks[0]];
        tasks := tasks[1..];
      }
    }

    /** The first critical section of reset(). */
    method PauseForReset() returns (wasPaused: bool)
      modifies this
      ensures wasPaused == old(paused)
      ensures View() == old(View()).(paused := true)
    {
      wasPaused := paused;
      paused := true;
    }

    /** create_threads() raises the flag, destroy_threads() lowers it. */
    method SetWorkersRunning(flag: bool)
      modifies this
      ensures View() == old(View()).(workersRunning := flag)
    {
      workersRunning := flag;
    }
  }
}
