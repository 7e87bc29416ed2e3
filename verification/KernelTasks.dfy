/** The kernel task manager object, each method proved against its form in KernelState. */
module KernelTasks {
  import opened Prelude
  import opened Tasks
  import opened Queues
  import opened Bindings
  import opened Registries
  import opened Schedulers
  import opened KernelState
  import S = SchedulerState

  datatype KernelTaskError =
    | SchedulerFault(error: S.SchedulerError)
    | AlreadyBound
    | Allocation
    | MissingExecution
    | InvalidExecution
    | SameTask
    | DispatchMismatch
    | KernelStackUnavailable

  class KernelTaskManager {
    const scheduler: Scheduler
    const executions: Registry<ExecBinding>
    const sleepers: SleepQueue
    var stackTop: nat

    ghost function Repr(): set<object>
      reads this
    {
      {this, scheduler, scheduler.ready, executions, sleepers}
    }

    ghost predicate Parts()
      reads Repr()
    {
      scheduler.Valid() && executions.Valid() && sleepers.Valid()
    }

    ghost function View(): Manager
      reads Repr()
    {
      Manager(scheduler.View(), executions.contents, sleepers.entries)
    }

    ghost predicate Valid()
      reads Repr()
    {
      Parts() && Inv(View())
    }

    constructor ()
      ensures Valid() && View() == Boot && fresh(Repr())
    {
      scheduler := new Scheduler();
      executions := new Registry<ExecBinding>();
      sleepers := new SleepQueue();
      stackTop := 0;
    }

    method CreateAttached(priority: nat) returns (task: TaskId)
      requires scheduler.Valid() && S.HasRoom(scheduler.View())
      modifies scheduler
      ensures scheduler.Valid() && scheduler.View() == S.Prepared(old(scheduler.View()), priority, Kernel)
      ensures task == S.NextId(old(scheduler.View()))
    {
      S.PreparedTask(scheduler.View(), priority, Kernel);
      S.CreateLookup(scheduler.View(), priority, Kernel);
      task := scheduler.CreateTask(priority, Kernel);
      var attached := scheduler.AttachExecution(task);
      if attached.Err? {
        assert false;
      }
    }

    /** Creates the task, gives it a stack and only then shows it to the ready queue. */
    method SpawnStages(priority: nat, a: Option<StackAllocation>) returns (r: Result<TaskId, KernelTaskError>)
      requires Valid() && S.HasRoom(scheduler.View())
      modifies scheduler, scheduler.ready, executions
      ensures Parts() && View() == KernelState.Spawn(old(View()), priority, a)
      ensures r == if NewExec(a).Some? then Ok(S.NextId(old(View()).sched)) else Err(Allocation)
    {
      ghost var before := View();
      S.PreparedTask(before.sched, priority, Kernel);
      var task := CreateAttached(priority);
      var binding := NewExec(a);
      if binding.None? {
        var destroyed := scheduler.DestroyCreated(task);
        return Err(Allocation);
      }
      assert !S.Live(before.sched, task);
      var placed := executions.Place(task, binding.value);
      if !placed {
        assert false;
        return Err(AlreadyBound);
      }
      var readied := scheduler.MakeReady(task);
      if !readied {
        assert false;
        return Err(SchedulerFault(S.TaskNotCreated));
      }
      return Ok(task);
    }

    method Spawn(priority: nat, a: Option<StackAllocation>) returns (r: Result<TaskId, KernelTaskError>)
      requires Valid() && S.HasRoom(scheduler.View())
      modifies scheduler, scheduler.ready, executions
      ensures Valid() && View() == KernelState.Spawn(old(View()), priority, a)
      ensures r == if NewExec(a).Some? then Ok(S.NextId(old(View()).sched)) else Err(Allocation)
    {
      SpawnKeepsInv(View(), priority, a);
      r := SpawnStages(priority, a);
    }

    /** Hands the CPU to the head of the queue; every error return is unreachable. */
    method PrepareDispatch() returns (r: Result<DispatchDecision, KernelTaskError>)
      requires Valid()
      modifies scheduler, scheduler.ready, this`stackTop
      ensures Valid() && View() == Dispatch(old(View()))
      ensures var ready := old(View()).sched.ready;
              && r == Ok(DispatchDecision(old(scheduler.current), if ready == [] then None else Some(ready[0])))
              && (ready != [] ==> ready[0] in old(View()).execs && stackTop == old(View()).execs[ready[0]].stackTop)
    {
      DispatchKeepsInv(View());
      S.OwnerAndHead(scheduler.View());
      var previous, next := scheduler.current, scheduler.ready.Peek();
      if next.None? {
        return Ok(DispatchDecision(previous, None));
      }
      var candidate := next.value;
      if previous == Some(candidate) {
        assert false;
        return Ok(DispatchDecision(previous, None));
      }
      assert S.Live(scheduler.View(), candidate);
      var binding := executions.Get(candidate);
      if binding.None? {
        assert false;
        return Err(MissingExecution);
      }
      if !ExecOk(binding.value) {
        assert false;
        return Err(InvalidExecution);
      }
      var decision := scheduler.ScheduleNext();
      if decision.next != Some(candidate) {
        assert false;
        return Err(DispatchMismatch);
      }
      stackTop := binding.value.stackTop;
      return Ok(decision);
    }

    method SleepCurrentUntil(deadline: nat) returns (r: Result<TaskId, KernelTaskError>)
      requires Valid()
      modifies scheduler, sleepers
      ensures Valid() && View() == SleepUntil(old(View()), deadline)
      ensures r == match old(scheduler.current)
                   case None => Err(SchedulerFault(S.TaskNotFound))
                   case Some(id) => Ok(id)
    {
      SleepKeepsInv(View(), deadline);
      S.OwnerAndHead(scheduler.View());
      var slept := scheduler.SleepCurrentUntil(deadline, sleepers);
      return if slept.Ok? then Ok(slept.value) else Err(SchedulerFault(slept.error));
    }

    method ExpireSleepers(now: nat) returns (woken: nat)
      requires Valid()
      modifies scheduler, scheduler.ready, sleepers
      ensures Valid() && View() == Expire(old(View()), now)
      ensures woken == DueCount(old(sleepers.entries), now)
    {
      ExpireKeepsInv(View(), now);
      woken := WakeSleepers(now);
    }

    method WakeSleepers(now: nat) returns (woken: nat)
      requires Valid()
      modifies scheduler, scheduler.ready, sleepers
      ensures Parts() && View() == Expire(old(View()), now)
      ensures woken == DueCount(old(sleepers.entries), now)
    {
      ExpireWakesDue(View(), now);
      var tasks := scheduler.ExpireSleepers(now, sleepers);
      return |tasks|;
    }

    /** Ends the CPU owner; its sleep entry, if it had one, and its stack go with it. */
    method ExitCurrent() returns (exited: bool)
      requires Valid()
      modifies scheduler, sleepers, executions
      ensures Valid() && View() == Exit(old(View()))
      ensures exited == old(scheduler.current).Some?
    {
      ExitKeepsInv(View());
      S.OwnerAndHead(scheduler.View());
      if scheduler.current.None? {
        return false;
      }
      var task := scheduler.current.value;
      assert TaskOk(scheduler.View(), task);
      var handle := S.Lookup(scheduler.tasks, task).value.execution;
      if handle.None? {
        assert false;
        return false;
      }
      var removed := sleepers.Remove(task);
      var left := scheduler.ExitCurrent();
      if !left {
        assert false;
        return false;
      }
      var gone := executions.Remove(handle.value);
      return gone.Some?;
    }
  }
}
