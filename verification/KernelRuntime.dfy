/** The single-CPU kernel runtime object and its timer entry, proved against KernelRuns. */
module KernelRuntimes {
  import opened Prelude
  import opened Tasks
  import opened Queues
  import opened Snapshots
  import opened Bindings
  import opened CpuLocals
  import opened KernelTasks
  import opened KernelRuns
  import M = KernelState
  import S = SchedulerState

  datatype RuntimeError =
    | TaskFault(error: KernelTaskError)
    | NoRunnableTask
    | MissingExecutionPair
    | UserspaceTaskRequiresSystemRuntime
    | InterruptedStateAlreadyPresent
    | InvalidInterruptedState
    | InterruptedTaskRequiresIret

  /** The mailbox holds the snapshot of the current task, whose binding has room for it. */
  predicate Claims(cpu: Cpu, execs: map<TaskId, ExecBinding>) {
    && cpu.task.Some? && cpu.task.value in execs && execs[cpu.task.value].interrupted.None?
    && cpu.interrupted.Some? && cpu.interrupted.value.task == cpu.task.value
  }

  /** Why the pending snapshot cannot be moved to the current task, if there is one and it cannot. */
  function SaveFault(cpu: Cpu, execs: map<TaskId, ExecBinding>): Option<RuntimeError> {
    if cpu.task.None? then (if cpu.interrupted.Some? then Some(MissingExecutionPair) else None)
    else if cpu.task.value !in execs then Some(MissingExecutionPair)
    else if execs[cpu.task.value].interrupted.Some? then Some(InterruptedStateAlreadyPresent)
    else if cpu.interrupted.None? then None
    else if cpu.interrupted.value.task != cpu.task.value then Some(MissingExecutionPair)
    else if !IsValid(cpu.interrupted.value.snapshot) then Some(InvalidInterruptedState)
    else None
  }

  /** A pending snapshot goes to the current task exactly when it is that task's, valid, and the task has no other. */
  lemma SavesIff(cpu: Cpu, execs: map<TaskId, ExecBinding>)
    requires cpu.interrupted.Some?
    ensures SaveFault(cpu, execs).None? <==>
      && cpu.task == Some(cpu.interrupted.value.task) && cpu.task.value in execs && execs[cpu.task.value].interrupted.None?
      && IsValid(cpu.interrupted.value.snapshot)
    ensures SaveFault(cpu, execs) == Some(InterruptedStateAlreadyPresent) <==>
      cpu.task.Some? && cpu.task.value in execs && execs[cpu.task.value].interrupted.Some?
    ensures SaveFault(cpu, execs) == Some(InvalidInterruptedState) <==>
      Claims(cpu, execs) && !IsValid(cpu.interrupted.value.snapshot)
    ensures Claims(cpu, execs) <==>
      cpu.task == Some(cpu.interrupted.value.task) && cpu.task.value in execs && execs[cpu.task.value].interrupted.None?
    ensures SaveFault(cpu, execs).Some? ==>
      SaveFault(cpu, execs).value in {InterruptedStateAlreadyPresent, InvalidInterruptedState, MissingExecutionPair}
  {
  }

  class KernelRuntime {
    const manager: KernelTaskManager
    const cpu: CpuLocal
    var reschedule: bool
    var disabled: nat

    ghost function Repr(): set<object>
      reads this, manager
    {
      {this, cpu} + manager.Repr()
    }

    ghost function View(): Runtime
      reads Repr()
    {
      Runtime(manager.View(), cpu.View(), reschedule, disabled)
    }

    ghost predicate Valid()
      reads Repr()
    {
      manager.Parts() && RuntimeInv(View())
    }

    constructor ()
      ensures Valid() && View() == Cold && fresh(Repr())
    {
      manager := new KernelTaskManager();
      cpu := new CpuLocal();
      reschedule, disabled := false, 0;
      new;
      ColdInv();
    }

    method Spawn(priority: nat, a: Option<StackAllocation>) returns (r: Result<TaskId, KernelTaskError>)
      requires Valid() && S.HasRoom(manager.scheduler.View())
      modifies manager.scheduler, manager.scheduler.ready, manager.executions
      ensures Valid() && View() == Step(old(View()), ESpawn(priority, a))
      ensures r == if NewExec(a).Some? then Ok(S.NextId(old(manager.scheduler.View()))) else Err(Allocation)
    {
      StepKeepsInv(View(), ESpawn(priority, a));
      r := manager.Spawn(priority, a);
    }

    /** Moves the mailbox's snapshot into the interrupted task's binding. */
    method CommitInterruptedState() returns (fault: Option<RuntimeError>)
      requires manager.executions.Valid()
      modifies manager.executions, cpu`interrupted
      ensures manager.executions.Valid() && fault == SaveFault(old(cpu.View()), old(manager.executions.contents))
      ensures var was := old(manager.executions.contents); var t := cpu.task;
              if Claims(old(cpu.View()), was)
              then && cpu.interrupted.None?
                   && manager.executions.contents ==
                      if fault.None? then was[t.value := was[t.value].(interrupted := Some(old(cpu.interrupted).value.snapshot))] else was
              else cpu.interrupted == old(cpu.interrupted) && manager.executions.contents == was
    {
      if cpu.task.None? {
        return if cpu.interrupted.Some? then Some(MissingExecutionPair) else None;
      }
      var task := cpu.task.value;
      var binding := manager.executions.Get(task);
      if binding.None? {
        return Some(MissingExecutionPair);
      }
      if binding.value.interrupted.Some? {
        return Some(InterruptedStateAlreadyPresent);
      }
      if cpu.interrupted.None? {
        return None;
      }
      if cpu.interrupted.value.task != task {
        return Some(MissingExecutionPair);
      }
      var captured := cpu.TakeInterrupted();
      if captured.value.task != task {
        assert false;
        return Some(MissingExecutionPair);
      }
      if !IsValid(captured.value.snapshot) {
        return Some(InvalidInterruptedState);
      }
      manager.executions.Set(task, binding.value.(interrupted := Some(captured.value.snapshot)));
      return None;
    }

    method Discard()
      modifies cpu`interrupted
      ensures cpu.interrupted.None?
    {
      var _ := cpu.TakeInterrupted();
    }

    /** The snapshot a same-ring return will use, taken out of the binding. */
    method TakeKernelPreemptState(task: TaskId) returns (x: Option<InterruptedState>)
      requires manager.executions.Valid()
      modifies manager.executions
      ensures manager.executions.Valid()
      ensures var was := old(manager.executions.contents);
              if task in was && was[task].interrupted.Some? && KernelIretWords(was[task].interrupted.value).Some?
              then x == was[task].interrupted && manager.executions.contents == was[task := was[task].(interrupted := None)]
              else x.None? && manager.executions.contents == was
    {
      var found := manager.executions.Get(task);
      if found.None? {
        return None;
      }
      var binding := found.value;
      if binding.interrupted.None? || KernelIretWords(binding.interrupted.value).None? {
        return None;
      }
      manager.executions.Set(task, binding.(interrupted := None));
      return binding.interrupted;
    }

    /** Makes the head of the queue the CPU owner and takes its snapshot if it returns through one. */
    method EnterHead(plan: Return) returns (fault: Option<RuntimeError>)
      requires manager.Valid() && manager.scheduler.ready.queue != [] && plan.task == manager.scheduler.ready.queue[0]
      requires plan.task in manager.executions.contents
      requires plan.ToKernel? ==> plan == Plan(plan.task, manager.executions.contents[plan.task])
      modifies manager.scheduler, manager.scheduler.ready, manager`stackTop, manager.executions
      ensures manager.Parts() && fault.None?
      ensures manager.View() == M.Dispatch(if plan.ToKernel? then WithSaved(old(manager.View()), plan.task, None) else old(manager.View()))
    {
      var decision := manager.PrepareDispatch();
      if decision.Err? {
        assert false;
        return Some(MissingExecutionPair);
      }
      if decision.value.next != Some(plan.task) {
        assert false;
        return Some(MissingExecutionPair);
      }
      if plan.ToKernel? {
        var state := TakeKernelPreemptState(plan.task);
        if state.None? {
          assert false;
          return Some(MissingExecutionPair);
        }
      }
      return None;
    }

    /** What the capture left behind: the runtime as it was, with the snapshot in the mailbox. */
    ghost predicate Pending(before: Runtime, x: InterruptedState)
      reads Repr()
    {
      && RuntimeInv(before) && Captures(before, x)
      && View() == before.(cpu := before.cpu.(interrupted := Some(Captured(before.cpu.task.value, x))))
    }

    /** How the head of the queue will be entered; peeks without taking. */
    method PlanHead(ghost before: Runtime) returns (r: Result<Return, RuntimeError>)
      requires manager.Parts() && manager.View() == before.m && RuntimeInv(before) && before.m.sched.ready != []
      ensures before.m.sched.ready[0] in before.m.execs
      ensures r == Ok(Plan(before.m.sched.ready[0], before.m.execs[before.m.sched.ready[0]]))
    {
      HeadHasBinding(before);
      var candidate := manager.scheduler.ready.queue[0];
      var binding := manager.executions.Get(candidate);
      if binding.None? || !binding.value.context.Initialized() {
        assert false;
        return Err(MissingExecutionPair);
      }
      return Ok(Plan(candidate, binding.value));
    }

    /** Moves the pending snapshot to the interrupted task. */
    method SaveCurrent(ghost x: InterruptedState, ghost before: Runtime) returns (fault: Option<RuntimeError>)
      requires manager.Parts() && Pending(before, x) && before.m.sched.ready != []
      modifies manager.executions, cpu`interrupted
      ensures fault.None? && manager.Valid() && manager.View() == WithSaved(before.m, before.cpu.task.value, Some(x))
      ensures cpu.View() == before.cpu
    {
      HeadHasBinding(before);
      assert SavedOk(before, before.cpu.task.value);
      SavedKeepsInv(before.m, before.cpu.task.value, Some(x));
      fault := MoveSnapshot(x, before.cpu.task.value);
    }

    method MoveSnapshot(ghost x: InterruptedState, ghost task: TaskId) returns (fault: Option<RuntimeError>)
      requires manager.Parts() && cpu.task == Some(task) && task in manager.executions.contents && IsValid(x)
      requires manager.executions.contents[task].interrupted.None? && cpu.interrupted == Some(Captured(task, x))
      modifies manager.executions, cpu`interrupted
      ensures fault.None? && manager.Parts() && manager.View() == WithSaved(old(manager.View()), task, Some(x))
      ensures cpu.View() == old(cpu.View()).(interrupted := None)
    {
      fault := CommitInterruptedState();
    }

    /** With the interrupted task saved, enters the head of the queue as planned. */
    method EnterPlanned(plan: Return, ghost x: InterruptedState, ghost before: Runtime)
      requires before.cpu.task.Some? && before.m.sched.ready != [] && plan.task == before.m.sched.ready[0]
      requires plan.task in before.m.execs && plan == Plan(plan.task, before.m.execs[plan.task])
      requires before.cpu.task == Some(plan.task) ==> plan.ToContext?
      requires manager.Valid() && View() == before.(m := WithSaved(before.m, before.cpu.task.value, Some(x)))
      modifies Repr()
      ensures manager.Parts() && View() == Switch(before, x)
    {
      var fault := EnterHead(plan);
      cpu.task := Some(plan.task);
      reschedule := false;
    }

    /** Saves the interrupted task, enters the head of the queue and says how. */
    method SwitchToHead(ghost x: InterruptedState, ghost before: Runtime) returns (r: Result<Return, RuntimeError>)
      requires manager.Parts() && Pending(before, x) && before.m.sched.ready != []
      modifies Repr()
      ensures manager.Parts() && View() == Switch(before, x)
      ensures before.m.sched.ready[0] in before.m.execs
      ensures r == Ok(Plan(before.m.sched.ready[0], before.m.execs[before.m.sched.ready[0]]))
    {
      r := PlanHead(before);
      HeadHasBinding(before);
      assert SavedOk(before, before.cpu.task.value);
      var fault := SaveCurrent(x, before);
      if fault.Some? {
        assert false;
        return Err(MissingExecutionPair);
      }
      EnterPlanned(r.value, x, before);
    }

    /** Wakes the due sleepers under a pending snapshot. */
    method ExpireDue(now: nat, ghost x: InterruptedState, ghost before: Runtime)
      requires manager.Parts() && Pending(before, x)
      modifies manager.scheduler, manager.scheduler.ready, manager.sleepers
      ensures manager.Parts() && Pending(Expired(before, now), x)
    {
      ExpiredKeepsInv(before, now);
      var woken := manager.WakeSleepers(now);
    }

    /** Empties the mailbox and asks for a dispatch later. */
    method DiscardAndRequest(ghost x: InterruptedState, ghost before: Runtime)
      requires manager.Parts() && Pending(before, x)
      modifies this`reschedule, cpu`interrupted
      ensures manager.Parts() && View() == before.(reschedule := true)
    {
      Discard();
      reschedule := true;
    }

    /** The head of the queue is a kernel task and not the CPU owner. */
    method CheckHead(candidate: TaskId, ghost before: Runtime) returns (fault: Option<RuntimeError>)
      requires manager.Parts() && manager.View() == before.m && RuntimeInv(before)
      requires before.m.sched.ready != [] && before.m.sched.ready[0] == candidate
      ensures fault.None? && manager.scheduler.current != Some(candidate)
    {
      HeadHasBinding(before);
      var tcb := S.Lookup(manager.scheduler.tasks, candidate);
      assert M.TaskOk(before.m.sched, candidate);
      if tcb.Some? && tcb.value.kind == Userspace {
        assert false;
        return Some(UserspaceTaskRequiresSystemRuntime);
      }
      return None;
    }

    method HandleTimerPreemption(now: nat, ghost x: InterruptedState, ghost before: Runtime)
      returns (r: Result<Option<Return>, RuntimeError>)
      requires manager.Parts() && Pending(before, x)
      modifies Repr()
      ensures manager.Parts() && View() == Tick(before, x, now) && r == Ok(TickReturn(before, x, now))
    {
      if disabled != 0 {
        DiscardAndRequest(x, before);
        return Ok(None);
      }
      ExpireDue(now, x, before);
      var next := manager.scheduler.ready.Peek();
      if next.None? {
        DiscardAndRequest(x, Expired(before, now));
        return Ok(None);
      }
      var fault := CheckHead(next.value, Expired(before, now));
      if manager.scheduler.current == next {
        assert false;
        return Ok(None);
      }
      var switched := SwitchToHead(x, Expired(before, now));
      return Ok(Some(switched.value));
    }

    /** The timer interrupt: capture, then decide. The mailbox is empty again afterwards. */
    method TimerEntry(snapshot: InterruptedState, now: nat) returns (out: Option<Return>)
      requires Valid()
      modifies Repr()
      ensures manager.Parts() && View() == Tick(old(View()), snapshot, now) && out == TickReturn(old(View()), snapshot, now)
      ensures cpu.interrupted.None?
      ensures Valid() <==> !Switches(old(View()), snapshot, now) || (IsKernel(snapshot) && !SelfWake(old(View()), snapshot, now))
    {
      ghost var before := View();
      TickKeepsInvIff(before, snapshot, now);
      var captured := cpu.Capture(snapshot);
      if captured.Err? {
        return None;
      }
      var handled := HandleTimerPreemption(now, snapshot, before);
      return handled.value;
    }

    method PutToSleep(deadline: nat) returns (r: Result<TaskId, KernelTaskError>)
      requires manager.Valid()
      modifies manager.scheduler, manager.sleepers
      ensures manager.Parts() && View() == old(View()).(m := M.SleepUntil(old(manager.View()), deadline))
      ensures r.Ok? <==> old(manager.scheduler.current).Some?
    {
      r := manager.SleepCurrentUntil(deadline);
    }

    /** The task on the CPU goes to sleep; it stays there until the next tick takes it off. */
    method SleepCurrentUntil(deadline: nat) returns (r: Result<TaskId, KernelTaskError>)
      requires Valid()
      modifies manager.scheduler, manager.sleepers
      ensures Valid() && View() == Step(old(View()), Event.ESleep(deadline))
      ensures r.Ok? <==> old(manager.scheduler.current).Some?
    {
      SleepKeepsOrder(View(), deadline);
      r := PutToSleep(deadline);
    }

    method WakeDue(now: nat, ghost r: Runtime) returns (woken: nat)
      requires manager.Valid() && r == Expired(View(), now).(reschedule := true)
      modifies this`reschedule, manager.scheduler, manager.scheduler.ready, manager.sleepers
      ensures manager.Parts() && View() == r
      ensures woken == DueCount(old(manager.sleepers.entries), now)
    {
      reschedule := true;
      woken := manager.WakeSleepers(now);
    }

    /** The timer work outside the interrupt: wakes the due sleepers and asks for a dispatch. */
    method ServiceTimer(now: nat) returns (woken: nat)
      requires Valid()
      modifies Repr()
      ensures Valid() && View() == Step(old(View()), EService(now))
      ensures woken == DueCount(old(manager.sleepers.entries), now)
    {
      ghost var r := Step(View(), EService(now));
      ServiceKeepsOrder(View(), now);
      woken := WakeDue(now, r);
    }

    method StartHead(plan: Return)
      requires manager.Valid() && Starts(View()) && plan == Plan(View().m.sched.ready[0], View().m.execs[View().m.sched.ready[0]])
      modifies Repr()
      ensures manager.Parts() && View() == First(old(View()))
    {
      var fault := EnterHead(plan);
      cpu.task := Some(plan.task);
    }

    /** The dispatch that starts the first task from the boot context. */
    method DispatchFirst() returns (r: Result<Return, RuntimeError>)
      requires Valid() && cpu.task.None?
      modifies Repr()
      ensures Valid() && View() == First(old(View()))
      ensures r.Ok? ==> Output(old(View()), EFirst) == Some(r.value)
      ensures r.Err? ==> r.error == if old(View()).m.sched.ready == [] then NoRunnableTask else InterruptedTaskRequiresIret
      ensures r.Ok? <==> Starts(old(View()))
    {
      ghost var before := View();
      FirstKeepsInv(before);
      if manager.scheduler.ready.queue == [] {
        return Err(NoRunnableTask);
      }
      r := PlanHead(before);
      if r.value.ToKernel? {
        return Err(InterruptedTaskRequiresIret);
      }
      StartHead(r.value);
    }
  }
}
