/** The object that owns process, scheduler and userspace state, and the two entry points. */
module SystemRuntimes {
  import opened Prelude
  import opened Tasks
  import opened Snapshots
  import opened Bindings
  import opened CpuLocals
  import opened Registries
  import opened SystemState
  import opened Schedulers
  import opened ProcessManagers
  import S = SchedulerState
  import P = Processes

  class SystemRuntime {
    const processes: ProcessManager
    const scheduler: Scheduler
    const executions: Registry<ExecBinding>
    const userspace: Registry<UserBinding>
    const cpu: CpuLocal
    var currentProcess: Option<ProcessId>
    var pendingExit: Option<PendingExit>
    var reschedule: bool
    var stackTop: nat
    var root: nat

    ghost function Repr(): set<object>
      reads this
    {
      {this, processes, processes.slots, scheduler, scheduler.ready, executions, userspace, cpu}
    }

    /** The parts are in order and do not share storage. */
    ghost predicate Parts()
      reads Repr()
    {
      && processes.Valid() && scheduler.Valid() && executions.Valid() && userspace.Valid()
      && executions as object != userspace as object
    }

    ghost function View(): Sys
      requires Parts()
      reads Repr()
    {
      Sys(processes.View(), scheduler.View(), executions.contents, userspace.contents, currentProcess, pendingExit,
          reschedule, cpu.View(), stackTop, root)
    }

    ghost predicate Valid()
      reads Repr()
    {
      Parts() && Inv(View())
    }

    constructor ()
      ensures Valid() && fresh(Repr()) && View() == Boot
    {
      processes := new ProcessManager();
      scheduler := new Scheduler();
      executions := new Registry<ExecBinding>();
      userspace := new Registry<UserBinding>();
      cpu := new CpuLocal();
      currentProcess, pendingExit, reschedule, stackTop, root := None, None, false, 0, 0;
      new;
      assert View() == Boot;
      BootSettled();
    }

    /** Picks the head of the ready queue; every check but the first always passes. */
    method SelectSuccessor() returns (r: Result<Transfer, SuccessorError>)
      requires Valid()
      ensures r == SuccessorOutcome(View())
      ensures r.Err? <==> scheduler.ready.queue == []
    {
      var next := scheduler.ready.Peek();
      if next.None? {
        return Err(NoReadyTask);
      }
      HeadAgrees(View());
      var task := next.value;
      var tcb := S.Lookup(scheduler.tasks, task);
      if Some(task) == scheduler.current {
        assert false;
        return Err(TaskNotReady);
      }
      if tcb.None? || tcb.value.kind != Userspace {
        assert false;
        return Err(NotUserspace);
      }
      if tcb.value.state != TaskState.Ready {
        assert false;
        return Err(TaskNotReady);
      }
      var binding := userspace.Get(task);
      if binding.None? {
        assert false;
        return Err(MissingBinding);
      }
      var u := binding.value;
      var slot := P.Find(processes.View(), u.process);
      if slot.None? || slot.value.binding.None? || slot.value.binding.value.task != task
         || slot.value.binding.value.addressSpace != u.addressSpace || slot.value.state != Some(P.Ready) {
        assert false;
        return Err(ProcessBindingMismatch);
      }
      return Ok(Transfer(u.process, task, u.launch, u.resume));
    }

    /** Creates a task and attaches its execution handle. */
    method PrepareTask(priority: nat) returns (task: TaskId)
      requires scheduler.Valid() && S.HasRoom(scheduler.View())
      modifies scheduler
      ensures scheduler.Valid() && scheduler.View() == S.Prepared(old(scheduler.View()), priority, Userspace)
      ensures task == S.NextId(old(scheduler.View())) && S.CanMakeReady(scheduler.View(), task)
      ensures S.State(scheduler.View(), task) == Some(TaskState.Created)
      ensures !S.Live(old(scheduler.View()), task)
    {
      S.PreparedTask(scheduler.View(), priority, Userspace);
      S.CreateLookup(scheduler.View(), priority, Userspace);
      task := scheduler.CreateTask(priority, Userspace);
      var attached := scheduler.AttachExecution(task);
      if attached.Err? {
        assert false;
      }
    }

    /** Registers the process and binds the task to it, or changes nothing. */
    method EnterProcess(request: SpawnRequest, task: TaskId) returns (r: Result<ProcessId, SystemError>)
      requires processes.Valid() && userspace.Valid() && task !in userspace.contents
      modifies userspace, processes, processes.slots
      ensures processes.Valid() && userspace.Valid()
      ensures processes.View() == P.SpawnReady(old(processes.View()), request.image, task, task, request.image.addressSpace)
      ensures match P.Registration(old(processes.View()))
              case Err(error) => r == Err(ProcessError(error)) && userspace.contents == old(userspace.contents)
              case Ok(p) =>
                && r == Ok(p)
                && userspace.contents == old(userspace.contents)[task := UserBinding(p, request.image.addressSpace, request.launch, None)]
    {
      var spawned := processes.SpawnReady(request.image, task, task, request.image.addressSpace);
      if spawned.Err? {
        return Err(ProcessError(spawned.error));
      }
      var pushed := userspace.Push(task, UserBinding(spawned.value, request.image.addressSpace, request.launch, None));
      if !pushed {
        assert false;
      }
      return Ok(spawned.value);
    }

    /** Enters the task in the three registries, or in none of them. */
    method EnterRegistries(request: SpawnRequest, task: TaskId, exec: ExecBinding) returns (r: Result<ProcessId, SystemError>)
      requires processes.Valid() && executions.Valid() && userspace.Valid() && executions as object != userspace as object
      requires task !in executions.contents && task !in userspace.contents
      modifies executions, userspace, processes, processes.slots
      ensures processes.Valid() && executions.Valid() && userspace.Valid()
      ensures processes.View() == P.SpawnReady(old(processes.View()), request.image, task, task, request.image.addressSpace)
      ensures match P.Registration(old(processes.View()))
              case Err(error) =>
                && r == Err(ProcessError(error))
                && executions.contents == old(executions.contents) && userspace.contents == old(userspace.contents)
              case Ok(p) =>
                && r == Ok(p)
                && executions.contents == old(executions.contents)[task := exec]
                && userspace.contents == old(userspace.contents)[task := UserBinding(p, request.image.addressSpace, request.launch, None)]
    {
      ghost var stacks := executions.contents;
      var placed := executions.Place(task, exec);
      if !placed {
        assert false;
      }
      r := EnterProcess(request, task);
      if r.Err? {
        var _ := executions.Remove(task);
        assert executions.contents == stacks;
      }
    }

    /** Makes the entered task ready, or gives the task up when it cannot be entered. */
    method FinishSpawn(request: SpawnRequest, task: TaskId, exec: ExecBinding) returns (r: Result<ProcessId, SystemError>)
      requires Parts() && task !in executions.contents && task !in userspace.contents
      requires S.State(scheduler.View(), task) == Some(TaskState.Created) && S.CanMakeReady(scheduler.View(), task)
      modifies scheduler, scheduler.ready, executions, userspace, processes, processes.slots
      ensures Parts()
      ensures processes.View() == P.SpawnReady(old(processes.View()), request.image, task, task, request.image.addressSpace)
      ensures match P.Registration(old(processes.View()))
              case Err(error) =>
                && r == Err(ProcessError(error)) && scheduler.View() == S.Destroy(old(scheduler.View()), task)
                && executions.contents == old(executions.contents) && userspace.contents == old(userspace.contents)
              case Ok(p) =>
                && r == Ok(p) && scheduler.View() == S.MakeReady(old(scheduler.View()), task)
                && executions.contents == old(executions.contents)[task := exec]
                && userspace.contents == old(userspace.contents)[task := UserBinding(p, request.image.addressSpace, request.launch, None)]
    {
      r := EnterRegistries(request, task, exec);
      if r.Err? {
        var _ := scheduler.DestroyCreated(task);
      } else {
        var readied := scheduler.MakeReady(task);
        if !readied {
          assert false;
        }
      }
    }

    /** Runs the stages in order; each undoes the earlier ones when it fails. */
    method RunStages(request: SpawnRequest) returns (r: Result<(ProcessId, TaskId), SystemError>)
      requires Parts() && S.HasRoom(scheduler.View())
      requires forall t | t in executions.contents || t in userspace.contents :: S.Live(scheduler.View(), t)
      modifies scheduler, scheduler.ready, executions, userspace, processes, processes.slots
      ensures Parts() && View() == Spawn(old(View()), request)
      ensures r == SpawnOutcome(old(View()), request)
    {
      SpawnCases(View(), request);
      if request.launch.addressSpace != request.image.addressSpace {
        return Err(AddressSpaceMismatch);
      }
      var task := PrepareTask(request.priority);
      var exec := NewExec(request.stack);
      if exec.None? {
        var _ := scheduler.DestroyCreated(task);
        return Err(StackAllocationFailed);
      }
      var finished := FinishSpawn(request, task, exec.value);
      return if finished.Ok? then Ok((finished.value, task)) else Err(finished.error);
    }

    method SpawnUserReady(request: SpawnRequest) returns (r: Result<(ProcessId, TaskId), SystemError>)
      requires Valid() && S.HasRoom(scheduler.View()) && FrameOk(request.launch.frame)
      modifies Repr()
      ensures Valid() && View() == Spawn(old(View()), request)
      ensures r == SpawnOutcome(old(View()), request)
    {
      CommitKeepsInv(View(), ESpawn(request));
      r := RunStages(request);
    }

    /** The checks before the first mutation: the task, its stack top and its page-table root. */
    method CheckStart(process: ProcessId) returns (r: Result<(TaskId, nat, nat), SystemError>)
      requires Valid()
      ensures r == StartPlan(View(), process)
    {
      var slot := P.Find(processes.View(), process);
      if slot.None? {
        return Err(ProcessError(P.InvalidProcess));
      }
      StartBinding(View(), process);
      if slot.value.binding.None? {
        return Err(TaskBindingMismatch);
      }
      var task := slot.value.binding.value.task;
      var user := userspace.Get(task);
      if user.None? || user.value.process != process || user.value.addressSpace != slot.value.binding.value.addressSpace {
        return Err(TaskBindingMismatch);
      }
      if slot.value.state != Some(P.Ready) {
        return Err(ProcessError(P.InvalidTransition));
      }
      var exec := executions.Get(task);
      if exec.None? {
        assert false;
        return Err(KernelStackUnavailable);
      }
      if IsHead(View(), task) {
        HeadIsReady(View(), task);
      }
      if S.State(scheduler.View(), task) != Some(TaskState.Ready) || scheduler.ready.Peek() != Some(task) {
        return Err(SchedulerTaskNotReady);
      }
      return Ok((task, exec.value.stackTop, user.value.launch.root));
    }

    method CheckedStart(process: ProcessId) returns (error: Option<SystemError>)
      requires Valid()
      modifies Repr()
      ensures Parts() && View() == Step(old(View()), EStart(process))
      ensures error == StartOutcome(old(View()), process)
    {
      var checked := CheckStart(process);
      if StartOutcome(View(), process).None? {
        StartStep(View(), process);
      }
      if checked.Err? {
        return Some(checked.error);
      }
      var (task, top, launchRoot) := checked.value;
      SwitchIn(process, task, top, launchRoot);
      return None;
    }

    /** Puts a process on the CPU; it enters through its launch frame. The owners agree afterwards unless one was running. */
    method StartUser(process: ProcessId) returns (error: Option<SystemError>)
      requires Valid()
      modifies Repr()
      ensures Parts() && View() == Step(old(View()), EStart(process))
      ensures error == StartOutcome(old(View()), process)
      ensures Valid() <==> error.Some? || old(scheduler.current).None?
    {
      StartKeepsInvIff(View(), process);
      error := CheckedStart(process);
    }

    method SwitchIn(process: ProcessId, task: TaskId, top: nat, launchRoot: nat)
      requires Parts() && P.StartError(processes.View(), process).None?
      requires scheduler.ready.queue != [] && scheduler.ready.queue[0] == task
      modifies Repr()
      ensures Parts()
      ensures View() == old(View()).(procs := P.Start(old(processes.View()), process), sched := S.ScheduleNext(old(scheduler.View())),
                                     currentProcess := Some(process), pendingExit := None, stackTop := top,
                                     cpu := old(cpu.View()).(task := Some(task)), root := launchRoot)
    {
      pendingExit := None;
      var failed := processes.Start(process);
      var decision := scheduler.ScheduleNext();
      if failed.Some? || decision.next != Some(task) || scheduler.current != Some(task) {
        assert false;
      }
      InstallOwner(process, task, top);
      LoadRoot(launchRoot);
    }

    /** Takes the snapshot out of a binding, if it holds one. */
    method ClearResume(task: TaskId) returns (r: Option<Option<InterruptedState>>)
      requires userspace.Valid()
      modifies userspace
      ensures userspace.Valid()
      ensures if task !in old(userspace.contents) then r == None && userspace.contents == old(userspace.contents)
              else && r == Some(old(userspace.contents)[task].resume)
                   && userspace.contents == old(userspace.contents)[task := old(userspace.contents)[task].(resume := None)]
    {
      var binding := userspace.Get(task);
      if binding.None? {
        return None;
      }
      if binding.value.resume.Some? {
        userspace.Set(task, binding.value.(resume := None));
      }
      return Some(binding.value.resume);
    }

    /** The process and task registries name the same running pair. */
    method CurrentIsBound() returns (bound: bool)
      requires Valid() && currentProcess.Some? && scheduler.current.Some?
      ensures bound && currentProcess == Some(userspace.contents[scheduler.current.value].process)
    {
      ExactlyOneRunning(View());
      var slot := P.Find(processes.View(), currentProcess.value);
      bound := slot.Some? && slot.value.binding.Some? && slot.value.binding.value.task == scheduler.current.value
               && slot.value.state == Some(P.Running);
    }

    /** The transfer and the stack of the task that takes over. */
    method PlanSuccessor() returns (r: Result<(Transfer, nat), SystemError>)
      requires Valid() && scheduler.current.Some?
      ensures r == SuccessorPlan(View())
    {
      var successor := SelectSuccessor();
      if successor.Err? {
        return Err(Successor(successor.error));
      }
      var transfer := successor.value;
      HeadAgrees(View());
      if scheduler.current == Some(transfer.task)
         || (transfer.resume.Some? && !IsUserValid(transfer.resume.value))
         || (transfer.resume.None? && !FrameOk(transfer.launch.frame)) {
        assert false;
        return Err(TaskBindingMismatch);
      }
      var exec := executions.Get(transfer.task);
      if exec.None? {
        assert false;
        return Err(KernelStackUnavailable);
      }
      return Ok((transfer, exec.value.stackTop));
    }

    /** The process is ended and the task taken off the CPU for good. */
    method EndOwners(exiting: PendingExit, to: Transfer)
      requires processes.Valid() && scheduler.Valid()
      requires P.YieldError(processes.View(), exiting.process, to.process).None?
      requires scheduler.current == Some(exiting.task) && S.CanTerminateTo(scheduler.View(), to.task)
      modifies processes, processes.slots, scheduler, scheduler.ready
      ensures processes.Valid() && scheduler.Valid()
      ensures processes.View() == P.RequestExit(P.Start(old(processes.View()), to.process), exiting.process, 0)
      ensures scheduler.View() == S.TerminateTo(old(scheduler.View()), to.task)
    {
      EndProcess(exiting.process, to.process);
      var terminated := scheduler.TerminateCurrentTo(to.task);
      if terminated.Err? {
        assert false;
      }
    }

    /** The mutations of an exit; none of them can fail. */
    method HandOver(exiting: PendingExit, to: Transfer, top: nat)
      requires Parts()
      requires P.YieldError(processes.View(), exiting.process, to.process).None?
      requires scheduler.current == Some(exiting.task) && S.CanTerminateTo(scheduler.View(), to.task)
      requires to.task in userspace.contents && exiting.task in userspace.contents
      modifies Repr()
      ensures Parts()
      ensures var s := old(View());
              View() == s.(procs := P.RequestExit(P.Start(s.procs, to.process), exiting.process, 0),
                           sched := S.TerminateTo(s.sched, to.task), stacks := s.stacks - {exiting.task},
                           users := (s.users - {exiting.task})[to.task := s.users[to.task].(resume := None)],
                           currentProcess := Some(to.process), pendingExit := None, stackTop := top,
                           cpu := s.cpu.(task := Some(to.task)))
    {
      EndOwners(exiting, to);
      DropBindings(exiting.task, to.task);
      pendingExit := None;
      InstallOwner(to.process, to.task, top);
    }

    /** The kernel stack, the current process and the CPU slot of the task that takes over. */
    method InstallOwner(process: ProcessId, task: TaskId, top: nat)
      requires Parts()
      modifies this`stackTop, this`currentProcess, cpu`task
      ensures Parts()
      ensures View() == old(View()).(currentProcess := Some(process), stackTop := top, cpu := old(cpu.View()).(task := Some(task)))
    {
      stackTop, currentProcess := top, Some(process);
      cpu.task := Some(task);
    }

    method DropBindings(exiting: TaskId, successor: TaskId)
      requires userspace.Valid() && executions.Valid() && executions as object != userspace as object
      requires successor in userspace.contents && exiting != successor
      modifies userspace, executions
      ensures userspace.Valid() && executions.Valid()
      ensures executions.contents == old(executions.contents) - {exiting}
      ensures userspace.contents ==
              (old(userspace.contents) - {exiting})[successor := old(userspace.contents)[successor].(resume := None)]
    {
      var _ := userspace.Remove(exiting);
      var _ := executions.Remove(exiting);
      var _ := ClearResume(successor);
    }

    method EndProcess(exiting: ProcessId, successor: ProcessId)
      requires processes.Valid() && P.YieldError(processes.View(), exiting, successor).None?
      modifies processes.slots
      ensures processes.Valid()
      ensures processes.View() == P.RequestExit(P.Start(old(processes.View()), successor), exiting, 0)
    {
      P.HandOverFind(processes.View(), exiting, successor, 0);
      var started := processes.Start(successor);
      var ended := processes.RequestExit(exiting, 0);
      if started.Some? || ended.Some? {
        assert false;
      }
    }

    method PlanExit() returns (r: Result<(Transfer, nat), SystemError>)
      requires Valid()
      ensures r == ExitPlan(View())
    {
      if pendingExit.None? {
        return Err(NoCurrentProcess);
      }
      var exiting := pendingExit.value;
      if currentProcess != Some(exiting.process) || scheduler.current != Some(exiting.task) {
        return Err(TaskBindingMismatch);
      }
      r := PlanSuccessor();
      if r.Err? {
        return;
      }
      var bound := CurrentIsBound();
      if !bound {
        assert false;
      }
    }

    method CheckedExit() returns (r: Result<Transfer, SystemError>)
      requires Valid()
      modifies Repr()
      ensures Parts() && View() == CommitExit(old(View()))
      ensures r == ExitOutcome(old(View()))
    {
      ExitPlanMeans(View());
      var plan := PlanExit();
      if plan.Err? {
        return Err(plan.error);
      }
      var (transfer, top) := plan.value;
      ExitReady(View());
      ExitEquation(View(), pendingExit.value, transfer);
      HandOver(pendingExit.value, transfer, top);
      return Ok(transfer);
    }

    /** All or nothing: an error leaves every owner as it was. */
    method CommitPendingExit() returns (r: Result<Transfer, SystemError>)
      requires Valid()
      modifies Repr()
      ensures Valid() && View() == CommitExit(old(View()))
      ensures r == ExitOutcome(old(View()))
      ensures r.Err? ==> View() == old(View())
    {
      if ExitOutcome(View()).Ok? { ExitKeepsInv(View()); }
      r := CheckedExit();
    }

    /** Stores the snapshot of a task that holds none. */
    method InstallResume(task: TaskId, snapshot: InterruptedState) returns (ok: bool)
      requires userspace.Valid()
      modifies userspace
      ensures userspace.Valid()
      ensures ok == (task in old(userspace.contents) && old(userspace.contents)[task].resume.None? && IsUserValid(snapshot))
      ensures userspace.contents == if ok then old(userspace.contents)[task := old(userspace.contents)[task].(resume := Some(snapshot))]
                                    else old(userspace.contents)
    {
      var binding := userspace.Get(task);
      if binding.None? || binding.value.resume.Some? || !IsUserValid(snapshot) {
        return false;
      }
      userspace.Set(task, binding.value.(resume := Some(snapshot)));
      return true;
    }

    method SwapBindings(captured: Option<Captured>, current: TaskId, successor: TaskId)
      requires userspace.Valid() && current in userspace.contents && successor in userspace.contents && current != successor
      requires userspace.contents[current].resume.None?
      requires captured.Some? ==> captured.value.task == current && IsUserValid(captured.value.snapshot)
      modifies userspace
      ensures userspace.Valid()
      ensures var u := old(userspace.contents);
              var left := match captured case None => u[current].resume case Some(x) => Some(x.snapshot);
              userspace.contents == u[current := u[current].(resume := left)][successor := u[successor].(resume := None)]
    {
      if captured.Some? {
        var installed := InstallResume(current, captured.value.snapshot);
        if !installed {
          assert false;
        }
      }
      var _ := ClearResume(successor);
    }

    method SwapOwners(captured: Option<Captured>, current: TaskId, from: ProcessId, to: Transfer)
      requires userspace.Valid() && processes.Valid() && P.YieldError(processes.View(), from, to.process).None?
      requires current in userspace.contents && to.task in userspace.contents && current != to.task
      requires userspace.contents[current].resume.None?
      requires captured.Some? ==> captured.value.task == current && IsUserValid(captured.value.snapshot)
      modifies userspace, processes.slots
      ensures userspace.Valid() && processes.Valid()
      ensures processes.View() == P.YieldTo(old(processes.View()), from, to.process)
      ensures var u := old(userspace.contents);
              var left := match captured case None => u[current].resume case Some(x) => Some(x.snapshot);
              userspace.contents == u[current := u[current].(resume := left)][to.task := u[to.task].(resume := None)]
    {
      SwapBindings(captured, current, to.task);
      var failed := processes.YieldTo(from, to.process);
      if failed.Some? {
        assert false;
      }
    }

    /** The mutations of a yield; none of them can fail. */
    method Swap(captured: Option<Captured>, current: TaskId, from: ProcessId, to: Transfer, top: nat)
      requires Parts() && P.YieldError(processes.View(), from, to.process).None?
      requires scheduler.current == Some(current) && scheduler.ready.queue != [] && scheduler.ready.queue[0] == to.task
      requires current in userspace.contents && to.task in userspace.contents && current != to.task
      requires userspace.contents[current].resume.None?
      requires captured.Some? ==> captured.value.task == current && IsUserValid(captured.value.snapshot)
      modifies Repr()
      ensures Parts()
      ensures var s := old(View());
              var left := match captured case None => s.users[current].resume case Some(x) => Some(x.snapshot);
              View() == s.(procs := P.YieldTo(s.procs, from, to.process), sched := S.ScheduleNext(s.sched),
                           users := s.users[current := s.users[current].(resume := left)][to.task := s.users[to.task].(resume := None)],
                           currentProcess := Some(to.process), stackTop := top, cpu := s.cpu.(task := Some(to.task)))
    {
      SwapOwners(captured, current, from, to);
      var decision := scheduler.ScheduleNext();
      if decision.next != Some(to.task) || scheduler.current != Some(to.task) {
        assert false;
      }
      InstallOwner(to.process, to.task, top);
    }

    method SwapAsPlanned(captured: Option<Captured>, to: Transfer, top: nat)
      requires Valid() && Yields(View(), captured)
      requires to == TransferOf(View(), scheduler.ready.queue[0]) && top == executions.contents[to.task].stackTop
      modifies Repr()
      ensures Parts() && View() == CommitYield(old(View()), captured)
    {
      YieldReady(View(), captured);
      YieldEquation(View(), captured, scheduler.current.value, to.task);
      Swap(captured, scheduler.current.value, currentProcess.value, to, top);
    }

    /** The checks of a yield, before the first mutation. */
    method PlanYield(captured: Option<Captured>) returns (r: Result<Option<(Transfer, nat)>, SystemError>)
      requires Valid()
      ensures r == YieldPlan(View(), captured)
    {
      YieldPlanCases(View(), captured);
      if currentProcess.None? || scheduler.current.None? {
        return Err(NoCurrentProcess);
      }
      var bound := CurrentIsBound();
      if !bound {
        assert false;
        return Err(TaskBindingMismatch);
      }
      var plan := PlanSuccessor();
      if plan.Err? {
        return Ok(None);
      }
      if captured.Some? && (captured.value.task != scheduler.current.value || !IsUserValid(captured.value.snapshot)) {
        return Err(TaskBindingMismatch);
      }
      return Ok(Some(plan.value));
    }

    method CheckedYield(captured: Option<Captured>) returns (r: Result<Option<Transfer>, SystemError>)
      requires Valid()
      modifies Repr()
      ensures Parts() && View() == CommitYield(old(View()), captured)
      ensures r == YieldOutcome(old(View()), captured)
    {
      YieldPlanMeans(View(), captured);
      var plan := PlanYield(captured);
      if plan.Err? {
        return Err(plan.error);
      }
      if plan.value.None? {
        return Ok(None);
      }
      var (transfer, top) := plan.value.value;
      SwapAsPlanned(captured, transfer, top);
      return Ok(Some(transfer));
    }

    /** All or nothing: without a transfer every owner is as it was. */
    method CommitUserspaceYield(captured: Option<Captured>) returns (r: Result<Option<Transfer>, SystemError>)
      requires Valid()
      modifies Repr()
      ensures Valid() && View() == CommitYield(old(View()), captured)
      ensures r == YieldOutcome(old(View()), captured)
      ensures r.Err? || r.value.None? ==> View() == old(View())
    {
      if Yields(View(), captured) { YieldKeepsInv(View(), captured); }
      r := CheckedYield(captured);
    }

    /** The caller of a lifecycle system call, unless an exit is already pending. */
    method CheckedCaller() returns (caller: Option<(ProcessId, TaskId)>)
      requires Valid()
      ensures caller == if CallerChecked(View()) then Some((currentProcess.value, scheduler.current.value)) else None
    {
      if pendingExit.Some? || currentProcess.None? || scheduler.current.None? {
        return None;
      }
      var bound := CurrentIsBound();
      var user := userspace.Get(scheduler.current.value);
      ExactlyOneRunning(View());
      if !bound || user.None? || user.value.process != currentProcess.value
         || Some(user.value.addressSpace) != AddressSpaceOf(currentProcess.value) {
        assert false;
        return None;
      }
      return Some((currentProcess.value, scheduler.current.value));
    }

    function AddressSpaceOf(p: ProcessId): Option<nat>
      reads processes, processes.slots
    {
      var b := P.BindingOf(processes.View(), p);
      if b.Some? then Some(b.value.addressSpace) else None
    }

    method RecordExit(process: ProcessId, task: TaskId, code: nat)
      requires Parts()
      modifies this
      ensures Parts()
      ensures View() == old(View()).(pendingExit := Some(PendingExit(process, task, code)), reschedule := true)
    {
      pendingExit := Some(PendingExit(process, task, code));
      reschedule := true;
    }

    method LoadRoot(value: nat)
      requires Parts()
      modifies this`root
      ensures Parts() && View() == old(View()).(root := value)
    {
      root := value;
    }

    method AcceptedExit(process: ProcessId, task: TaskId, code: nat) returns (output: Option<Transfer>)
      requires Valid() && CallerChecked(View()) && currentProcess == Some(process) && scheduler.current == Some(task)
      modifies Repr()
      ensures Parts() && View() == Step(old(View()), EExit(code))
      ensures output == Output(old(View()), EExit(code))
    {
      ExitStep(View(), code);
      SameOwnersKeepInv(View(), SystemState.RequestExit(View(), code));
      RecordExit(process, task, code);
      var committed := CommitPendingExit();
      if committed.Err? {
        return None;
      }
      LoadRoot(committed.value.launch.root);
      return Some(committed.value);
    }

    method PublishAction(action: Action)
      requires Parts()
      modifies cpu
      ensures Parts() && View() == old(View()).(cpu := old(cpu.View()).(action := Some(action)))
    {
      cpu.action := Some(action);
    }

    method CheckedExitCall(code: nat) returns (output: Option<Transfer>)
      requires Valid()
      modifies Repr()
      ensures Parts() && View() == Step(old(View()), EExit(code))
      ensures output == Output(old(View()), EExit(code))
    {
      var caller := CheckedCaller();
      if caller.None? {
        ExitRefused(View(), code);
        PublishAction(Return);
        return None;
      }
      output := AcceptedExit(caller.value.0, caller.value.1, code);
    }

    /** The exit system call: record it, then hand the CPU over if anyone is ready. */
    method ExitCall(code: nat) returns (output: Option<Transfer>)
      requires Valid()
      modifies Repr()
      ensures Valid() && View() == Step(old(View()), EExit(code))
      ensures output == Output(old(View()), EExit(code))
    {
      StepKeepsInv(View(), EExit(code));
      output := CheckedExitCall(code);
    }

    method RequestReschedule()
      requires Parts()
      modifies this`reschedule
      ensures Parts() && View() == old(View()).(reschedule := true)
    {
      reschedule := true;
    }

    /** The yield system call only leaves a request for the next tick. */
    method YieldCall()
      requires Valid()
      modifies Repr()
      ensures Valid() && View() == Step(old(View()), EYield)
    {
      StepKeepsInv(View(), EYield);
      var caller := CheckedCaller();
      if caller.None? {
        PublishAction(Return);
      } else {
        RequestReschedule();
        PublishAction(Reschedule);
      }
    }

    /** Any other system call overwrites the action mailbox. */
    method OtherCall()
      requires Valid()
      modifies Repr()
      ensures Valid() && View() == Step(old(View()), EOtherCall)
    {
      StepKeepsInv(View(), EOtherCall);
      PublishAction(Return);
    }

    /** Empties the action mailbox. */
    method TakeAction() returns (action: Option<Action>)
      requires Parts()
      modifies cpu`action
      ensures Parts() && action == old(cpu.action)
      ensures View() == old(View()).(cpu := old(cpu.View()).(action := None))
    {
      action := cpu.TakeAction();
    }

    /** Empties the snapshot mailbox. */
    method TakeInterrupted() returns (captured: Option<Captured>)
      requires Parts()
      modifies cpu`interrupted
      ensures Parts() && captured == old(cpu.interrupted)
      ensures View() == old(View()).(cpu := old(cpu.View()).(interrupted := None))
    {
      captured := cpu.TakeInterrupted();
    }

    /** Puts the interrupted state in the mailbox. */
    method Capture(snapshot: InterruptedState) returns (r: Result<TaskId, CaptureError>)
      requires Parts() && cpu.interrupted.None?
      modifies cpu`interrupted
      ensures Parts()
      ensures r.Ok? <==> cpu.task.Some? && IsValid(snapshot)
      ensures if r.Ok? then r == Ok(cpu.task.value)
                         && View() == old(View()).(cpu := old(cpu.View()).(interrupted := Some(Captured(r.value, snapshot))))
              else View() == old(View())
    {
      r := cpu.Capture(snapshot);
    }

    /** The yield a tick commits on behalf of the task it interrupted. */
    method TickYield(ghost s: Sys) returns (output: Option<Transfer>)
      requires Parts() && Inv(s) && s == View().(cpu := View().cpu.(interrupted := None))
      modifies Repr()
      ensures Parts()
      ensures (View(), output) == Yielded(s, old(cpu.interrupted))
    {
      // The commit never looks at the mailbox, so emptying it first changes nothing.
      var captured := TakeInterrupted();
      var committed := CheckedYield(captured);
      if committed.Err? || committed.value.None? {
        return None;
      }
      LoadRoot(committed.value.value.launch.root);
      return committed.value;
    }

    method AnswerTick(ghost before: Sys, ghost captured: Captured, ghost taken: Sys) returns (output: Option<Transfer>)
      requires before.sched.current.Some? && before.sched.current.value in before.users
      requires before.cpu.action != Some(Terminate) && Inv(taken) && taken == before.(cpu := before.cpu.(action := None))
      requires Parts() && View() == before.(cpu := before.cpu.(interrupted := Some(captured)))
      modifies Repr()
      ensures Parts()
      ensures if before.cpu.action == Some(Reschedule) then (View(), output) == Yielded(taken, Some(captured))
              else View() == taken && output == None
    {
      var binding := userspace.Get(scheduler.current.value);
      if binding.None? {
        assert false;
      }
      var action := TakeAction();
      if action == Some(Terminate) {
        assert false;
      }
      if action == Some(Reschedule) {
        output := TickYield(taken);
      } else {
        var _ := TakeInterrupted();
        output := None;
      }
    }

    method CheckedTick(snapshot: InterruptedState) returns (output: Option<Transfer>)
      requires Valid()
      modifies Repr()
      ensures Parts()
      ensures if old(scheduler.current).Some? && IsValid(snapshot)
              then (View(), output) == Answered(old(View()), Captured(old(scheduler.current).value, snapshot))
              else View() == old(View()) && output == None
    {
      ghost var before := View();
      var captured := Capture(snapshot);
      if captured.Err? {
        return None;
      }
      ActionTaken(before);
      output := AnswerTick(before, Captured(captured.value, snapshot), before.(cpu := before.cpu.(action := None)));
    }

    /** The timer entry: capture, then commit a requested yield; the mailbox is empty afterwards. */
    method TimerEntry(snapshot: InterruptedState) returns (output: Option<Transfer>)
      requires Valid()
      modifies Repr()
      ensures Valid() && View() == Step(old(View()), ETimer(snapshot))
      ensures output == Output(old(View()), ETimer(snapshot)) && cpu.interrupted == None
    {
      StepKeepsInv(View(), ETimer(snapshot));
      if View().sched.current.Some? && IsValid(snapshot) {
        TickStep(View(), snapshot);
      } else {
        TickIgnored(View(), snapshot);
      }
      output := CheckedTick(snapshot);
    }
  }
}
