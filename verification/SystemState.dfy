/**
 The userspace execution protocol as a value: every owner of process, task, stack, binding
 and CPU state in one record, the steps that change them, what every step keeps and what
 holds over every run (kernel/src/arch/x86_64/system_runtime.rs and its callers).
 */
module SystemState {
  import opened Prelude
  import opened Tasks
  import opened Layout
  import opened Snapshots
  import opened Bindings
  import opened CpuLocals
  import S = SchedulerState
  import P = Processes

  type ProcessId = P.ProcessId

  datatype PendingExit = PendingExit(process: ProcessId, task: TaskId, code: nat)

  datatype Sys = Sys(
    procs: P.Procs, sched: S.Sched, stacks: map<TaskId, ExecBinding>, users: map<TaskId, UserBinding>,
    currentProcess: Option<ProcessId>, pendingExit: Option<PendingExit>, reschedule: bool,
    cpu: Cpu, stackTop: nat, root: nat)

  /** A return to user mode: through `resume` if there is one, else through the launch frame. */
  datatype Transfer = Transfer(process: ProcessId, task: TaskId, launch: Launch, resume: Option<InterruptedState>)

  datatype SuccessorError = NoReadyTask | NotUserspace | MissingBinding | ProcessBindingMismatch | TaskNotReady

  datatype SystemError =
    | StackAllocationFailed | UserBindingError | ProcessError(error: P.ProcessError) | AddressSpaceMismatch
    | NoCurrentProcess | TaskBindingMismatch | SchedulerTaskNotReady | Successor(reason: SuccessorError)
    | KernelStackUnavailable

  // ----- the invariant -----

  /** All owners describe the live task `t` in the same way. */
  ghost predicate Agree(s: Sys, t: TaskId) {
    && t in s.users && t in s.stacks && ExecOk(s.stacks[t])
    && S.Live(s.sched, t)
    && var tcb := S.Lookup(s.sched.tasks, t).value;
       var u := s.users[t];
       && tcb.kind == Userspace && tcb.execution == Some(t) && (tcb.state == TaskState.Ready || tcb.state == TaskState.Running)
       && FrameOk(u.launch.frame) && u.launch.addressSpace == u.addressSpace
       && (u.resume.Some? ==> IsUserValid(u.resume.value))
       && P.Find(s.procs, u.process).Some?
       && var slot := P.Find(s.procs, u.process).value;
          && slot.binding == Some(P.ProcessBinding(u.process, t, t, u.addressSpace))
          && slot.image.Some? && slot.image.value.addressSpace == u.addressSpace
          && slot.state == Some(if tcb.state == TaskState.Running then P.Running else P.Ready)
  }

  predicate Unfinished(s: Sys, p: ProcessId) {
    P.StateOf(s.procs, p) == Some(P.Ready) || P.StateOf(s.procs, p) == Some(P.Running)
  }

  /** The process is bound to a live task that is bound to it. */
  ghost predicate Owned(s: Sys, p: ProcessId) {
    && P.BindingOf(s.procs, p).Some? && P.BindingOf(s.procs, p).value.task in s.users
    && s.users[P.BindingOf(s.procs, p).value.task].process == p
  }

  /** Live tasks, stacks, bindings and unfinished processes correspond one to one. */
  ghost predicate OneToOne(s: Sys) {
    && (forall t :: S.Live(s.sched, t) <==> t in s.users)
    && s.stacks.Keys == s.users.Keys
    && (forall t {:trigger Agree(s, t)} | t in s.users :: Agree(s, t))
    && (forall p {:trigger Owned(s, p)} | Unfinished(s, p) :: Owned(s, p))
  }

  /** The CPU side describes the scheduler's current task, which holds no snapshot. */
  ghost predicate CpuAgrees(s: Sys) {
    && s.cpu.task == s.sched.current
    && s.cpu.interrupted.None?
    && s.cpu.action != Some(Terminate)
    && match s.sched.current
       case None => s.currentProcess.None? && s.pendingExit.None? && forall t | t in s.users :: s.users[t].resume.None?
       case Some(t) =>
         && t in s.users && t in s.stacks
         && s.currentProcess == Some(s.users[t].process)
         && s.stackTop == s.stacks[t].stackTop
         && s.users[t].resume.None?
  }

  ghost predicate Inv(s: Sys) {
    S.Inv(s.sched) && P.Inv(s.procs) && OneToOne(s) && CpuAgrees(s)
  }

  /** Between steps the active page-table root is the current task's as well. */
  ghost predicate Settled(s: Sys) {
    Inv(s) && forall t | s.sched.current == Some(t) && t in s.users :: s.root == s.users[t].launch.root
  }

  const Boot: Sys := Sys(
    P.NoProcesses, S.Empty, map[], map[], None, None, false, Cpu(None, None, None), 0, 0)

  lemma BootSettled()
    ensures Settled(Boot)
  {
  }

  /** After start exactly one process is Running: the current one, on the task every owner names. */
  lemma ExactlyOneRunning(s: Sys)
    requires Inv(s) && s.sched.current.Some?
    ensures var t := s.sched.current.value;
            && s.currentProcess.Some?
            && (forall p :: P.StateOf(s.procs, p) == Some(P.Running) <==> s.currentProcess == Some(p))
            && P.BindingOf(s.procs, s.currentProcess.value) ==
               Some(P.ProcessBinding(s.currentProcess.value, t, t, s.users[t].addressSpace))
            && s.cpu.task == Some(t) && s.stackTop == s.stacks[t].stackTop
  {
    var t := s.sched.current.value;
    assert S.State(s.sched, t) == Some(TaskState.Running);
    assert Agree(s, t);
    forall p | P.StateOf(s.procs, p) == Some(P.Running) ensures s.currentProcess == Some(p) {
      assert Owned(s, p);
      var t' := P.BindingOf(s.procs, p).value.task;
      assert Agree(s, t');
      assert S.State(s.sched, t') == Some(TaskState.Running);
    }
  }

  // ----- the steps -----

  function TransferOf(s: Sys, t: TaskId): Transfer
    requires t in s.users
  {
    Transfer(s.users[t].process, t, s.users[t].launch, s.users[t].resume)
  }

  datatype SpawnRequest = SpawnRequest(image: ProcessImage, launch: Launch, priority: nat, stack: Option<StackAllocation>)

  /** Which of the stages fails first, if any. */
  function SpawnOutcome(s: Sys, r: SpawnRequest): Result<(ProcessId, TaskId), SystemError>
    requires |s.procs.slots| == P.MAX_PROCESSES
  {
    if r.launch.addressSpace != r.image.addressSpace then Err(AddressSpaceMismatch)
    else if NewExec(r.stack).None? then Err(StackAllocationFailed)
    else match P.Registration(s.procs)
      case Err(error) => Err(ProcessError(error))
      case Ok(p) => Ok((p, S.NextId(s.sched)))
  }

  function Spawn(s: Sys, r: SpawnRequest): (n: Sys)
    requires |s.procs.slots| == P.MAX_PROCESSES
    ensures |n.procs.slots| == P.MAX_PROCESSES
  {
    var prepared := S.Prepared(s.sched, r.priority, Userspace);
    match SpawnOutcome(s, r)
    case Err(AddressSpaceMismatch) => s
    case Err(_) => s.(sched := S.Destroy(prepared, S.NextId(s.sched)))
    case Ok((p, t)) =>
      s.(sched := S.MakeReady(prepared, t),
         procs := P.SpawnReady(s.procs, r.image, t, t, r.image.addressSpace),
         stacks := s.stacks[t := NewExec(r.stack).value],
         users := s.users[t := UserBinding(p, r.image.addressSpace, r.launch, None)])
  }

  function StartOutcome(s: Sys, p: ProcessId): Option<SystemError> {
    match P.Find(s.procs, p)
    case None => Some(ProcessError(P.InvalidProcess))
    case Some(slot) =>
      if slot.state == Some(P.Exited) then Some(TaskBindingMismatch)
      else if slot.state != Some(P.Ready) then Some(ProcessError(P.InvalidTransition))
      else if slot.binding.None? || s.sched.ready == [] || s.sched.ready[0] != slot.binding.value.task then Some(SchedulerTaskNotReady)
      else None
  }

  /** The chosen process takes the CPU through its launch frame. */
  function StartUser(s: Sys, p: ProcessId): (n: Sys)
    ensures |n.procs.slots| == |s.procs.slots|
  {
    if StartOutcome(s, p).Some? then s
    else
      var t := P.Find(s.procs, p).value.binding.value.task;
      if t !in s.stacks then s
      else s.(procs := P.Start(s.procs, p), sched := S.ScheduleNext(s.sched), currentProcess := Some(p),
              pendingExit := None, stackTop := s.stacks[t].stackTop, cpu := s.cpu.(task := Some(t)))
  }

  /** The head of the ready queue, when the owners agree on it. */
  predicate HasSuccessor(s: Sys) {
    s.sched.ready != [] && s.sched.ready[0] in s.users && s.sched.ready[0] in s.stacks
  }

  function SuccessorOutcome(s: Sys): Result<Transfer, SuccessorError> {
    if HasSuccessor(s) then Ok(TransferOf(s, s.sched.ready[0])) else Err(NoReadyTask)
  }

  function ExitOutcome(s: Sys): Result<Transfer, SystemError> {
    match s.pendingExit
    case None => Err(NoCurrentProcess)
    case Some(x) =>
      if s.currentProcess != Some(x.process) || s.sched.current != Some(x.task) then Err(TaskBindingMismatch)
      else if !HasSuccessor(s) then Err(Successor(NoReadyTask))
      else Ok(TransferOf(s, s.sched.ready[0]))
  }

  /** The current task ends and the head of the ready queue takes over; the recorded code is 0. */
  function CommitExit(s: Sys): (n: Sys)
    ensures |n.procs.slots| == |s.procs.slots|
  {
    if ExitOutcome(s).Err? then s
    else
      var x := s.pendingExit.value;
      var h := s.sched.ready[0];
      var u := s.users[h];
      s.(procs := P.RequestExit(P.Start(s.procs, u.process), x.process, 0), sched := S.TerminateTo(s.sched, h),
         stacks := s.stacks - {x.task}, users := (s.users - {x.task})[h := u.(resume := None)],
         currentProcess := Some(u.process), pendingExit := None, stackTop := s.stacks[h].stackTop,
         cpu := s.cpu.(task := Some(h)))
  }

  function YieldOutcome(s: Sys, captured: Option<Captured>): Result<Option<Transfer>, SystemError> {
    if s.currentProcess.None? || s.sched.current.None? then Err(NoCurrentProcess)
    else if !HasSuccessor(s) then Ok(None)
    else if captured.Some? && (Some(captured.value.task) != s.sched.current || !IsUserValid(captured.value.snapshot))
    then Err(TaskBindingMismatch)
    else Ok(Some(TransferOf(s, s.sched.ready[0])))
  }

  /** The current task goes to the back of the queue with its snapshot; the head takes over. */
  function CommitYield(s: Sys, captured: Option<Captured>): (n: Sys)
    ensures |n.procs.slots| == |s.procs.slots|
  {
    var outcome := YieldOutcome(s, captured);
    if outcome.Err? || outcome.value.None? || s.sched.current.value !in s.users then s
    else
      var c, h := s.sched.current.value, s.sched.ready[0];
      var left := match captured case None => s.users[c].resume case Some(x) => Some(x.snapshot);
      var u := s.users[h];
      s.(procs := P.YieldTo(s.procs, s.currentProcess.value, u.process), sched := S.ScheduleNext(s.sched),
         users := s.users[c := s.users[c].(resume := left)][h := u.(resume := None)],
         currentProcess := Some(u.process), stackTop := s.stacks[h].stackTop, cpu := s.cpu.(task := Some(h)))
  }

  /** Lifecycle system calls are refused while an exit is pending. */
  predicate CallerChecked(s: Sys) {
    s.pendingExit.None? && s.currentProcess.Some? && s.sched.current.Some?
  }

  function RequestExit(s: Sys, code: nat): Sys {
    if CallerChecked(s)
    then s.(pendingExit := Some(PendingExit(s.currentProcess.value, s.sched.current.value, code)), reschedule := true)
    else s
  }

  datatype Event =
    | ESpawn(request: SpawnRequest)
    | EStart(process: ProcessId)
    | EExit(code: nat)
    | EYield
    | EOtherCall
    | ETimer(snapshot: InterruptedState)

  /** Ids left to issue; a launch made by PrepareLaunch; start only while nothing runs. */
  predicate Enabled(s: Sys, e: Event) {
    match e
    case ESpawn(r) => S.HasRoom(s.sched) && FrameOk(r.launch.frame)
    case EStart(_) => s.sched.current.None?
    case _ => true
  }

  /** The transfer a step performs, if any. */
  function Output(s: Sys, e: Event): Option<Transfer> {
    match e
    case EStart(p) =>
      if StartOutcome(s, p).Some? then None
      else
        var t := P.Find(s.procs, p).value.binding.value.task;
        if t in s.users then Some(Transfer(p, t, s.users[t].launch, None)) else None
    case EExit(code) =>
      if !CallerChecked(s) then None
      else (match ExitOutcome(RequestExit(s, code)) case Ok(t) => Some(t) case Err(_) => None)
    case ETimer(x) =>
      if s.sched.current.None? || !IsValid(x) || s.cpu.action != Some(Reschedule) then None
      else (match YieldOutcome(s, Some(Captured(s.sched.current.value, x))) case Ok(t) => t case Err(_) => None)
    case _ => None
  }

  /** Everything but the page-table root, which the transfer itself loads. */
  function Commit(s: Sys, e: Event): (n: Sys)
    requires |s.procs.slots| == P.MAX_PROCESSES
    ensures |n.procs.slots| == P.MAX_PROCESSES
  {
    match e
    case ESpawn(r) => Spawn(s, r)
    case EStart(p) => StartUser(s, p)
    case EExit(code) =>
      if CallerChecked(s) then CommitExit(RequestExit(s, code)) else s.(cpu := s.cpu.(action := Some(Return)))
    case EYield =>
      if CallerChecked(s) then s.(reschedule := true, cpu := s.cpu.(action := Some(Reschedule)))
      else s.(cpu := s.cpu.(action := Some(Return)))
    case EOtherCall => s.(cpu := s.cpu.(action := Some(Return)))
    case ETimer(x) =>
      if s.sched.current.None? || !IsValid(x) then s
      else
        var taken := s.(cpu := s.cpu.(action := None));
        if s.cpu.action == Some(Reschedule) then CommitYield(taken, Some(Captured(s.sched.current.value, x))) else taken
  }

  function Step(s: Sys, e: Event): (n: Sys)
    requires |s.procs.slots| == P.MAX_PROCESSES
    ensures |n.procs.slots| == P.MAX_PROCESSES
  {
    var r := Commit(s, e);
    match Output(s, e)
    case None => r
    case Some(t) => r.(root := t.launch.root)
  }

  // ----- every step keeps the invariant -----

  /** Under the invariant the head of the queue can always be switched to. */
  lemma HeadAgrees(s: Sys)
    requires Inv(s) && s.sched.ready != []
    ensures HasSuccessor(s) && Agree(s, s.sched.ready[0])
    ensures S.State(s.sched, s.sched.ready[0]) == Some(TaskState.Ready) && s.sched.current != Some(s.sched.ready[0])
    ensures s.sched.current.Some? ==>
              P.YieldError(s.procs, s.currentProcess.value, s.users[s.sched.ready[0]].process).None?
  {
    S.OwnerAndHead(s.sched);
    assert Agree(s, s.sched.ready[0]);
    if s.sched.current.Some? { ExactlyOneRunning(s); }
  }

  /**
   What a switch from `c` to `h` does to every owner: the run states of the two tasks and of their
   processes change, `c` disappears when it exits, and bindings change only in their snapshot.
   */
  ghost predicate SwitchEffect(s: Sys, r: Sys, h: TaskId, exits: bool) {
    && h in s.users && s.sched.current != Some(h)
    && (s.sched.current.Some? ==> s.sched.current.value in s.users)
    && TaskEffect(s, r, h, exits)
    && ProcessEffect(s, r, h, exits)
    && r.users.Keys == r.stacks.Keys == s.users.Keys - (if exits && s.sched.current.Some? then {s.sched.current.value} else {})
    && (forall x {:trigger BindingKept(s, r, x)} | x in r.users :: BindingKept(s, r, x))
  }

  ghost predicate TaskEffect(s: Sys, r: Sys, h: TaskId, exits: bool) {
    forall x {:trigger S.Lookup(r.sched.tasks, x)} :: S.Lookup(r.sched.tasks, x) ==
      if x == h then Started(s.sched, x, TaskState.Running)
      else if s.sched.current == Some(x) then (if exits then None else Started(s.sched, x, TaskState.Ready))
      else S.Lookup(s.sched.tasks, x)
  }

  ghost predicate ProcessEffect(s: Sys, r: Sys, h: TaskId, exits: bool)
    requires h in s.users && (s.sched.current.Some? ==> s.sched.current.value in s.users)
  {
    forall q {:trigger P.Find(r.procs, q)} :: P.Find(r.procs, q) ==
      if q == s.users[h].process then Moved(s.procs, q, P.Running)
      else if s.sched.current.Some? && q == s.users[s.sched.current.value].process
      then (if exits then Ended(s.procs, q) else Moved(s.procs, q, P.Ready))
      else P.Find(s.procs, q)
  }

  function Started(sched: S.Sched, x: TaskId, state: TaskState): Option<Tcb> {
    var t := S.Lookup(sched.tasks, x);
    if t.Some? then Some(t.value.(state := state)) else None
  }

  function Moved(procs: P.Procs, q: ProcessId, state: P.ProcessState): Option<P.Slot> {
    var slot := P.Find(procs, q);
    if slot.Some? then Some(slot.value.(state := Some(state))) else None
  }

  function Ended(procs: P.Procs, q: ProcessId): Option<P.Slot> {
    var slot := P.Find(procs, q);
    if slot.Some? then Some(slot.value.(state := Some(P.Exited), exitCode := Some(0))) else None
  }

  ghost predicate BindingKept(s: Sys, r: Sys, x: TaskId) {
    && x in s.users && x in s.stacks && x in r.users && x in r.stacks && r.stacks[x] == s.stacks[x]
    && r.users[x] == s.users[x].(resume := r.users[x].resume)
    && (r.users[x].resume.Some? ==> IsUserValid(r.users[x].resume.value))
  }

  lemma SwitchKeepsAgreement(s: Sys, r: Sys, h: TaskId, exits: bool, x: TaskId)
    requires S.Inv(s.sched) && OneToOne(s) && SwitchEffect(s, r, h, exits) && x in r.users
    ensures Agree(r, x)
  {
    assert BindingKept(s, r, x);
    assert Agree(s, x) && Agree(s, h);
    assert S.State(s.sched, x) == Some(TaskState.Running) ==> s.sched.current == Some(x);
    if s.sched.current.Some? { assert Agree(s, s.sched.current.value); }
  }

  lemma SwitchKeepsOneToOne(s: Sys, r: Sys, h: TaskId, exits: bool)
    requires S.Inv(s.sched) && OneToOne(s) && SwitchEffect(s, r, h, exits)
    ensures OneToOne(r)
  {
    forall x | x in r.users ensures Agree(r, x) {
      SwitchKeepsAgreement(s, r, h, exits, x);
    }
    forall q | Unfinished(r, q) ensures Owned(r, q) {
      SwitchKeepsOwner(s, r, h, exits, q);
    }
  }

  lemma SwitchKeepsOwner(s: Sys, r: Sys, h: TaskId, exits: bool, q: ProcessId)
    requires OneToOne(s) && SwitchEffect(s, r, h, exits) && Unfinished(r, q)
    ensures Owned(r, q)
  {
    assert Agree(s, h);
    if s.sched.current.Some? { assert Agree(s, s.sched.current.value); }
    assert Owned(s, q);
    assert BindingKept(s, r, P.BindingOf(s.procs, q).value.task);
  }

  // Start.

  lemma StartEffect(s: Sys, p: ProcessId)
    requires Inv(s) && s.sched.current.None? && StartOutcome(s, p).None?
    ensures SwitchEffect(s, StartUser(s, p), s.sched.ready[0], false)
  {
    assert Owned(s, p);
    HeadAgrees(s);
    S.DispatchLookup(s.sched);
    StartProcesses(s, p);
  }

  lemma StartProcesses(s: Sys, p: ProcessId)
    requires P.StateOf(s.procs, p) == Some(P.Ready) && P.BindingOf(s.procs, p).Some?
    ensures forall q {:trigger P.Find(P.Start(s.procs, p), q)} ::
              P.Find(P.Start(s.procs, p), q) == if q == p then Moved(s.procs, q, P.Running) else P.Find(s.procs, q)
  {
    P.WithStateFind(s.procs, p, P.Running);
  }

  lemma StartKeepsInv(s: Sys, p: ProcessId)
    requires Inv(s) && s.sched.current.None? && StartOutcome(s, p).None?
    ensures Inv(StartUser(s, p))
  {
    StartEffect(s, p);
    StartOwner(s, p);
    S.ScheduleNextKeepsInv(s.sched);
    P.StepKeepsInv(s.procs, P.EStart(p));
    SwitchKeepsInv(s, StartUser(s, p), s.sched.ready[0], false);
  }

  /** After a start the head owns CPU slot, stack and process. */
  lemma StartOwner(s: Sys, p: ProcessId)
    requires Inv(s) && s.sched.current.None? && StartOutcome(s, p).None?
    ensures var r := StartUser(s, p);
            CpuAgrees(r) && r.sched == S.ScheduleNext(s.sched) && r.procs == P.Start(s.procs, p)
  {
    assert Owned(s, p);
    HeadAgrees(s);
  }

  /** Starting a process keeps the owners in agreement exactly when nothing is running: nobody demotes the other. */
  lemma StartNeedsIdle(s: Sys, p: ProcessId)
    requires Inv(s) && StartOutcome(s, p).None?
    ensures Inv(StartUser(s, p)) <==> s.sched.current.None?
  {
    if s.sched.current.None? {
      StartKeepsInv(s, p);
    } else {
      var c, n := s.sched.current.value, StartUser(s, p);
      assert Owned(s, p) && Agree(s, c);
      HeadAgrees(s);
      S.OwnerAndHead(s.sched);
      S.DispatchLookup(s.sched);
      P.WithStateFind(s.procs, p, P.Running);
      assert !Agree(n, c);
    }
  }

  lemma StartKeepsInvIff(s: Sys, p: ProcessId)
    requires Inv(s)
    ensures Inv(Step(s, EStart(p))) <==> StartOutcome(s, p).Some? || s.sched.current.None?
  {
    if StartOutcome(s, p).None? {
      StartNeedsIdle(s, p);
      RootIsFree(StartUser(s, p), Step(s, EStart(p)).root);
    }
  }

  /** The owners' agreement does not depend on the loaded page-table root. */
  lemma RootIsFree(s: Sys, root: nat)
    ensures Inv(s.(root := root)) <==> Inv(s)
  {
    SameAgreement(s, s.(root := root));
    SameAgreement(s.(root := root), s);
  }

  lemma SameAgreement(s: Sys, r: Sys)
    requires r == s.(root := r.root)
    ensures Inv(s) ==> Inv(r)
  {
    if Inv(s) {
      forall t | t in r.users ensures Agree(r, t) {
        assert Agree(s, t);
      }
      forall q | Unfinished(r, q) ensures Owned(r, q) {
        assert Owned(s, q);
      }
    }
  }

  // Yield.

  predicate Yields(s: Sys, captured: Option<Captured>) {
    YieldOutcome(s, captured).Ok? && YieldOutcome(s, captured).value.Some?
  }

  lemma YieldBindings(s: Sys, captured: Option<Captured>, x: TaskId)
    requires OneToOne(s) && CpuAgrees(s) && Yields(s, captured) && x in s.users
    ensures BindingKept(s, CommitYield(s, captured), x)
  {
    assert Agree(s, x);
  }

  lemma YieldProcesses(s: Sys, captured: Option<Captured>)
    requires Inv(s) && Yields(s, captured)
    ensures s.sched.current.value in s.users
    ensures ProcessEffect(s, CommitYield(s, captured), s.sched.ready[0], false)
  {
    HeadAgrees(s);
    P.YieldFind(s.procs, s.currentProcess.value, s.users[s.sched.ready[0]].process);
  }

  lemma YieldEffect(s: Sys, captured: Option<Captured>)
    requires Inv(s) && Yields(s, captured)
    ensures SwitchEffect(s, CommitYield(s, captured), s.sched.ready[0], false)
  {
    S.OwnerAndHead(s.sched);
    YieldProcesses(s, captured);
    S.DispatchLookup(s.sched);
    forall x | x in s.users ensures BindingKept(s, CommitYield(s, captured), x) {
      YieldBindings(s, captured, x);
    }
  }

  lemma YieldKeepsInv(s: Sys, captured: Option<Captured>)
    requires Inv(s) && Yields(s, captured)
    ensures Inv(CommitYield(s, captured))
  {
    YieldEffect(s, captured);
    YieldOwner(s, captured);
    S.ScheduleNextKeepsInv(s.sched);
    P.StepKeepsInv(s.procs, P.EYieldTo(s.currentProcess.value, s.users[s.sched.ready[0]].process));
    SwitchKeepsInv(s, CommitYield(s, captured), s.sched.ready[0], false);
  }

  /** After a yield the head owns CPU slot, stack and process. */
  lemma YieldOwner(s: Sys, captured: Option<Captured>)
    requires Inv(s) && Yields(s, captured)
    ensures var r := CommitYield(s, captured);
            CpuAgrees(r) && r.sched == S.ScheduleNext(s.sched)
            && r.procs == P.YieldTo(s.procs, s.currentProcess.value, s.users[s.sched.ready[0]].process)
  {
    S.OwnerAndHead(s.sched);
  }

  lemma SwitchKeepsInv(s: Sys, r: Sys, h: TaskId, exits: bool)
    requires Inv(s) && SwitchEffect(s, r, h, exits) && S.Inv(r.sched) && P.Inv(r.procs) && CpuAgrees(r)
    ensures Inv(r)
  {
    SwitchKeepsOneToOne(s, r, h, exits);
  }

  // Exit.

  lemma ExitBindings(s: Sys, x: TaskId)
    requires OneToOne(s) && ExitOutcome(s).Ok? && x in s.users && Some(x) != s.sched.current
    ensures BindingKept(s, CommitExit(s), x)
  {
    assert Agree(s, x);
  }

  lemma ExitProcesses(s: Sys)
    requires Inv(s) && ExitOutcome(s).Ok?
    ensures s.sched.current.value in s.users
    ensures ProcessEffect(s, CommitExit(s), s.sched.ready[0], true)
    ensures P.Inv(CommitExit(s).procs)
  {
    var hp := s.users[s.sched.ready[0]].process;
    HeadAgrees(s);
    P.HandOverFind(s.procs, s.currentProcess.value, hp, 0);
    P.StepKeepsInv(s.procs, P.EStart(hp));
    P.StepKeepsInv(P.Start(s.procs, hp), P.ERequestExit(s.currentProcess.value, 0));
  }

  lemma ExitEffect(s: Sys)
    requires Inv(s) && ExitOutcome(s).Ok?
    ensures SwitchEffect(s, CommitExit(s), s.sched.ready[0], true)
  {
    S.OwnerAndHead(s.sched);
    ExitProcesses(s);
    S.TerminateLookup(s.sched, s.sched.ready[0]);
    forall x | x in CommitExit(s).users ensures BindingKept(s, CommitExit(s), x) {
      ExitBindings(s, x);
    }
  }

  lemma ExitKeepsInv(s: Sys)
    requires Inv(s) && ExitOutcome(s).Ok?
    ensures Inv(CommitExit(s))
  {
    ExitEffect(s);
    SwitchKeepsOneToOne(s, CommitExit(s), s.sched.ready[0], true);
    S.TerminateKeepsInv(s.sched, s.sched.ready[0]);
    ExitProcesses(s);
  }

  // Spawn.

  lemma SpawnedProcess(procs: P.Procs, image: ProcessImage, t: TaskId)
    requires P.Inv(procs) && P.Registration(procs).Ok?
    ensures var p := P.Registration(procs).value;
            var r := P.SpawnReady(procs, image, t, t, image.addressSpace);
            && P.Inv(r) && P.Find(procs, p).None?
            && P.AttachError(P.Register(procs, image), p, t, t, image.addressSpace).None?
            && forall q :: P.Find(r, q) ==
                 if q == p then Some(P.Slot(p.generation, Some(image), Some(P.Ready), Some(P.ProcessBinding(p, t, t, image.addressSpace)), None))
                 else P.Find(procs, q)
  {
    var p := P.Registration(procs).value;
    P.StepKeepsInv(procs, P.ERegister(image));
    P.RegisterFind(procs, image);
    var q := P.Register(procs, image);
    P.StepKeepsInv(q, P.EAttach(p, t, t, image.addressSpace));
    P.PutFind(q, p, P.Find(q, p).value.(binding := Some(P.ProcessBinding(p, t, t, image.addressSpace))));
  }

  /** Owners that look the same agree in the same way. */
  lemma SameLookupsAgree(s: Sys, r: Sys, x: TaskId)
    requires Agree(s, x)
    requires x in r.users && x in r.stacks && r.users[x] == s.users[x] && r.stacks[x] == s.stacks[x]
    requires S.Lookup(r.sched.tasks, x) == S.Lookup(s.sched.tasks, x)
    requires P.Find(r.procs, s.users[x].process) == P.Find(s.procs, s.users[x].process)
    ensures Agree(r, x)
  {
  }

  /** How each way a spawn can end changes the state. */
  lemma SpawnCases(s: Sys, r: SpawnRequest)
    requires |s.procs.slots| == P.MAX_PROCESSES
    ensures var made, id := S.Prepared(s.sched, r.priority, Userspace), S.NextId(s.sched);
            if r.launch.addressSpace != r.image.addressSpace
            then Spawn(s, r) == s && SpawnOutcome(s, r) == Err(AddressSpaceMismatch)
            else if NewExec(r.stack).None?
            then Spawn(s, r) == s.(sched := S.Destroy(made, id)) && SpawnOutcome(s, r) == Err(StackAllocationFailed)
            else match P.Registration(s.procs)
              case Err(e) => Spawn(s, r) == s.(sched := S.Destroy(made, id)) && SpawnOutcome(s, r) == Err(ProcessError(e))
              case Ok(p) =>
                && SpawnOutcome(s, r) == Ok((p, id))
                && Spawn(s, r) ==
                   s.(sched := S.MakeReady(made, id), procs := P.SpawnReady(s.procs, r.image, id, id, r.image.addressSpace),
                      stacks := s.stacks[id := NewExec(r.stack).value],
                      users := s.users[id := UserBinding(p, r.image.addressSpace, r.launch, None)])
  {
  }

  /** One more task and process, on which the owners agree, keeps the correspondence. */
  lemma AddedOneToOne(s: Sys, n: Sys, p: ProcessId, t: TaskId)
    requires OneToOne(s) && Agree(n, t) && t !in s.users && P.Find(s.procs, p).None? && n.users[t].process == p
    requires n.users == s.users[t := n.users[t]] && n.stacks == s.stacks[t := n.stacks[t]]
    requires forall x | x != t :: S.Lookup(n.sched.tasks, x) == S.Lookup(s.sched.tasks, x)
    requires forall q | q != p :: P.Find(n.procs, q) == P.Find(s.procs, q)
    ensures OneToOne(n)
  {
    AddedLive(s, n, t);
    forall x | x in n.users ensures Agree(n, x) {
      if x != t { AddedAgree(s, n, p, t, x); }
    }
    forall q | Unfinished(n, q) ensures Owned(n, q) {
      AddedOwner(s, n, p, t, q);
    }
  }

  lemma AddedLive(s: Sys, n: Sys, t: TaskId)
    requires OneToOne(s) && Agree(n, t) && n.users == s.users[t := n.users[t]] && n.stacks == s.stacks[t := n.stacks[t]]
    requires forall x | x != t :: S.Lookup(n.sched.tasks, x) == S.Lookup(s.sched.tasks, x)
    ensures (forall x :: S.Live(n.sched, x) <==> x in n.users) && n.stacks.Keys == n.users.Keys
  {
    forall x ensures S.Live(n.sched, x) <==> x in n.users {
      assert S.Live(s.sched, x) <==> x in s.users;
    }
  }

  lemma AddedAgree(s: Sys, n: Sys, p: ProcessId, t: TaskId, x: TaskId)
    requires OneToOne(s) && x in s.users && x != t && P.Find(s.procs, p).None? && t in n.users && t in n.stacks
    requires n.users == s.users[t := n.users[t]] && n.stacks == s.stacks[t := n.stacks[t]]
    requires S.Lookup(n.sched.tasks, x) == S.Lookup(s.sched.tasks, x)
    requires forall q | q != p :: P.Find(n.procs, q) == P.Find(s.procs, q)
    ensures Agree(n, x)
  {
    assert Agree(s, x);
    SameLookupsAgree(s, n, x);
  }

  lemma AddedOwner(s: Sys, n: Sys, p: ProcessId, t: TaskId, q: ProcessId)
    requires OneToOne(s) && Agree(n, t) && t !in s.users && n.users[t].process == p && n.users == s.users[t := n.users[t]]
    requires q != p ==> P.Find(n.procs, q) == P.Find(s.procs, q)
    requires Unfinished(n, q)
    ensures Owned(n, q)
  {
    if q != p { assert Owned(s, q); }
  }

  lemma SpawnSucceeds(s: Sys, r: SpawnRequest)
    requires Inv(s) && S.HasRoom(s.sched) && FrameOk(r.launch.frame) && SpawnOutcome(s, r).Ok?
    ensures Inv(Spawn(s, r)) && S.NextId(s.sched) !in s.users
    ensures Spawn(s, r).sched.ready == s.sched.ready + [S.NextId(s.sched)] && Spawn(s, r).sched.current == s.sched.current
  {
    var n := Spawn(s, r);
    var (p, t) := SpawnOutcome(s, r).value;
    SpawnedTables(s, r);
    SpawnedAgrees(s, r);
    AddedOneToOne(s, n, p, t);
    SpawnedCpu(s, r);
  }

  /** What a spawn does to the two tables and the two registries. */
  lemma SpawnedTables(s: Sys, r: SpawnRequest)
    requires Inv(s) && S.HasRoom(s.sched) && SpawnOutcome(s, r).Ok?
    ensures var n, t, p := Spawn(s, r), S.NextId(s.sched), SpawnOutcome(s, r).value.0;
            && S.Inv(n.sched) && P.Inv(n.procs) && t !in s.users && P.Find(s.procs, p).None?
            && n.sched.ready == s.sched.ready + [t] && n.sched.current == s.sched.current
            && t in n.users && n.users == s.users[t := n.users[t]] && n.users[t].process == p && n.users[t].resume.None?
            && t in n.stacks && n.stacks == s.stacks[t := n.stacks[t]]
            && (forall x | x != t :: S.Lookup(n.sched.tasks, x) == S.Lookup(s.sched.tasks, x))
            && (forall q | q != p :: P.Find(n.procs, q) == P.Find(s.procs, q))
  {
    S.SpawnedTask(s.sched, r.priority, Userspace);
    SpawnedProcess(s.procs, r.image, S.NextId(s.sched));
  }

  lemma SpawnedCpu(s: Sys, r: SpawnRequest)
    requires Inv(s) && S.HasRoom(s.sched) && SpawnOutcome(s, r).Ok?
    ensures CpuAgrees(Spawn(s, r))
  {
    SpawnedTables(s, r);
    AddedCpu(s, Spawn(s, r), S.NextId(s.sched));
  }

  /** A binding without a snapshot for another task does not concern the CPU. */
  lemma AddedCpu(s: Sys, n: Sys, t: TaskId)
    requires CpuAgrees(s) && t !in s.users && t !in s.stacks && t in n.users && t in n.stacks && n.users[t].resume.None?
    requires n.users == s.users[t := n.users[t]] && n.stacks == s.stacks[t := n.stacks[t]]
    requires n.cpu == s.cpu && n.sched.current == s.sched.current && n.currentProcess == s.currentProcess
    requires n.pendingExit == s.pendingExit && n.stackTop == s.stackTop
    ensures CpuAgrees(n)
  {
  }

  lemma SpawnedAgrees(s: Sys, r: SpawnRequest)
    requires Inv(s) && S.HasRoom(s.sched) && FrameOk(r.launch.frame) && SpawnOutcome(s, r).Ok?
    ensures Agree(Spawn(s, r), S.NextId(s.sched))
  {
    S.SpawnedTask(s.sched, r.priority, Userspace);
    SpawnedProcess(s.procs, r.image, S.NextId(s.sched));
  }

  /**
   A spawn that fails, at any stage, leaves every live task, process, binding, stack and the
   ready queue as they were; only the scheduler's generations and free slots may change.
   */
  lemma SpawnFailureIsInvisible(s: Sys, r: SpawnRequest)
    requires Inv(s) && S.HasRoom(s.sched) && SpawnOutcome(s, r).Err?
    ensures var n := Spawn(s, r);
            && n == s.(sched := n.sched)
            && n.sched.ready == s.sched.ready && n.sched.current == s.sched.current
            && (forall x :: S.Lookup(n.sched.tasks, x) == S.Lookup(s.sched.tasks, x))
            && Inv(n)
  {
    S.AbandonedTask(s.sched, r.priority, Userspace);
    SameLookupsKeepInv(s, Spawn(s, r));
  }

  lemma SameLookupsKeepInv(s: Sys, n: Sys)
    requires Inv(s) && S.Inv(n.sched) && n == s.(sched := n.sched) && n.sched.current == s.sched.current
    requires forall x :: S.Lookup(n.sched.tasks, x) == S.Lookup(s.sched.tasks, x)
    ensures Inv(n)
  {
    forall x | x in s.users ensures Agree(n, x) {
      assert Agree(s, x);
      SameLookupsAgree(s, n, x);
    }
    forall q | Unfinished(n, q) ensures Owned(n, q) {
      assert Owned(s, q);
    }
  }

  // ----- every step -----

  /** Only CPU-local bookkeeping changed. */
  lemma SameOwnersKeepInv(s: Sys, r: Sys)
    requires Inv(s)
    requires r == s.(pendingExit := r.pendingExit, reschedule := r.reschedule, cpu := s.cpu.(action := r.cpu.action), root := r.root)
    requires r.cpu.action != Some(Terminate) && (s.sched.current.None? ==> r.pendingExit.None?)
    ensures Inv(r)
  {
    forall x | x in s.users ensures Agree(r, x) {
      assert Agree(s, x);
      SameLookupsAgree(s, r, x);
    }
    forall q | Unfinished(r, q) ensures Owned(r, q) {
      assert Owned(s, q);
    }
  }

  lemma ExitCallKeepsInv(s: Sys, code: nat)
    requires Inv(s)
    ensures Inv(Commit(s, EExit(code)))
  {
    if CallerChecked(s) {
      var asked := RequestExit(s, code);
      SameOwnersKeepInv(s, asked);
      if ExitOutcome(asked).Ok? { ExitKeepsInv(asked); }
    } else {
      SameOwnersKeepInv(s, Commit(s, EExit(code)));
    }
  }

  /** A tick leaves the state alone, takes the action, or takes the action and switches. */
  lemma TimerCases(s: Sys, x: InterruptedState)
    requires s.sched.current.Some? && |s.procs.slots| == P.MAX_PROCESSES
    ensures var taken := s.(cpu := s.cpu.(action := None));
            var captured := Some(Captured(s.sched.current.value, x));
            var r := Commit(s, ETimer(x));
            r == s || r == taken || (Yields(taken, captured) && r == CommitYield(taken, captured))
  {
  }

  lemma TimerKeepsInv(s: Sys, x: InterruptedState, r: Sys)
    requires Inv(s) && s.sched.current.Some? && r == Commit(s, ETimer(x))
    ensures Inv(r)
  {
    var taken := s.(cpu := s.cpu.(action := None));
    var captured := Some(Captured(s.sched.current.value, x));
    TimerCases(s, x);
    SameOwnersKeepInv(s, taken);
    if Yields(taken, captured) { YieldKeepsInv(taken, captured); }
  }

  lemma CommitKeepsInv(s: Sys, e: Event)
    requires Inv(s) && Enabled(s, e)
    ensures Inv(Commit(s, e))
  {
    match e
    case ESpawn(r) => if SpawnOutcome(s, r).Ok? { SpawnSucceeds(s, r); } else { SpawnFailureIsInvisible(s, r); }
    case EStart(p) => if StartOutcome(s, p).None? { StartKeepsInv(s, p); }
    case EExit(code) => ExitCallKeepsInv(s, code);
    case EYield => SameOwnersKeepInv(s, Commit(s, e));
    case EOtherCall => SameOwnersKeepInv(s, Commit(s, e));
    case ETimer(x) => if s.sched.current.Some? { TimerKeepsInv(s, x, Commit(s, e)); }
  }

  /** A transfer goes to the task that is current afterwards, through that task's own binding. */
  lemma OutputIsNewCurrent(s: Sys, e: Event)
    requires Inv(s) && Enabled(s, e) && Output(s, e).Some?
    ensures Enters(s, Output(s, e).value, Commit(s, e))
  {
    match e
    case EStart(p) => StartEnters(s, p);
    case EExit(code) => ExitEnters(s, code);
    case ETimer(x) => TimerEnters(s, x);
  }

  /** A transfer to the head of the queue through its own binding, which is current afterwards without its snapshot. */
  ghost predicate Enters(s: Sys, t: Transfer, r: Sys) {
    && t.task in s.users && s.sched.ready != [] && t.task == s.sched.ready[0]
    && s.sched.current != Some(t.task) && r.sched.current == Some(t.task)
    && t.process == s.users[t.task].process && t.launch == s.users[t.task].launch && t.resume == s.users[t.task].resume
    && t.task in r.users && r.users[t.task] == s.users[t.task].(resume := None)
  }

  lemma StartEnters(s: Sys, p: ProcessId)
    requires Inv(s) && s.sched.current.None? && Output(s, EStart(p)).Some?
    ensures Enters(s, Output(s, EStart(p)).value, Commit(s, EStart(p)))
  {
    assert Owned(s, p);
    HeadAgrees(s);
  }

  lemma ExitEnters(s: Sys, code: nat)
    requires Inv(s) && Output(s, EExit(code)).Some?
    ensures Enters(s, Output(s, EExit(code)).value, Commit(s, EExit(code)))
  {
    S.OwnerAndHead(s.sched);
  }

  lemma TimerEnters(s: Sys, x: InterruptedState)
    requires Inv(s) && Output(s, ETimer(x)).Some?
    ensures Enters(s, Output(s, ETimer(x)).value, Commit(s, ETimer(x)))
  {
    S.OwnerAndHead(s.sched);
  }

  lemma StartHasOutput(s: Sys, p: ProcessId)
    requires Inv(s)
    ensures StartOutcome(s, p).None? ==> Output(s, EStart(p)).Some?
  {
    if StartOutcome(s, p).None? { assert Owned(s, p); }
  }

  lemma NoOutputNoSwitch(s: Sys, e: Event)
    requires Inv(s) && Enabled(s, e) && Output(s, e).None?
    ensures Commit(s, e).sched.current == s.sched.current && Commit(s, e).root == s.root
    ensures forall t | t in s.users :: t in Commit(s, e).users && Commit(s, e).users[t] == s.users[t]
  {
    if e.ESpawn? {
      SpawnNoSwitch(s, e.request);
    } else {
      QuietCommit(s, e);
    }
  }

  /** A step other than a spawn that hands nothing over leaves the scheduler, the bindings and the root alone. */
  lemma QuietCommit(s: Sys, e: Event)
    requires Inv(s) && !e.ESpawn? && Output(s, e).None?
    ensures SameTasks(s, Commit(s, e))
  {
    match e
    case EStart(p) => StartHasOutput(s, p);
    case EExit(code) => QuietExit(s, code);
    case ETimer(x) => QuietTimer(s, x);
    case _ =>
  }

  ghost predicate SameTasks(s: Sys, r: Sys) {
    r.sched == s.sched && r.users == s.users && r.root == s.root
  }

  lemma QuietExit(s: Sys, code: nat)
    requires |s.procs.slots| == P.MAX_PROCESSES && Output(s, EExit(code)).None?
    ensures SameTasks(s, Commit(s, EExit(code)))
  {
  }

  lemma QuietTimer(s: Sys, x: InterruptedState)
    requires |s.procs.slots| == P.MAX_PROCESSES && Output(s, ETimer(x)).None?
    ensures SameTasks(s, Commit(s, ETimer(x)))
  {
  }

  lemma SpawnNoSwitch(s: Sys, r: SpawnRequest)
    requires Inv(s) && S.HasRoom(s.sched) && FrameOk(r.launch.frame)
    ensures Spawn(s, r).sched.current == s.sched.current && Spawn(s, r).root == s.root
    ensures forall t | t in s.users :: t in Spawn(s, r).users && Spawn(s, r).users[t] == s.users[t]
    ensures s.sched.ready <= Spawn(s, r).sched.ready
  {
    if SpawnOutcome(s, r).Ok? { SpawnSucceeds(s, r); } else { SpawnFailureIsInvisible(s, r); }
  }

  lemma RootLoaded(r: Sys, t: TaskId, root: nat)
    requires Inv(r) && r.sched.current == Some(t) && r.users[t].launch.root == root
    ensures Settled(r.(root := root))
  {
    SameOwnersKeepInv(r, r.(root := root));
  }

  lemma StepKeepsSettled(s: Sys, e: Event)
    requires Settled(s) && Enabled(s, e)
    ensures Settled(Step(s, e))
  {
    CommitKeepsInv(s, e);
    var r, output := Commit(s, e), Output(s, e);
    assert Step(s, e) == if output.Some? then r.(root := output.value.launch.root) else r;
    if output.Some? {
      OutputIsNewCurrent(s, e);
      RootLoaded(r, output.value.task, output.value.launch.root);
    } else {
      NoOutputNoSwitch(s, e);
      RootKept(s, r);
    }
  }

  lemma RootKept(s: Sys, r: Sys)
    requires Settled(s) && Inv(r) && r.sched.current == s.sched.current && r.root == s.root
    requires forall t | t in s.users :: t in r.users && r.users[t] == s.users[t]
    ensures Settled(r)
  {
  }

  lemma StepKeepsInv(s: Sys, e: Event)
    requires Inv(s) && Enabled(s, e)
    ensures Inv(Step(s, e))
  {
    CommitKeepsInv(s, e);
    if Output(s, e).Some? { SameOwnersKeepInv(Commit(s, e), Step(s, e)); }
  }

  // ----- what the checks of a start find -----

  /** What a start needs: the task, its stack top and its page-table root. */
  function StartPlan(s: Sys, p: ProcessId): Result<(TaskId, nat, nat), SystemError> {
    match StartOutcome(s, p)
    case Some(error) => Err(error)
    case None =>
      var t := s.sched.ready[0];
      if t in s.stacks && t in s.users then Ok((t, s.stacks[t].stackTop, s.users[t].launch.root)) else Err(KernelStackUnavailable)
  }

  predicate IsHead(s: Sys, t: TaskId) {
    s.sched.ready != [] && s.sched.ready[0] == t
  }

  /** The head of the queue is ready. */
  lemma HeadIsReady(s: Sys, t: TaskId)
    requires Inv(s) && IsHead(s, t)
    ensures S.State(s.sched, t) == Some(TaskState.Ready)
  {
    S.OwnerAndHead(s.sched);
  }

  lemma StartBinding(s: Sys, p: ProcessId)
    requires Inv(s) && P.Find(s.procs, p).Some?
    ensures Unfinished(s, p) || P.StateOf(s.procs, p) == Some(P.Exited)
    ensures Unfinished(s, p) ==> P.BindingOf(s.procs, p).Some?
    ensures P.BindingOf(s.procs, p).Some? ==>
              var b := P.BindingOf(s.procs, p).value;
              if Unfinished(s, p)
              then b.task in s.users && b.task in s.stacks && s.users[b.task].process == p && s.users[b.task].addressSpace == b.addressSpace
              else b.task !in s.users || s.users[b.task].process != p
    ensures StartOutcome(s, p) ==
              if !Unfinished(s, p) then Some(TaskBindingMismatch)
              else if P.StateOf(s.procs, p) != Some(P.Ready) then Some(ProcessError(P.InvalidTransition))
              else if IsHead(s, P.BindingOf(s.procs, p).value.task) then None else Some(SchedulerTaskNotReady)
  {
    assert P.SlotOk(s.procs.slots[p.index]);
    var state := P.StateOf(s.procs, p).value;
    assert state.Constructing? || state.Ready? || state.Running? || state.Exited?;
    if Unfinished(s, p) { assert Owned(s, p); }
    var b := P.BindingOf(s.procs, p);
    if b.Some? && b.value.task in s.users { assert Agree(s, b.value.task); }
  }

  /** A start in one equation. */
  lemma StartStep(s: Sys, p: ProcessId)
    requires Inv(s) && StartOutcome(s, p).None?
    ensures var t := s.sched.ready[0];
            && t in s.users && t in s.stacks
            && Step(s, EStart(p)) ==
               s.(procs := P.Start(s.procs, p), sched := S.ScheduleNext(s.sched), currentProcess := Some(p), pendingExit := None,
                  stackTop := s.stacks[t].stackTop, cpu := s.cpu.(task := Some(t)), root := s.users[t].launch.root)
    ensures P.StartError(s.procs, p).None?
    ensures StartPlan(s, p) == Ok((s.sched.ready[0], s.stacks[s.sched.ready[0]].stackTop, s.users[s.sched.ready[0]].launch.root))
  {
    assert Owned(s, p);
  }

  /** What the mutations of a yield rely on. */
  lemma YieldReady(s: Sys, captured: Option<Captured>)
    requires Inv(s) && Yields(s, captured)
    ensures var c, h := s.sched.current.value, s.sched.ready[0];
            && c in s.users && h in s.users && h in s.stacks && c != h && s.users[c].resume.None?
            && P.YieldError(s.procs, s.currentProcess.value, s.users[h].process).None?
            && (captured.Some? ==> captured.value.task == c && IsUserValid(captured.value.snapshot))
  {
    HeadAgrees(s);
  }

  /** A committed yield in one equation. */
  lemma YieldEquation(s: Sys, captured: Option<Captured>, c: TaskId, h: TaskId)
    requires Yields(s, captured) && s.sched.current == Some(c) && s.sched.ready[0] == h
    requires c in s.users && h in s.users && h in s.stacks && s.currentProcess.Some?
    ensures var left := match captured case None => s.users[c].resume case Some(x) => Some(x.snapshot);
            CommitYield(s, captured) ==
              s.(procs := P.YieldTo(s.procs, s.currentProcess.value, s.users[h].process), sched := S.ScheduleNext(s.sched),
                 users := s.users[c := s.users[c].(resume := left)][h := s.users[h].(resume := None)],
                 currentProcess := Some(s.users[h].process), stackTop := s.stacks[h].stackTop, cpu := s.cpu.(task := Some(h)))
  {
  }

  /** A yield together with the page-table root its transfer loads. */
  function Yielded(s: Sys, captured: Option<Captured>): (Sys, Option<Transfer>) {
    match YieldOutcome(s, captured)
    case Ok(Some(t)) => (CommitYield(s, captured).(root := t.launch.root), Some(t))
    case _ => (s, None)
  }

  /** A captured tick: the action is taken, and a requested yield is committed. */
  function Answered(s: Sys, captured: Captured): (Sys, Option<Transfer>) {
    var taken := s.(cpu := s.cpu.(action := None));
    if s.cpu.action != Some(Reschedule) then (taken, None) else Yielded(taken, Some(captured))
  }

  lemma ActionTaken(s: Sys)
    requires Inv(s)
    ensures Inv(s.(cpu := s.cpu.(action := None)))
  {
    SameOwnersKeepInv(s, s.(cpu := s.cpu.(action := None)));
  }

  /** What the hand-over of an exit may rely on. */
  lemma ExitReady(s: Sys)
    requires Inv(s) && ExitOutcome(s).Ok?
    ensures var x, h := s.pendingExit.value, s.sched.ready[0];
            && s.sched.current == Some(x.task) && x.task in s.users && h in s.users
            && P.YieldError(s.procs, x.process, s.users[h].process).None? && S.CanTerminateTo(s.sched, h)
            && ExitOutcome(s).value == TransferOf(s, h)
  {
    HeadAgrees(s);
    ExactlyOneRunning(s);
  }

  lemma ExitEquation(s: Sys, x: PendingExit, t: Transfer)
    requires ExitOutcome(s) == Ok(t) && s.pendingExit == Some(x)
    ensures t.task in s.users && t.task in s.stacks
    ensures CommitExit(s) ==
              s.(procs := P.RequestExit(P.Start(s.procs, t.process), x.process, 0), sched := S.TerminateTo(s.sched, t.task),
                 stacks := s.stacks - {x.task}, users := (s.users - {x.task})[t.task := s.users[t.task].(resume := None)],
                 currentProcess := Some(t.process), pendingExit := None, stackTop := s.stacks[t.task].stackTop,
                 cpu := s.cpu.(task := Some(t.task)))
  {
  }

  /** What a switch needs: the transfer and the stack of the task that takes over. */
  function SuccessorPlan(s: Sys): Result<(Transfer, nat), SystemError> {
    match SuccessorOutcome(s)
    case Err(reason) => Err(Successor(reason))
    case Ok(t) => if t.task in s.stacks then Ok((t, s.stacks[t.task].stackTop)) else Err(KernelStackUnavailable)
  }

  /** What an exit needs besides. */
  function ExitPlan(s: Sys): Result<(Transfer, nat), SystemError> {
    match ExitOutcome(s)
    case Err(error) => Err(error)
    case Ok(t) => if t.task in s.stacks then Ok((t, s.stacks[t.task].stackTop)) else Err(KernelStackUnavailable)
  }

  lemma ExitPlanMeans(s: Sys)
    requires Inv(s)
    ensures match ExitPlan(s)
            case Err(error) => ExitOutcome(s) == Err(error) && CommitExit(s) == s
            case Ok((t, top)) => ExitOutcome(s) == Ok(t) && t.task in s.stacks && top == s.stacks[t.task].stackTop
  {
  }

  lemma YieldPlanCases(s: Sys, captured: Option<Captured>)
    requires Inv(s)
    ensures YieldPlan(s, captured) ==
              if s.currentProcess.None? || s.sched.current.None? then Err(NoCurrentProcess)
              else match SuccessorPlan(s)
                case Err(_) => Ok(None)
                case Ok(plan) =>
                  if captured.Some? && (Some(captured.value.task) != s.sched.current || !IsUserValid(captured.value.snapshot))
                  then Err(TaskBindingMismatch) else Ok(Some(plan))
  {
  }

  lemma YieldPlanMeans(s: Sys, captured: Option<Captured>)
    requires Inv(s)
    ensures match YieldPlan(s, captured)
            case Err(error) => YieldOutcome(s, captured) == Err(error) && CommitYield(s, captured) == s
            case Ok(None) => YieldOutcome(s, captured) == Ok(None) && CommitYield(s, captured) == s
            case Ok(Some((t, top))) =>
              && YieldOutcome(s, captured) == Ok(Some(t)) && s.sched.ready != [] && s.sched.ready[0] in s.users
              && t == TransferOf(s, s.sched.ready[0]) && t.task in s.stacks && top == s.stacks[t.task].stackTop
  {
  }

  function YieldPlan(s: Sys, captured: Option<Captured>): Result<Option<(Transfer, nat)>, SystemError> {
    match YieldOutcome(s, captured)
    case Err(error) => Err(error)
    case Ok(None) => Ok(None)
    case Ok(Some(t)) => if t.task in s.stacks then Ok(Some((t, s.stacks[t.task].stackTop))) else Err(KernelStackUnavailable)
  }

  lemma TickStep(s: Sys, x: InterruptedState)
    requires |s.procs.slots| == P.MAX_PROCESSES && s.sched.current.Some? && IsValid(x)
    ensures (Step(s, ETimer(x)), Output(s, ETimer(x))) == Answered(s, Captured(s.sched.current.value, x))
  {
  }

  /** A tick that cannot be captured changes nothing. */
  lemma TickIgnored(s: Sys, x: InterruptedState)
    requires |s.procs.slots| == P.MAX_PROCESSES && !(s.sched.current.Some? && IsValid(x))
    ensures Step(s, ETimer(x)) == s && Output(s, ETimer(x)) == None
  {
  }

  /** An accepted exit call in one equation. */
  lemma ExitRefused(s: Sys, code: nat)
    requires |s.procs.slots| == P.MAX_PROCESSES && !CallerChecked(s)
    ensures Step(s, EExit(code)) == s.(cpu := s.cpu.(action := Some(Return))) && Output(s, EExit(code)) == None
  {
  }

  lemma ExitStep(s: Sys, code: nat)
    requires |s.procs.slots| == P.MAX_PROCESSES && CallerChecked(s)
    ensures var asked := RequestExit(s, code);
            match ExitOutcome(asked)
            case Ok(t) => Step(s, EExit(code)) == CommitExit(asked).(root := t.launch.root) && Output(s, EExit(code)) == Some(t)
            case Err(_) => Step(s, EExit(code)) == asked && Output(s, EExit(code)) == None
  {
  }
}
