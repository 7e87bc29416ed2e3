/** What holds over every run of the userspace protocol. */
module SystemRuns {
  import opened Prelude
  import opened Tasks
  import opened Queues
  import opened Snapshots
  import opened Bindings
  import opened CpuLocals
  import opened SystemState
  import P = Processes

  function Run(s: Sys, es: seq<Event>): (r: Sys)
    requires |s.procs.slots| == P.MAX_PROCESSES
    ensures |r.procs.slots| == P.MAX_PROCESSES
    decreases |es|
  {
    if es == [] then s else Step(Run(s, es[..|es| - 1]), es[|es| - 1])
  }

  ghost predicate Legal(s: Sys, es: seq<Event>)
    requires |s.procs.slots| == P.MAX_PROCESSES
    decreases |es|
  {
    es == [] || (Legal(s, es[..|es| - 1]) && Enabled(Run(s, es[..|es| - 1]), es[|es| - 1]))
  }

  /** In every reachable state all owners agree. */
  lemma {:induction false} RunSettled(s: Sys, es: seq<Event>)
    requires Settled(s) && Legal(s, es)
    ensures Settled(Run(s, es))
    decreases |es|
  {
    if es != [] {
      RunSettled(s, es[..|es| - 1]);
      StepKeepsSettled(Run(s, es[..|es| - 1]), es[|es| - 1]);
    }
  }

  // ----- resume history -----

  /**
   The observer sees only who is on the CPU before and after a step and the CPU state that
   the step interrupted; it does not look at the saved snapshots.
   */
  ghost function Observe(h: map<TaskId, Status>, s: Sys, e: Event): map<TaskId, Status>
    requires |s.procs.slots| == P.MAX_PROCESSES
  {
    var r := Step(s, e);
    map t | t in r.users ::
      if r.sched.current == Some(t) then OnCpu
      else if s.sched.current == Some(t) && e.ETimer? then Left(e.snapshot)
      else if t in h then h[t]
      else NeverRun
  }

  ghost function History(s: Sys, es: seq<Event>): map<TaskId, Status>
    requires |s.procs.slots| == P.MAX_PROCESSES
    decreases |es|
  {
    if es == [] then map t | t in s.users :: NeverRun
    else Observe(History(s, es[..|es| - 1]), Run(s, es[..|es| - 1]), es[|es| - 1])
  }

  /** The saved snapshots are exactly what the observer saw: one per departed task, none elsewhere. */
  ghost predicate Faithful(s: Sys, h: map<TaskId, Status>) {
    && h.Keys == s.users.Keys
    && forall t | t in s.users ::
         match h[t]
         case NeverRun => s.users[t].resume.None? && s.sched.current != Some(t)
         case OnCpu => s.users[t].resume.None? && s.sched.current == Some(t)
         case Left(x) => s.users[t].resume == Some(x) && s.sched.current != Some(t)
  }

  /** How one step changes the bindings, seen from outside. */
  ghost predicate BindingsMove(s: Sys, e: Event, r: Sys) {
    forall t | t in r.users ::
      if t !in s.users then e.ESpawn? && r.users[t].resume.None? && r.users[t].launch == e.request.launch && r.sched.current != Some(t)
      else
        && r.users[t].process == s.users[t].process && r.users[t].launch == s.users[t].launch
        && (r.sched.current == Some(t) ==> r.users[t].resume.None?)
        && (r.sched.current != Some(t) && s.sched.current == Some(t) ==> e.ETimer? && r.users[t].resume == Some(e.snapshot))
        && (r.sched.current != Some(t) && s.sched.current != Some(t) ==> r.users[t].resume == s.users[t].resume)
  }

  /** A swap of the CPU between two tasks, whatever else the records say. */
  lemma SwappedBindings(s: Sys, x: InterruptedState, r: Sys, c: TaskId, h: TaskId)
    requires c in s.users && h in s.users && c != h
    requires s.sched.current == Some(c) && r.sched.current == Some(h)
    requires r.users == s.users[c := s.users[c].(resume := Some(x))][h := s.users[h].(resume := None)]
    ensures BindingsMove(s, ETimer(x), r)
  {
  }

  lemma TimerBindings(s: Sys, x: InterruptedState)
    requires Inv(s) && Output(s, ETimer(x)).Some?
    ensures BindingsMove(s, ETimer(x), Step(s, ETimer(x)))
  {
    var c, h := s.sched.current.value, s.sched.ready[0];
    YieldReady(s, Some(Captured(c, x)));
    SwappedBindings(s, x, Step(s, ETimer(x)), c, h);
  }

  lemma StartBindings(s: Sys, p: ProcessId)
    requires Inv(s) && s.sched.current.None? && Output(s, EStart(p)).Some?
    ensures BindingsMove(s, EStart(p), Step(s, EStart(p)))
  {
    OutputIsNewCurrent(s, EStart(p));
    assert Owned(s, p);
  }

  /** The exiting task's binding goes, the successor's snapshot is used up. */
  lemma EndedBindings(s: Sys, e: Event, r: Sys, c: TaskId, h: TaskId)
    requires c in s.users && h in s.users && c != h
    requires s.sched.current == Some(c) && r.sched.current == Some(h)
    requires r.users == (s.users - {c})[h := s.users[h].(resume := None)]
    ensures BindingsMove(s, e, r)
  {
  }

  lemma ExitBindings(s: Sys, code: nat)
    requires Inv(s) && Output(s, EExit(code)).Some?
    ensures BindingsMove(s, EExit(code), Step(s, EExit(code)))
  {
    OutputIsNewCurrent(s, EExit(code));
    ExitStep(s, code);
    EndedBindings(s, EExit(code), Step(s, EExit(code)), s.sched.current.value, s.sched.ready[0]);
  }

  lemma SwitchBindings(s: Sys, e: Event)
    requires Inv(s) && Enabled(s, e) && Output(s, e).Some?
    ensures BindingsMove(s, e, Step(s, e))
  {
    match e
    case EStart(p) => StartBindings(s, p);
    case EExit(code) => ExitBindings(s, code);
    case ETimer(x) => TimerBindings(s, x);
  }

  lemma StepBindings(s: Sys, e: Event)
    requires Inv(s) && Enabled(s, e)
    ensures BindingsMove(s, e, Step(s, e))
  {
    if Output(s, e).Some? {
      SwitchBindings(s, e);
    } else {
      NoOutputNoSwitch(s, e);
      NoSwitchBindings(s, e);
    }
  }

  lemma NoSwitchBindings(s: Sys, e: Event)
    requires Inv(s) && Enabled(s, e) && Output(s, e).None?
    ensures BindingsMove(s, e, Step(s, e))
  {
    NoOutputNoSwitch(s, e);
    CommitKeepsInv(s, e);
    if e.ESpawn? && SpawnOutcome(s, e.request).Ok? {
      SpawnSucceeds(s, e.request);
    } else {
      NoNewBindings(s, e);
    }
  }

  lemma NoNewBindings(s: Sys, e: Event)
    requires Inv(s) && Enabled(s, e) && Output(s, e).None?
    requires e.ESpawn? ==> SpawnOutcome(s, e.request).Err?
    ensures Commit(s, e).users == s.users
  {
    if !e.ESpawn? { QuietCommit(s, e); }
  }

  lemma ObserveKeepsFaithful(s: Sys, e: Event, r: Sys, h: map<TaskId, Status>)
    requires Faithful(s, h) && BindingsMove(s, e, r) && |s.procs.slots| == P.MAX_PROCESSES && r == Step(s, e)
    ensures Faithful(r, Observe(h, s, e))
  {
  }

  /** A transfer returns a task to exactly the point it left, or to its launch frame the first time. */
  ghost predicate RightReturn(s: Sys, h: map<TaskId, Status>, t: Transfer) {
    && t.task in h && t.task in s.users && t.launch == s.users[t.task].launch && t.process == s.users[t.task].process
    && match h[t.task]
       case NeverRun => t.resume.None?
       case OnCpu => false
       case Left(x) => t.resume == Some(x)
  }

  /** Over any run from boot: every saved snapshot is the task's last, and every transfer uses it. */
  lemma {:induction false} ResumeHistory(es: seq<Event>)
    requires Legal(Boot, es)
    ensures Faithful(Run(Boot, es), History(Boot, es))
    ensures forall e :: Enabled(Run(Boot, es), e) && Output(Run(Boot, es), e).Some? ==>
              RightReturn(Run(Boot, es), History(Boot, es), Output(Run(Boot, es), e).value)
    decreases |es|
  {
    BootSettled();
    RunSettled(Boot, es);
    var s, h := Run(Boot, es), History(Boot, es);
    if es != [] {
      var es', e := es[..|es| - 1], es[|es| - 1];
      ResumeHistory(es');
      RunSettled(Boot, es');
      StepBindings(Run(Boot, es'), e);
      ObserveKeepsFaithful(Run(Boot, es'), e, s, History(Boot, es'));
    }
    forall e | Enabled(s, e) && Output(s, e).Some? ensures RightReturn(s, h, Output(s, e).value) {
      OutputIsNewCurrent(s, e);
    }
  }

  // ----- when a step switches -----

  /** An accepted exit call switches exactly when someone is ready, and then to the head. */
  lemma ExitSwitchesIffReady(s: Sys, code: nat)
    requires Inv(s)
    ensures Output(s, EExit(code)).Some? <==> CallerChecked(s) && s.sched.ready != []
    ensures Output(s, EExit(code)).Some? ==> Output(s, EExit(code)).value.task == s.sched.ready[0]
  {
    if s.sched.ready != [] { HeadAgrees(s); }
  }

  /** A tick switches exactly after an unanswered yield, from user mode, when someone is ready. */
  lemma TickSwitchesIffYielded(s: Sys, x: InterruptedState)
    requires Inv(s)
    ensures Output(s, ETimer(x)).Some? <==>
              s.sched.current.Some? && s.cpu.action == Some(Reschedule) && s.sched.ready != [] && IsUserValid(x)
    ensures Output(s, ETimer(x)).Some? ==>
      var h := s.sched.ready[0];
      h in s.users && Output(s, ETimer(x)).value == Transfer(s.users[h].process, h, s.users[h].launch, s.users[h].resume)
  {
    if s.sched.ready != [] { HeadAgrees(s); }
  }

  /** A process can be started exactly when its task is the next one to run; every other one is refused for its own reason. */
  lemma StartAcceptedIff(s: Sys, p: ProcessId)
    requires Inv(s)
    ensures StartOutcome(s, p).None? <==>
      s.sched.ready != [] && s.sched.ready[0] in s.users && s.users[s.sched.ready[0]].process == p
    ensures P.StateOf(s.procs, p).None? ==> StartOutcome(s, p) == Some(ProcessError(P.InvalidProcess))
    ensures P.StateOf(s.procs, p) == Some(P.Exited) ==> StartOutcome(s, p) == Some(TaskBindingMismatch)
    ensures P.StateOf(s.procs, p) == Some(P.Running) ==> StartOutcome(s, p) == Some(ProcessError(P.InvalidTransition))
    ensures P.StateOf(s.procs, p) == Some(P.Ready) ==>
      StartOutcome(s, p).None? || StartOutcome(s, p) == Some(SchedulerTaskNotReady)
  {
    if P.StateOf(s.procs, p) == Some(P.Ready) {
      assert Owned(s, p);
    }
    if s.sched.ready != [] {
      HeadAgrees(s);
    }
  }

  /** A started process owns the CPU, its kernel stack and its page tables, and is entered through its launch frame. */
  lemma StartTakesCpu(s: Sys, p: ProcessId)
    requires Inv(s) && s.sched.current.None? && StartOutcome(s, p).None?
    ensures var r, t := Step(s, EStart(p)), s.sched.ready[0];
            && t in s.users && t in s.stacks && Output(s, EStart(p)) == Some(Transfer(p, t, s.users[t].launch, None))
            && r.sched.current == Some(t) && r.sched.ready == s.sched.ready[1..] && r.currentProcess == Some(p)
            && r.stackTop == s.stacks[t].stackTop && r.root == s.users[t].launch.root
  {
    StartAcceptedIff(s, p);
    HeadAgrees(s);
    assert Owned(s, p);
  }

  /** A spawn succeeds exactly when the launch fits the image, the stack can be used and the table has a process id to give. */
  lemma SpawnSucceedsIff(s: Sys, r: SpawnRequest)
    requires Inv(s)
    ensures SpawnOutcome(s, r).Ok? <==>
      && r.launch.addressSpace == r.image.addressSpace && r.stack.Some? && 8 <= r.stack.value.top && P.Registration(s.procs).Ok?
    ensures SpawnOutcome(s, r).Ok? ==>
      var n := Spawn(s, r); var (p, t) := SpawnOutcome(s, r).value;
      && n.users == s.users[t := UserBinding(p, r.image.addressSpace, r.launch, None)]
      && t in n.stacks && n.stacks == s.stacks[t := n.stacks[t]] && n.stacks[t].stackTop == r.stack.value.top
      && n.cpu == s.cpu && n.currentProcess == s.currentProcess && n.pendingExit == s.pendingExit
  {
    SpawnCases(s, r);
    if r.stack.Some? { FreshExec(r.stack.value); }
  }

  /** The next task to return to is the head of the queue, as it is bound; there is none exactly when the queue is empty. */
  lemma SuccessorIs(s: Sys)
    requires Inv(s)
    ensures s.sched.ready == [] ==> SuccessorOutcome(s) == Err(NoReadyTask)
    ensures s.sched.ready != [] ==>
      && s.sched.ready[0] in s.users
      && var u := s.users[s.sched.ready[0]];
         SuccessorOutcome(s) == Ok(Transfer(u.process, s.sched.ready[0], u.launch, u.resume))
  {
    if s.sched.ready != [] { HeadAgrees(s); }
  }

  /** A pending exit is that of the current task and process. */
  predicate PendingOwn(s: Sys) {
    s.pendingExit.Some? ==> s.currentProcess == Some(s.pendingExit.value.process) && s.sched.current == Some(s.pendingExit.value.task)
  }

  /** An exit is carried out exactly when it is pending, it is the current task's own and someone is ready. */
  lemma ExitOutcomeIs(s: Sys)
    requires Inv(s)
    ensures ExitOutcome(s).Ok? <==> s.pendingExit.Some? && PendingOwn(s) && s.sched.ready != []
    ensures ExitOutcome(s).Ok? ==> ExitOutcome(s).value.task == s.sched.ready[0]
    ensures s.pendingExit.None? ==> ExitOutcome(s) == Err(NoCurrentProcess)
    ensures s.pendingExit.Some? && !PendingOwn(s) ==> ExitOutcome(s) == Err(TaskBindingMismatch)
    ensures s.pendingExit.Some? && PendingOwn(s) && s.sched.ready == [] ==> ExitOutcome(s) == Err(Successor(NoReadyTask))
  {
    if s.sched.ready != [] { HeadAgrees(s); }
  }

  /** A switch away from the current process is made exactly when someone is ready and the snapshot is a user one of its task. */
  lemma YieldOutcomeIs(s: Sys, captured: Option<Captured>)
    requires Inv(s)
    ensures YieldOutcome(s, captured) == Err(NoCurrentProcess) <==> s.sched.current.None?
    ensures YieldOutcome(s, captured) == Ok(None) <==> s.sched.current.Some? && s.sched.ready == []
    ensures YieldOutcome(s, captured) == Err(TaskBindingMismatch) <==>
      && s.sched.current.Some? && s.sched.ready != [] && captured.Some?
      && (s.sched.current != Some(captured.value.task) || !IsUserValid(captured.value.snapshot))
    ensures YieldOutcome(s, captured).Ok? && YieldOutcome(s, captured).value.Some? ==>
      s.sched.ready != [] && YieldOutcome(s, captured).value.value.task == s.sched.ready[0]
    ensures YieldOutcome(s, captured).Err? ==> YieldOutcome(s, captured).error in {NoCurrentProcess, TaskBindingMismatch}
  {
    if s.sched.ready != [] { HeadAgrees(s); }
  }

  /** Lifecycle calls are accepted from the current process exactly while it has no exit pending. */
  lemma CallAcceptedIff(s: Sys)
    requires Inv(s)
    ensures CallerChecked(s) <==> s.sched.current.Some? && s.pendingExit.None?
  {
  }

  /** The tick after an accepted yield hands the CPU to the head of the ready queue, and the tick after that does not. */
  lemma YieldThenTick(s: Sys, x: InterruptedState, y: InterruptedState)
    requires Inv(s) && CallerChecked(s) && s.sched.ready != [] && IsUserValid(x)
    ensures var asked := Step(s, EYield); var given := Step(asked, ETimer(x));
            && Output(asked, ETimer(x)).Some? && Output(asked, ETimer(x)).value.task == s.sched.ready[0] && s.sched.ready[0] in s.users
            && Output(asked, ETimer(x)).value.process == s.users[s.sched.ready[0]].process
            && given.sched.current == Some(s.sched.ready[0]) && given.sched.ready == s.sched.ready[1..] + [s.sched.current.value]
            && given.users[s.sched.current.value].resume == Some(x)
            && Output(given, ETimer(y)).None?
  {
    StepKeepsInv(s, EYield);
    YieldAsked(s);
    TickSwitchesIffYielded(Step(s, EYield), x);
    TickHandsOver(Step(s, EYield), x);
    NoActionNoSwitch(Step(Step(s, EYield), ETimer(x)), y);
  }

  lemma YieldAsked(s: Sys)
    requires Inv(s) && CallerChecked(s)
    ensures var r := Step(s, EYield); r.cpu.action == Some(Reschedule) && r.sched == s.sched && r.users == s.users
  {
  }

  lemma NoActionNoSwitch(s: Sys, x: InterruptedState)
    requires s.cpu.action == None
    ensures Output(s, ETimer(x)).None?
  {
  }

  lemma TickHandsOver(s: Sys, x: InterruptedState)
    requires Inv(s) && Output(s, ETimer(x)).Some?
    ensures var r := Step(s, ETimer(x));
            && r.sched.current == Some(s.sched.ready[0]) && r.sched.ready == s.sched.ready[1..] + [s.sched.current.value]
            && s.sched.current.value in r.users && r.users[s.sched.current.value].resume == Some(x)
            && r.cpu.action == None
  {
    TickSwitchesIffYielded(s, x);
    HeadAgrees(s);
    TimerQueue(s, x);
  }

  /** The tick after any other call, or after a yield or exit call that was refused, hands nothing over. */
  lemma CallThenTick(s: Sys, e: Event, x: InterruptedState)
    requires Inv(s) && (e.EOtherCall? || ((e.EYield? || e.EExit?) && !CallerChecked(s)))
    ensures Step(s, e).sched == s.sched && Output(Step(s, e), ETimer(x)).None?
  {
    StepKeepsInv(s, e);
    TickSwitchesIffYielded(Step(s, e), x);
  }

  /**
   A yield is still to be answered: it was accepted, and since then no other call was answered and no tick taken.
   The observer reads the calls and ticks of the run, not the action published for the next tick.
   */
  predicate YieldOpen(s: Sys, es: seq<Event>)
    requires |s.procs.slots| == P.MAX_PROCESSES
    decreases |es|
  {
    es != [] &&
    var earlier, e := es[..|es| - 1], es[|es| - 1];
    var before := Run(s, earlier);
    match e
    case EYield => before.sched.current.Some? && before.pendingExit.None?
    case EOtherCall => false
    case EExit(_) => before.sched.current.Some? && before.pendingExit.None? && YieldOpen(s, earlier)
    case ETimer(x) => (before.sched.current.None? || !IsValid(x)) && YieldOpen(s, earlier)
    case _ => YieldOpen(s, earlier)
  }

  lemma {:induction false} ActionIsOpenYield(es: seq<Event>)
    requires Legal(Boot, es)
    ensures Settled(Run(Boot, es)) && (Run(Boot, es).cpu.action == Some(Reschedule) <==> YieldOpen(Boot, es))
    decreases |es|
  {
    BootSettled();
    if es != [] {
      var earlier, e := es[..|es| - 1], es[|es| - 1];
      ActionIsOpenYield(earlier);
      ActionMoves(Run(Boot, earlier), e);
    }
    RunSettled(Boot, es);
  }

  /** What one step does to the published action. */
  lemma ActionMoves(s: Sys, e: Event)
    requires Inv(s)
    ensures var asked := Step(s, e).cpu.action == Some(Reschedule); var kept := s.cpu.action == Some(Reschedule);
            match e
            case EYield => asked <==> s.sched.current.Some? && s.pendingExit.None?
            case EOtherCall => !asked
            case EExit(_) => asked <==> s.sched.current.Some? && s.pendingExit.None? && kept
            case ETimer(x) => asked <==> (s.sched.current.None? || !IsValid(x)) && kept
            case _ => asked <==> kept
  {
    match e
    case EExit(code) => ExitAction(s, code);
    case ETimer(x) => TimerAction(s, x);
    case _ =>
  }

  lemma ExitAction(s: Sys, code: nat)
    requires Inv(s)
    ensures Step(s, EExit(code)).cpu.action ==
      if s.sched.current.Some? && s.pendingExit.None? then s.cpu.action else Some(Return)
  {
  }

  lemma TimerAction(s: Sys, x: InterruptedState)
    requires Inv(s)
    ensures Step(s, ETimer(x)).cpu.action == if s.sched.current.None? || !IsValid(x) then s.cpu.action else None
  {
  }

  /** In every run from boot, a tick switches exactly when it interrupts user mode with a yield open and someone ready. */
  lemma TickAnswersYield(es: seq<Event>, x: InterruptedState)
    requires Legal(Boot, es)
    ensures var s := Run(Boot, es);
            && (Output(s, ETimer(x)).Some? <==> s.sched.current.Some? && YieldOpen(Boot, es) && s.sched.ready != [] && IsUserValid(x))
            && (Output(s, ETimer(x)).Some? ==> Output(s, ETimer(x)).value.task == s.sched.ready[0])
  {
    ActionIsOpenYield(es);
    TickSwitchesIffYielded(Run(Boot, es), x);
  }

  /** The scheduler is asked to reschedule by accepted yield and exit calls, and by nothing else. */
  lemma RescheduleAsked(s: Sys, e: Event)
    requires Inv(s)
    ensures Step(s, e).reschedule <==>
      s.reschedule || ((e.EYield? || e.EExit?) && s.sched.current.Some? && s.pendingExit.None?)
  {
  }

  /** The registry records 0 for every exit, so the caller's code survives only when it is 0. */
  lemma ExitCodeLost(s: Sys)
    requires Inv(s) && ExitOutcome(s).Ok?
    ensures var x := s.pendingExit.value;
            var slot := P.Find(CommitExit(s).procs, x.process);
            slot.Some? && slot.value.state == Some(P.Exited) && (slot.value.exitCode == Some(x.code) <==> x.code == 0)
  {
    ExitEffect(s);
    ExactlyOneRunning(s);
    HeadAgrees(s);
  }

  /** An accepted exit call with someone ready leaves the caller exited with code 0, whatever code it gave. */
  lemma ExitRecordsZero(s: Sys, code: nat)
    requires Inv(s) && CallerChecked(s) && s.sched.ready != []
    ensures var slot := P.Find(Step(s, EExit(code)).procs, s.currentProcess.value);
            slot.Some? && slot.value.state == Some(P.Exited) && slot.value.exitCode == Some(0)
  {
    ExitSwitchesIffReady(s, code);
    var r := RequestExit(s, code);
    SameOwnersKeepInv(s, r);
    ExitEffect(r);
    ExactlyOneRunning(s);
    HeadAgrees(r);
  }

  /** An accepted exit call that finds nobody ready is remembered: whose it is and with which code. */
  lemma ExitStaysPending(s: Sys, code: nat)
    requires Inv(s) && CallerChecked(s) && s.sched.ready == []
    ensures Output(s, EExit(code)).None?
    ensures Step(s, EExit(code)).pendingExit == Some(PendingExit(s.currentProcess.value, s.sched.current.value, code))
    ensures Step(s, EExit(code)).sched == s.sched && Step(s, EExit(code)).procs == s.procs
  {
  }

  /** A pending exit belongs to the current task, and nobody else is ready. */
  ghost predicate PendingAlone(s: Sys) {
    s.pendingExit.Some? ==>
      && s.currentProcess == Some(s.pendingExit.value.process) && s.sched.current == Some(s.pendingExit.value.task)
      && s.sched.ready == []
  }

  /** That stays true exactly as long as nobody is spawned while an exit is pending. */
  lemma PendingAloneUnlessSpawn(s: Sys, e: Event)
    requires Inv(s) && Enabled(s, e) && PendingAlone(s)
    ensures PendingAlone(Step(s, e)) <==> !(e.ESpawn? && s.pendingExit.Some? && SpawnOutcome(s, e.request).Ok?)
  {
    match e
    case ESpawn(r) => if SpawnOutcome(s, r).Ok? { SpawnSucceeds(s, r); } else { SpawnFailureIsInvisible(s, r); }
    case EStart(p) => if StartOutcome(s, p).None? { assert Owned(s, p); }
    case EExit(code) => ExitSwitchesIffReady(s, code);
    case ETimer(x) => TickSwitchesIffYielded(s, x);
    case _ =>
  }

  /** What a pending exit rules out: a yield that was asked for before it is the only way left to switch. */
  lemma PendingStays(s: Sys, e: Event)
    requires Inv(s) && Enabled(s, e) && s.sched.current.Some? && s.pendingExit.Some?
    ensures Step(s, e).pendingExit == s.pendingExit
    ensures s.cpu.action != Some(Reschedule) ==>
              Step(s, e).cpu.action != Some(Reschedule) && Output(s, e).None? && Step(s, e).sched.current == s.sched.current
  {
    if Output(s, e).None? { NoOutputNoSwitch(s, e); }
  }

  /**
   An exit that finds nobody ready is never made up for: it stays pending and blocks every later exit and
   yield call for good, also after new processes have been spawned. Unless a yield was already asked for, the
   CPU is never handed over again.
   */
  lemma {:induction false} PendingForever(s: Sys, es: seq<Event>)
    requires Settled(s) && Legal(s, es) && s.sched.current.Some? && s.pendingExit.Some?
    ensures var r := Run(s, es);
            && r.pendingExit == s.pendingExit && !CallerChecked(r)
            && (s.cpu.action != Some(Reschedule) ==>
                 && r.cpu.action != Some(Reschedule) && r.sched.current == s.sched.current
                 && forall e | Enabled(r, e) :: Output(r, e).None?)
    decreases |es|
  {
    if es != [] {
      var es', e := es[..|es| - 1], es[|es| - 1];
      PendingForever(s, es');
      RunSettled(s, es');
      NeverIdleAgain(s, es');
      PendingStays(Run(s, es'), e);
    }
    RunSettled(s, es);
    NeverIdleAgain(s, es);
    if s.cpu.action != Some(Reschedule) {
      forall e | Enabled(Run(s, es), e) ensures Output(Run(s, es), e).None? {
        PendingStays(Run(s, es), e);
      }
    }
  }

  // ----- whose turn it is -----

  /** A transfer takes the head of the ready queue; any other step leaves the queue a prefix of what it becomes. */
  lemma QueueAdvances(s: Sys, e: Event)
    requires Inv(s) && Enabled(s, e)
    ensures Output(s, e).Some? ==> s.sched.ready != [] && s.sched.ready[1..] <= Step(s, e).sched.ready
                                   && Output(s, e).value.task == s.sched.ready[0]
    ensures Output(s, e).None? ==> s.sched.ready <= Step(s, e).sched.ready
  {
    if Output(s, e).Some? {
      OutputIsNewCurrent(s, e);
      HandoverQueue(s, e);
    } else if e.ESpawn? {
      SpawnNoSwitch(s, e.request);
    } else {
      QuietCommit(s, e);
    }
  }

  lemma HandoverQueue(s: Sys, e: Event)
    requires Inv(s) && Enabled(s, e) && Output(s, e).Some? && s.sched.ready != []
    ensures s.sched.ready[1..] <= Commit(s, e).sched.ready
  {
    match e
    case EStart(p) => StartQueue(s, p);
    case EExit(code) => ExitQueue(s, code);
    case ETimer(x) => TimerQueue(s, x);
  }

  lemma StartQueue(s: Sys, p: ProcessId)
    requires Inv(s) && s.sched.current.None? && Output(s, EStart(p)).Some?
    ensures s.sched.ready != [] && s.sched.ready[1..] <= Commit(s, EStart(p)).sched.ready
  {
  }

  lemma ExitQueue(s: Sys, code: nat)
    requires Inv(s) && Output(s, EExit(code)).Some?
    ensures s.sched.ready != [] && s.sched.ready[1..] <= Commit(s, EExit(code)).sched.ready
  {
  }

  lemma TimerQueue(s: Sys, x: InterruptedState)
    requires Inv(s) && Output(s, ETimer(x)).Some?
    ensures s.sched.ready != [] && s.sched.ready[1..] <= Commit(s, ETimer(x)).sched.ready
  {
  }

  /** A run with the states it goes through. */
  ghost predicate Trace(states: seq<Sys>, es: seq<Event>) {
    |states| == |es| + 1 && forall i {:trigger Follows(states, es, i)} | 0 <= i < |es| :: Follows(states, es, i)
  }

  ghost predicate Follows(states: seq<Sys>, es: seq<Event>, i: nat)
    requires i < |es| && |states| == |es| + 1
  {
    |states[i].procs.slots| == P.MAX_PROCESSES && Enabled(states[i], es[i]) && states[i + 1] == Step(states[i], es[i])
  }

  /** Step `i` hands over the CPU. */
  ghost predicate HandsOver(states: seq<Sys>, es: seq<Event>, i: nat)
    requires i < |es| && |states| == |es| + 1
  {
    Output(states[i], es[i]).Some?
  }

  ghost predicate AreTurns(states: seq<Sys>, es: seq<Event>, turns: seq<bool>)
    requires |states| == |es| + 1
  {
    |turns| == |es| && forall i {:trigger HandsOver(states, es, i)} | 0 <= i < |es| :: turns[i] <==> HandsOver(states, es, i)
  }

  /** Every legal run has its trace. */
  lemma RunTrace(s: Sys, es: seq<Event>) returns (states: seq<Sys>, turns: seq<bool>)
    requires |s.procs.slots| == P.MAX_PROCESSES && Legal(s, es)
    ensures Trace(states, es) && AreTurns(states, es, turns)
    ensures states[0] == s && forall i | 0 <= i <= |es| :: states[i] == Run(s, es[..i])
  {
    states := seq(|es| + 1, i requires 0 <= i <= |es| => Run(s, es[..i]));
    turns := seq(|es|, i requires 0 <= i < |es| => HandsOver(states, es, i));
    assert es[..0] == [];
    forall i | 0 <= i < |es| ensures Follows(states, es, i) {
      LegalStep(s, es, i);
    }
  }

  lemma {:induction false} LegalPrefix(s: Sys, es: seq<Event>, i: nat)
    requires |s.procs.slots| == P.MAX_PROCESSES && Legal(s, es) && i <= |es|
    ensures Legal(s, es[..i])
    decreases |es|
  {
    if i < |es| {
      LegalPrefix(s, es[..|es| - 1], i);
      assert es[..|es| - 1][..i] == es[..i];
    } else {
      assert es[..i] == es;
    }
  }

  lemma LegalStep(s: Sys, es: seq<Event>, i: nat)
    requires |s.procs.slots| == P.MAX_PROCESSES && Legal(s, es) && i < |es|
    ensures Enabled(Run(s, es[..i]), es[i]) && Run(s, es[..i + 1]) == Step(Run(s, es[..i]), es[i])
  {
    var p := es[..i + 1];
    LegalPrefix(s, es, i + 1);
    assert p[..|p| - 1] == es[..i] && p[|p| - 1] == es[i];
  }

  lemma {:induction false} TraceSettled(states: seq<Sys>, es: seq<Event>, n: nat)
    requires Trace(states, es) && Settled(states[0]) && n <= |es|
    ensures Settled(states[n])
  {
    if n > 0 {
      TraceSettled(states, es, n - 1);
      assert Follows(states, es, n - 1);
      StepKeepsSettled(states[n - 1], es[n - 1]);
    }
  }

  ghost function ReadyQueues(states: seq<Sys>): (queues: seq<seq<TaskId>>)
    ensures |queues| == |states| && forall i | 0 <= i < |states| :: queues[i] == states[i].sched.ready
  {
    seq(|states|, i requires 0 <= i < |states| => states[i].sched.ready)
  }

  lemma TurnAdvances(states: seq<Sys>, es: seq<Event>, turns: seq<bool>, i: nat)
    requires Trace(states, es) && AreTurns(states, es, turns) && Settled(states[0]) && i < |es|
    ensures Advances(states[i].sched.ready, states[i + 1].sched.ready, turns[i])
  {
    TraceSettled(states, es, i);
    assert Follows(states, es, i);
    assert turns[i] <==> HandsOver(states, es, i);
    QueueAdvances(states[i], es[i]);
  }

  /** A waiting task moves up one place with each handover of the CPU. */
  lemma TurnNears(states: seq<Sys>, es: seq<Event>, turns: seq<bool>, k: nat, n: nat)
    requires Trace(states, es) && AreTurns(states, es, turns) && Settled(states[0])
    requires k < |states[0].sched.ready| && n <= |es| && Count(turns, n) <= k
    ensures var q, place := states[n].sched.ready, k - Count(turns, n);
            place < |q| && q[place] == states[0].sched.ready[k]
  {
    var queues := ReadyQueues(states);
    forall i | 0 <= i < |es| ensures AdvancesAt(queues, turns, i) {
      TurnAdvances(states, es, turns, i);
    }
    PlaceMovesUp(queues, turns, k, n);
  }

  /** The task at place `k` of the ready queue gets the CPU with the (k+1)-th handover and with no earlier one. */
  lemma TurnComes(states: seq<Sys>, es: seq<Event>, turns: seq<bool>, k: nat, n: nat)
    requires Trace(states, es) && AreTurns(states, es, turns) && Settled(states[0])
    requires k < |states[0].sched.ready| && n < |es| && turns[n] && Count(turns, n) <= k
    ensures var out := Output(states[n], es[n]);
            out.Some? && (out.value.task == states[0].sched.ready[k] <==> Count(turns, n) == k)
  {
    TurnNears(states, es, turns, k, n);
    MayHandOver(states, es, turns, n);
    HeadTaken(states[n], es[n], k, Count(turns, n), states[0].sched.ready[k]);
  }

  ghost predicate HandsOverTo(states: seq<Sys>, es: seq<Event>, n: nat, t: TaskId)
    requires n < |es| && |states| == |es| + 1
  {
    Output(states[n], es[n]).Some? && Output(states[n], es[n]).value.task == t
  }

  /**
   Bounded waiting over every legal run of the protocol: in the states the run goes through, the task at place `k` of
   the ready queue gets the CPU with the (k+1)-th handover, if the run gets that far, and with no earlier one.
   */
  lemma BoundedTurns(s: Sys, es: seq<Event>, k: nat) returns (states: seq<Sys>, turns: seq<bool>)
    requires Settled(s) && Legal(s, es) && k < |s.sched.ready|
    ensures |states| == |es| + 1 && AreTurns(states, es, turns)
    ensures forall i | 0 <= i <= |es| :: states[i] == Run(s, es[..i])
    ensures forall n | 0 <= n < |es| && turns[n] && Count(turns, n) <= k ::
              HandsOverTo(states, es, n, s.sched.ready[k]) <==> Count(turns, n) == k
  {
    states, turns := RunTrace(s, es);
    forall n | 0 <= n < |es| && turns[n] && Count(turns, n) <= k
      ensures HandsOverTo(states, es, n, s.sched.ready[k]) <==> Count(turns, n) == k
    {
      TurnComes(states, es, turns, k, n);
    }
  }

  lemma MayHandOver(states: seq<Sys>, es: seq<Event>, turns: seq<bool>, n: nat)
    requires Trace(states, es) && AreTurns(states, es, turns) && Settled(states[0]) && n < |es| && turns[n]
    ensures Inv(states[n]) && Enabled(states[n], es[n]) && Output(states[n], es[n]).Some?
  {
    TraceSettled(states, es, n);
    assert Follows(states, es, n);
    assert turns[n] <==> HandsOver(states, es, n);
  }

  lemma HeadTaken(r: Sys, e: Event, k: nat, taken: nat, t: TaskId)
    requires Inv(r) && Enabled(r, e) && Output(r, e).Some?
    requires taken <= k && k - taken < |r.sched.ready| && r.sched.ready[k - taken] == t
    ensures Output(r, e).value.task == t <==> taken == k
  {
    QueueAdvances(r, e);
    assert Distinct(r.sched.ready);
  }

  // ----- progress of the CPU -----

  /** Once a process has started, some process is always on the CPU. */
  lemma {:induction false} NeverIdleAgain(s: Sys, es: seq<Event>)
    requires Settled(s) && Legal(s, es) && s.sched.current.Some?
    ensures Run(s, es).sched.current.Some?
    decreases |es|
  {
    if es != [] {
      var es', e := es[..|es| - 1], es[|es| - 1];
      NeverIdleAgain(s, es');
      RunSettled(s, es');
      var r := Run(s, es');
      if Output(r, e).Some? { OutputIsNewCurrent(r, e); } else { NoOutputNoSwitch(r, e); }
    }
  }
}
