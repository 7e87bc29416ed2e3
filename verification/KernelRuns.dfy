/** Timer preemption of kernel tasks as a value, and what holds over every run (kernel/src/arch/x86_64/runtime.rs). */
module KernelRuns {
  import opened Prelude
  import opened Tasks
  import opened Snapshots
  import opened Bindings
  import opened CpuLocals
  import opened Queues
  import opened KernelState
  import S = SchedulerState

  /** The runtime: its tasks, the CPU-local slots, the reschedule flag and the preemption-disable depth. */
  datatype Runtime = Runtime(m: Manager, cpu: Cpu, reschedule: bool, disabled: nat)

  const Cold: Runtime := Runtime(Boot, Cpu(None, None, None), false, 0)

  /** A return into a task: to its first context, or to where the timer interrupted it. */
  datatype Return = ToContext(task: TaskId, context: Context) | ToKernel(task: TaskId, snapshot: InterruptedState)

  /** A saved snapshot is one a same-ring return can use, and belongs to a task that is off the CPU. */
  predicate SavedOk(s: Runtime, t: TaskId) {
    t in s.m.execs && s.m.execs[t].interrupted.Some? ==>
      KernelIretWords(s.m.execs[t].interrupted.value).Some? && s.cpu.task != Some(t)
  }

  /** The task on the CPU is the scheduler's owner, or has gone to sleep and stays there until the next tick. */
  predicate OwnerOk(s: Runtime) {
    || s.cpu.task == s.m.sched.current
    || (s.m.sched.current.None? && s.cpu.task.Some? && s.cpu.task.value in s.m.execs)
  }

  ghost predicate RuntimeInv(s: Runtime) {
    && Inv(s.m) && OwnerOk(s) && s.cpu.interrupted.None?
    && forall t :: SavedOk(s, t)
  }

  // ----- steps -----

  /** How a task is to be entered. */
  function Plan(t: TaskId, b: ExecBinding): Return {
    if b.interrupted.Some? && KernelIretWords(b.interrupted.value).Some? then ToKernel(t, b.interrupted.value)
    else ToContext(t, b.context)
  }

  predicate Captures(s: Runtime, x: InterruptedState) {
    s.cpu.task.Some? && s.cpu.interrupted.None? && IsValid(x)
  }

  /** The tick with the due sleepers awake. */
  function Expired(s: Runtime, now: nat): Runtime {
    s.(m := Expire(s.m, now))
  }

  /** A tick moves the CPU on exactly when preemption is enabled and somebody is ready once the due sleepers are awake. */
  predicate Switches(s: Runtime, x: InterruptedState, now: nat) {
    Captures(s, x) && s.disabled == 0 && Expired(s, now).m.sched.ready != []
  }

  /** The tick would hand the CPU to the very task it interrupted: one that went to sleep and is due already. */
  predicate SelfWake(s: Runtime, x: InterruptedState, now: nat) {
    Switches(s, x, now) && s.cpu.task == Some(Expired(s, now).m.sched.ready[0])
  }

  function WithSaved(m: Manager, t: TaskId, x: Option<InterruptedState>): Manager {
    if t in m.execs then m.(execs := m.execs[t := m.execs[t].(interrupted := x)]) else m
  }

  /** The interrupted task keeps the snapshot, the head of the queue gives its own up and takes the CPU. */
  function Switch(s: Runtime, x: InterruptedState): Runtime
    requires s.cpu.task.Some? && s.m.sched.ready != []
  {
    var head := s.m.sched.ready[0];
    var saved := WithSaved(s.m, s.cpu.task.value, Some(x));
    var entered := if head in s.m.execs && Plan(head, s.m.execs[head]).ToKernel? then WithSaved(saved, head, None) else saved;
    s.(m := Dispatch(entered), cpu := s.cpu.(task := Some(head)), reschedule := false)
  }

  function Tick(s: Runtime, x: InterruptedState, now: nat): Runtime {
    if !Captures(s, x) then s
    else if s.disabled != 0 then s.(reschedule := true)
    else if Switches(s, x, now) then Switch(Expired(s, now), x)
    else Expired(s, now).(reschedule := true)
  }

  function TickReturn(s: Runtime, x: InterruptedState, now: nat): Option<Return> {
    var m := Expired(s, now).m;
    if Switches(s, x, now) && m.sched.ready[0] in m.execs then Some(Plan(m.sched.ready[0], m.execs[m.sched.ready[0]])) else None
  }

  /** The head of the queue can be entered from the boot context: it has no snapshot to return through. */
  predicate Starts(s: Runtime) {
    && s.m.sched.ready != [] && s.m.sched.ready[0] in s.m.execs
    && Plan(s.m.sched.ready[0], s.m.execs[s.m.sched.ready[0]]).ToContext?
  }

  /** The dispatch that starts the first task. */
  function First(s: Runtime): Runtime {
    if Starts(s) then s.(m := Dispatch(s.m), cpu := s.cpu.(task := Some(s.m.sched.ready[0]))) else s
  }

  datatype Event =
    | ESpawn(priority: nat, stack: Option<StackAllocation>)
    | EFirst
    | ETick(snapshot: InterruptedState, now: nat)
    | ESleep(deadline: nat)
    | EService(now: nat)
    | EDisable
    | EEnable

  /**
   * Kernel tasks run in ring 0, so that is what a tick that switches has interrupted, and it does not hand the CPU
   * back to a task that has gone to sleep on it; the first dispatch finds nobody on the CPU.
   */
  predicate Enabled(s: Runtime, e: Event) {
    match e
    case ESpawn(_, _) => S.HasRoom(s.m.sched)
    case ETick(x, now) => !Switches(s, x, now) || (IsKernel(x) && !SelfWake(s, x, now))
    case EFirst => s.cpu.task.None?
    case _ => true
  }

  function Step(s: Runtime, e: Event): Runtime {
    match e
    case ESpawn(priority, stack) => s.(m := Spawn(s.m, priority, stack))
    case EFirst => First(s)
    case ETick(x, now) => Tick(s, x, now)
    case ESleep(deadline) => s.(m := SleepUntil(s.m, deadline))
    case EService(now) => Expired(s, now).(reschedule := true)
    case EDisable => s.(disabled := s.disabled + 1)
    case EEnable => s.(disabled := if s.disabled > 0 then s.disabled - 1 else 0)
  }

  function Output(s: Runtime, e: Event): Option<Return> {
    match e
    case EFirst =>
      if Starts(s) then Some(ToContext(s.m.sched.ready[0], s.m.execs[s.m.sched.ready[0]].context)) else None
    case ETick(x, now) => TickReturn(s, x, now)
    case _ => None
  }

  function Run(s: Runtime, es: seq<Event>): Runtime
    decreases |es|
  {
    if es == [] then s else Step(Run(s, es[..|es| - 1]), es[|es| - 1])
  }

  ghost predicate Legal(s: Runtime, es: seq<Event>)
    decreases |es|
  {
    es == [] || (Legal(s, es[..|es| - 1]) && Enabled(Run(s, es[..|es| - 1]), es[|es| - 1]))
  }

  // ----- what every step keeps -----

  lemma HeadHasBinding(s: Runtime)
    requires RuntimeInv(s) && s.m.sched.ready != []
    ensures s.m.sched.ready[0] in s.m.execs && s.m.sched.current != Some(s.m.sched.ready[0])
    ensures s.cpu.task.Some? ==> s.cpu.task.value in s.m.execs
  {
    S.OwnerAndHead(s.m.sched);
    assert S.Live(s.m.sched, s.m.sched.ready[0]);
    assert s.m.sched.current.Some? ==> S.Live(s.m.sched, s.m.sched.current.value);
  }

  /** Waking the due sleepers changes the queue and their states and nothing else. */
  lemma ExpiredKeepsInv(s: Runtime, now: nat)
    requires RuntimeInv(s)
    ensures RuntimeInv(Expired(s, now)) && Expired(s, now).m.execs == s.m.execs
    ensures Expired(s, now).m.sched.current == s.m.sched.current
  {
    ExpireKeepsInv(s.m, now);
    ExpireWakesDue(s.m, now);
    forall t ensures SavedOk(Expired(s, now), t) {
      assert SavedOk(s, t);
    }
  }

  lemma SavedKeepsInv(m: Manager, t: TaskId, x: Option<InterruptedState>)
    requires Inv(m) && (x.Some? ==> IsValid(x.value))
    ensures Inv(WithSaved(m, t, x))
  {
  }

  /** What a switch to another task does to every binding. */
  lemma SwitchBindings(s: Runtime, x: InterruptedState)
    requires RuntimeInv(s) && s.cpu.task.Some? && s.m.sched.ready != [] && s.cpu.task != Some(s.m.sched.ready[0])
    ensures var r, head, c := Switch(s, x), s.m.sched.ready[0], s.cpu.task.value;
            && r.m.execs.Keys == s.m.execs.Keys && r.m.sched.current == r.cpu.task == Some(head)
            && head in s.m.execs && c in s.m.execs
            && forall t | t in s.m.execs :: r.m.execs[t] ==
                 if t == c then s.m.execs[c].(interrupted := Some(x))
                 else if t == head then s.m.execs[head].(interrupted := None) else s.m.execs[t]
  {
    HeadHasBinding(s);
    assert SavedOk(s, s.m.sched.ready[0]);
  }

  lemma SwitchKeepsManager(s: Runtime, x: InterruptedState)
    requires RuntimeInv(s) && IsValid(x) && s.cpu.task.Some? && s.m.sched.ready != []
    ensures Inv(Switch(s, x).m)
  {
    var head := s.m.sched.ready[0];
    SavedKeepsInv(s.m, s.cpu.task.value, Some(x));
    var saved := WithSaved(s.m, s.cpu.task.value, Some(x));
    SavedKeepsInv(saved, head, None);
    DispatchKeepsInv(saved);
    DispatchKeepsInv(WithSaved(saved, head, None));
  }

  lemma SwitchSaves(s: Runtime, x: InterruptedState)
    requires RuntimeInv(s) && Captures(s, x) && s.m.sched.ready != [] && s.cpu.task != Some(s.m.sched.ready[0])
    ensures SavedOk(Switch(s, x), s.cpu.task.value) <==> IsKernel(x)
    ensures IsKernel(x) ==> forall t :: SavedOk(Switch(s, x), t)
  {
    SwitchBindings(s, x);
    OneReturnPath(x);
    var r := Switch(s, x);
    assert r.m.execs[s.cpu.task.value].interrupted == Some(x);
    if IsKernel(x) {
      forall t ensures SavedOk(r, t) {
        assert SavedOk(s, t);
      }
    }
  }

  /** A switch keeps the runtime in order exactly when the snapshot is a ring-0 one and the CPU goes to another task. */
  lemma SwitchKeepsInvIff(s: Runtime, x: InterruptedState)
    requires RuntimeInv(s) && Captures(s, x) && s.m.sched.ready != []
    ensures RuntimeInv(Switch(s, x)) <==> IsKernel(x) && s.cpu.task != Some(s.m.sched.ready[0])
  {
    if s.cpu.task == Some(s.m.sched.ready[0]) {
      SelfSwitch(s, x);
      assert !SavedOk(Switch(s, x), s.cpu.task.value);
    } else {
      SwitchKeepsManager(s, x);
      SwitchBindings(s, x);
      SwitchSaves(s, x);
    }
  }

  /** A task that is handed the CPU it is on starts again at its first context and keeps a snapshot nobody will use. */
  lemma SelfSwitch(s: Runtime, x: InterruptedState)
    requires RuntimeInv(s) && s.cpu.task.Some? && s.m.sched.ready != [] && s.cpu.task == Some(s.m.sched.ready[0])
    ensures var r, c := Switch(s, x), s.cpu.task.value;
            && c in s.m.execs && Plan(c, s.m.execs[c]) == ToContext(c, s.m.execs[c].context)
            && c in r.m.execs && r.m.execs[c].interrupted == Some(x) && r.cpu.task == Some(c)
  {
    HeadHasBinding(s);
    assert SavedOk(s, s.cpu.task.value);
  }

  /**
   * A tick keeps the runtime in order exactly when it does not switch, or the snapshot is a ring-0 one and the CPU
   * goes to another task. A snapshot of another ring would be saved but never used: its task would start again at
   * its first context. So does a task that went to sleep and is due before anybody else is ready.
   */
  lemma TickKeepsInvIff(s: Runtime, x: InterruptedState, now: nat)
    requires RuntimeInv(s)
    ensures RuntimeInv(Tick(s, x, now)) <==> !Switches(s, x, now) || (IsKernel(x) && !SelfWake(s, x, now))
  {
    if Switches(s, x, now) {
      ExpiredKeepsInv(s, now);
      SwitchKeepsInvIff(Expired(s, now), x);
    } else {
      TickIdle(s, x, now);
    }
  }

  /** After a tick with such a snapshot the interrupted task would begin again although it has run. */
  lemma ForeignSnapshotRestarts(s: Runtime, x: InterruptedState, now: nat)
    requires RuntimeInv(s) && Switches(s, x, now) && !SelfWake(s, x, now)
    ensures var r, c := Tick(s, x, now), s.cpu.task.value;
            && c in s.m.execs && c in r.m.execs
            && Plan(c, r.m.execs[c]) == if IsKernel(x) then ToKernel(c, x) else ToContext(c, s.m.execs[c].context)
  {
    ExpiredKeepsInv(s, now);
    SwitchBindings(Expired(s, now), x);
    OneReturnPath(x);
  }

  /** A task that wakes itself begins again although it is running, and its own state is lost. */
  lemma SelfWakeRestarts(s: Runtime, x: InterruptedState, now: nat)
    requires RuntimeInv(s) && SelfWake(s, x, now)
    ensures var c := s.cpu.task.value;
            c in s.m.execs && TickReturn(s, x, now) == Some(ToContext(c, s.m.execs[c].context))
  {
    ExpiredKeepsInv(s, now);
    SelfSwitch(Expired(s, now), x);
  }

  /** That happens exactly to a task that has gone to sleep and heads the queue, or heads the due sleepers of an empty one. */
  lemma SelfWakeIff(s: Runtime, x: InterruptedState, now: nat)
    requires RuntimeInv(s)
    ensures SelfWake(s, x, now) <==>
              && Captures(s, x) && s.disabled == 0 && s.m.sched.current.None?
              && if s.m.sched.ready != [] then s.m.sched.ready[0] == s.cpu.task.value
                 else s.m.sleepers != [] && s.m.sleepers[0].task == s.cpu.task.value && s.m.sleepers[0].deadline <= now
  {
    ExpiredHead(s, now);
    ExpiredKeepsInv(s, now);
    if Expired(s, now).m.sched.ready != [] {
      HeadHasBinding(Expired(s, now));
    }
  }

  /** Who is first once the due sleepers are awake. */
  lemma ExpiredHead(s: Runtime, now: nat)
    requires RuntimeInv(s)
    ensures var q := Expired(s, now).m.sched.ready;
            if s.m.sched.ready != [] then q != [] && q[0] == s.m.sched.ready[0]
            else (q != [] <==> s.m.sleepers != [] && s.m.sleepers[0].deadline <= now) && (q != [] ==> q[0] == s.m.sleepers[0].task)
  {
    ExpireWakesDue(s.m, now);
  }

  lemma TickIdle(s: Runtime, x: InterruptedState, now: nat)
    requires RuntimeInv(s) && !Switches(s, x, now)
    ensures RuntimeInv(Tick(s, x, now)) && Tick(s, x, now).m.execs == s.m.execs
    ensures Tick(s, x, now).cpu == s.cpu
  {
    ExpiredKeepsInv(s, now);
    forall t ensures SavedOk(Tick(s, x, now), t) {
      assert SavedOk(s, t);
    }
  }

  lemma SleepKeepsOrder(s: Runtime, deadline: nat)
    requires RuntimeInv(s)
    ensures RuntimeInv(Step(s, Event.ESleep(deadline))) && Step(s, Event.ESleep(deadline)).m.execs == s.m.execs
  {
    SleepKeepsInv(s.m, deadline);
    if s.m.sched.current.Some? {
      assert S.Live(s.m.sched, s.m.sched.current.value);
    }
    forall t ensures SavedOk(Step(s, Event.ESleep(deadline)), t) {
      assert SavedOk(s, t);
    }
  }

  lemma ServiceKeepsOrder(s: Runtime, now: nat)
    requires RuntimeInv(s)
    ensures RuntimeInv(Step(s, EService(now))) && Step(s, EService(now)).m.execs == s.m.execs
  {
    ExpiredKeepsInv(s, now);
    forall t ensures SavedOk(Step(s, EService(now)), t) {
      assert SavedOk(Expired(s, now), t);
    }
  }

  lemma SpawnExecs(s: Runtime, priority: nat, a: Option<StackAllocation>)
    requires RuntimeInv(s) && S.HasRoom(s.m.sched)
    ensures var r := Step(s, Event.ESpawn(priority, a));
            && RuntimeInv(r) && r.cpu == s.cpu
            && (forall t | t in s.m.execs :: t in r.m.execs && r.m.execs[t] == s.m.execs[t])
            && (forall t | t in r.m.execs && t !in s.m.execs :: r.m.execs[t].interrupted.None? && r.cpu.task != Some(t))
  {
    SpawnKeepsInv(s.m, priority, a);
    var r := Step(s, Event.ESpawn(priority, a));
    SpawnKeepsOwner(s, priority, a);
    forall t ensures SavedOk(r, t) {
      assert SavedOk(s, t);
    }
  }

  lemma SpawnKeepsOwner(s: Runtime, priority: nat, a: Option<StackAllocation>)
    requires RuntimeInv(s) && S.HasRoom(s.m.sched)
    ensures var m := Spawn(s.m, priority, a);
            && m.sched.current == s.m.sched.current
            && (forall t | t in s.m.execs :: t in m.execs && m.execs[t] == s.m.execs[t])
            && (forall t | t in m.execs && t !in s.m.execs :: m.execs[t].interrupted.None? && s.cpu.task != Some(t))
  {
    S.AbandonedTask(s.m.sched, priority, Kernel);
    S.SpawnedTask(s.m.sched, priority, Kernel);
    if s.m.sched.current.Some? {
      assert S.Live(s.m.sched, s.m.sched.current.value);
    }
  }

  lemma FirstKeepsInv(s: Runtime)
    requires RuntimeInv(s) && s.cpu.task.None?
    ensures RuntimeInv(First(s)) && First(s).m.execs == s.m.execs
    ensures Starts(s) ==> First(s).cpu.task == Some(s.m.sched.ready[0])
  {
    if Starts(s) {
      DispatchKeepsInv(s.m);
      forall t ensures SavedOk(First(s), t) {
        assert SavedOk(s, t);
      }
    }
  }

  lemma StepKeepsInv(s: Runtime, e: Event)
    requires RuntimeInv(s) && Enabled(s, e)
    ensures RuntimeInv(Step(s, e))
  {
    match e
    case ESpawn(priority, a) => SpawnExecs(s, priority, a);
    case EFirst => FirstKeepsInv(s);
    case ETick(x, now) => TickKeepsInvIff(s, x, now);
    case ESleep(deadline) => SleepKeepsOrder(s, deadline);
    case EService(now) => ServiceKeepsOrder(s, now);
    case _ =>
      forall t ensures SavedOk(Step(s, e), t) {
        assert SavedOk(s, t);
      }
  }

  lemma ColdInv()
    ensures RuntimeInv(Cold)
  {
  }

  /** In every reachable state the mailbox is empty, so no capture is ever refused as pending. */
  lemma {:induction false} RunKeepsInv(es: seq<Event>)
    requires Legal(Cold, es)
    ensures RuntimeInv(Run(Cold, es))
    decreases |es|
  {
    if es == [] {
      ColdInv();
    } else {
      RunKeepsInv(es[..|es| - 1]);
      StepKeepsInv(Run(Cold, es[..|es| - 1]), es[|es| - 1]);
    }
  }

  // ----- snapshot history -----

  /** The observer sees who is on the CPU before and after a step and the state a tick interrupted. */
  ghost function Observe(h: map<TaskId, Status>, s: Runtime, e: Event): map<TaskId, Status> {
    var r := Step(s, e);
    map t | t in r.m.execs ::
      if r.cpu.task == Some(t) then OnCpu
      else if s.cpu.task == Some(t) && e.ETick? then Left(e.snapshot)
      else if t in h then h[t]
      else NeverRun
  }

  ghost function History(es: seq<Event>): map<TaskId, Status>
    decreases |es|
  {
    if es == [] then map[] else Observe(History(es[..|es| - 1]), Run(Cold, es[..|es| - 1]), es[|es| - 1])
  }

  /** Each task is entered where the observer last saw it. */
  ghost predicate Tracks(s: Runtime, t: TaskId, status: Status)
    requires t in s.m.execs
  {
    match status
    case NeverRun => s.m.execs[t].interrupted.None? && s.cpu.task != Some(t)
    case OnCpu => s.m.execs[t].interrupted.None? && s.cpu.task == Some(t)
    case Left(x) => s.m.execs[t].interrupted == Some(x) && s.cpu.task != Some(t)
  }

  ghost predicate Faithful(s: Runtime, h: map<TaskId, Status>) {
    h.Keys == s.m.execs.Keys && forall t | t in s.m.execs :: Tracks(s, t, h[t])
  }

  /** How one step changes a binding, seen from outside. */
  ghost predicate Moves(s: Runtime, e: Event, r: Runtime, t: TaskId)
    requires t in r.m.execs
  {
    var now := r.m.execs[t].interrupted;
    if t !in s.m.execs then now.None? && r.cpu.task != Some(t) && s.cpu.task != Some(t)
    else if r.cpu.task == Some(t) then now.None?
    else if s.cpu.task == Some(t) then e.ETick? && now == Some(e.snapshot)
    else now == s.m.execs[t].interrupted
  }

  /** A step that leaves the CPU owner and the old bindings alone moves nothing. */
  lemma NothingMoves(s: Runtime, e: Event, r: Runtime)
    requires RuntimeInv(s) && r.cpu.task == s.cpu.task
    requires forall t | t in s.m.execs :: t in r.m.execs && r.m.execs[t] == s.m.execs[t]
    requires forall t | t in r.m.execs && t !in s.m.execs :: r.m.execs[t].interrupted.None? && r.cpu.task != Some(t)
    ensures forall t | t in r.m.execs :: Moves(s, e, r, t)
  {
    forall t | t in r.m.execs ensures Moves(s, e, r, t) {
      assert SavedOk(s, t);
    }
  }

  lemma SwitchMoves(s: Runtime, x: InterruptedState, now: nat)
    requires RuntimeInv(s) && Switches(s, x, now) && !SelfWake(s, x, now)
    ensures forall t | t in Tick(s, x, now).m.execs :: Moves(s, ETick(x, now), Tick(s, x, now), t)
  {
    ExpiredKeepsInv(s, now);
    SwitchBindings(Expired(s, now), x);
    var r := Tick(s, x, now);
    forall t | t in r.m.execs ensures Moves(s, ETick(x, now), r, t) {
      assert SavedOk(s, t);
    }
  }

  lemma FirstMoves(s: Runtime)
    requires RuntimeInv(s) && s.cpu.task.None?
    ensures forall t | t in First(s).m.execs :: Moves(s, EFirst, First(s), t)
  {
    FirstKeepsInv(s);
    forall t | t in First(s).m.execs ensures Moves(s, EFirst, First(s), t) {
      assert SavedOk(s, t) && SavedOk(First(s), t);
    }
  }

  lemma StepMoves(s: Runtime, e: Event)
    requires RuntimeInv(s) && Enabled(s, e)
    ensures forall t | t in Step(s, e).m.execs :: Moves(s, e, Step(s, e), t)
  {
    match e
    case ESpawn(priority, a) =>
      SpawnExecs(s, priority, a);
      NothingMoves(s, e, Step(s, e));
    case EFirst => FirstMoves(s);
    case ETick(x, now) =>
      if Switches(s, x, now) {
        SwitchMoves(s, x, now);
      } else {
        TickIdle(s, x, now);
        NothingMoves(s, e, Step(s, e));
      }
    case ESleep(deadline) =>
      SleepKeepsOrder(s, deadline);
      NothingMoves(s, e, Step(s, e));
    case EService(now) =>
      ServiceKeepsOrder(s, now);
      NothingMoves(s, e, Step(s, e));
    case _ => NothingMoves(s, e, Step(s, e));
  }

  lemma TickKeepsContext(s: Runtime, x: InterruptedState, now: nat, t: TaskId)
    requires RuntimeInv(s) && !SelfWake(s, x, now) && t in s.m.execs
    ensures t in Tick(s, x, now).m.execs && Tick(s, x, now).m.execs[t].context == s.m.execs[t].context
  {
    if Switches(s, x, now) {
      ExpiredKeepsInv(s, now);
      SwitchBindings(Expired(s, now), x);
    } else {
      TickIdle(s, x, now);
    }
  }

  /** First contexts never change. */
  lemma StepKeepsContext(s: Runtime, e: Event, t: TaskId)
    requires RuntimeInv(s) && Enabled(s, e) && t in s.m.execs
    ensures t in Step(s, e).m.execs && Step(s, e).m.execs[t].context == s.m.execs[t].context
  {
    match e
    case ESpawn(priority, a) => SpawnExecs(s, priority, a);
    case EFirst => FirstKeepsInv(s);
    case ETick(x, now) => TickKeepsContext(s, x, now, t);
    case ESleep(deadline) => SleepKeepsOrder(s, deadline);
    case EService(now) => ServiceKeepsOrder(s, now);
    case _ =>
  }

  /** The right way into a task: its first context if it never ran, else the snapshot it left with. */
  ghost predicate RightReturn(s: Runtime, h: map<TaskId, Status>, out: Return) {
    && out.task in h && out.task in s.m.execs
    && match out
       case ToContext(t, c) => h[t] == NeverRun && c == s.m.execs[t].context
       case ToKernel(t, x) => h[t] == Left(x)
  }

  lemma OutputIsRight(s: Runtime, h: map<TaskId, Status>, e: Event)
    requires RuntimeInv(s) && Faithful(s, h) && Enabled(s, e) && Output(s, e).Some?
    ensures RightReturn(s, h, Output(s, e).value)
    ensures Step(s, e).cpu.task == Some(Output(s, e).value.task)
  {
    var head := Output(s, e).value.task;
    if e.ETick? {
      ExpiredKeepsInv(s, e.now);
      HeadHasBinding(Expired(s, e.now));
    } else {
      HeadHasBinding(s);
    }
    assert SavedOk(s, head) && Tracks(s, head, h[head]);
  }

  /**
   * Over any run from boot: every saved snapshot is the last one its task was interrupted with, a first context is
   * used only for a task that never ran, and a snapshot is used once, for the task it was taken from.
   */
  lemma {:induction false} SnapshotHistory(es: seq<Event>)
    requires Legal(Cold, es)
    ensures Faithful(Run(Cold, es), History(es)) && Run(Cold, es).cpu.interrupted.None?
    ensures forall e | Enabled(Run(Cold, es), e) && Output(Run(Cold, es), e).Some? ::
              RightReturn(Run(Cold, es), History(es), Output(Run(Cold, es), e).value)
    decreases |es|
  {
    RunKeepsInv(es);
    var s, h := Run(Cold, es), History(es);
    if es != [] {
      var es', e := es[..|es| - 1], es[|es| - 1];
      SnapshotHistory(es');
      RunKeepsInv(es');
      StepMoves(Run(Cold, es'), e);
      ObserveKeepsFaithful(Run(Cold, es'), e, s, History(es'));
    }
    forall e | Enabled(s, e) && Output(s, e).Some? ensures RightReturn(s, h, Output(s, e).value) {
      OutputIsRight(s, h, e);
    }
  }

  lemma ObserveKeepsFaithful(s: Runtime, e: Event, r: Runtime, h: map<TaskId, Status>)
    requires Faithful(s, h) && r == Step(s, e) && forall t | t in r.m.execs :: Moves(s, e, r, t)
    ensures Faithful(r, Observe(h, s, e))
  {
    var k := Observe(h, s, e);
    forall t | t in r.m.execs ensures Tracks(r, t, k[t]) {
      assert Moves(s, e, r, t);
      if t in s.m.execs {
        assert Tracks(s, t, h[t]);
      }
    }
  }

  // ----- a task that wakes itself -----

  lemma RunOneMore(es: seq<Event>, e: Event)
    requires Legal(Cold, es) && Enabled(Run(Cold, es), e)
    ensures Legal(Cold, es + [e]) && Run(Cold, es + [e]) == Step(Run(Cold, es), e) && RuntimeInv(Run(Cold, es + [e]))
  {
    assert (es + [e])[..|es|] == es;
    RunKeepsInv(es + [e]);
  }

  /** The first task of a cold runtime is alone in the queue and has no snapshot. */
  lemma FirstSpawn(a: StackAllocation)
    requires Bootstrap(a).Some?
    ensures var r, t := Step(Cold, Event.ESpawn(0, Some(a))), S.NextId(S.Empty);
            && Enabled(Cold, Event.ESpawn(0, Some(a))) && r.m.sched.ready == [t] && r.cpu == Cold.cpu && r.m.sleepers == []
            && r.m.sched.current.None? && r.disabled == 0 && t in r.m.execs && r.m.execs[t].interrupted.None?
  {
    ColdInv();
    S.SpawnedTask(S.Empty, 0, Kernel);
  }

  /** A task alone in the queue is started and then goes to sleep. */
  lemma StartAndSleep(s: Runtime, t: TaskId, deadline: nat)
    requires RuntimeInv(s) && s.cpu.task.None? && s.m.sched.ready == [t] && s.m.sleepers == []
    requires t in s.m.execs && s.m.execs[t].interrupted.None?
    ensures var r := Step(Step(s, EFirst), Event.ESleep(deadline));
            && r.cpu.task == Some(t) && r.cpu.interrupted.None? && r.m.sched.current.None? && r.m.sched.ready == []
            && r.m.sleepers == [SleepEntry(deadline, t)] && r.disabled == s.disabled
  {
  }

  /**
   * From a cold start: the first task is started, goes to sleep, and the first tick after its deadline, with nobody
   * else there, enters it at its first context although it has run and its state has just been saved.
   */
  lemma SelfWakeFromCold(x: InterruptedState) returns (es: seq<Event>)
    requires IsKernel(x) && IsValid(x)
    ensures Legal(Cold, es)
    ensures var s := Run(Cold, es);
            && s.cpu.task.Some? && s.cpu.task.value in s.m.execs && s.cpu.task.value in History(es)
            && SelfWake(s, x, 5) && History(es)[s.cpu.task.value] == OnCpu
            && TickReturn(s, x, 5) == Some(ToContext(s.cpu.task.value, s.m.execs[s.cpu.task.value].context))
  {
    var a := StackAllocation(0x8000, 0x9000, 0xa000);
    var t := S.NextId(S.Empty);
    FirstSpawn(a);
    RunOneMore([], Event.ESpawn(0, Some(a)));
    es := [] + [Event.ESpawn(0, Some(a))];
    StartAndSleep(Run(Cold, es), t, 3);
    RunOneMore(es, EFirst);
    es := es + [EFirst];
    RunOneMore(es, Event.ESleep(3));
    es := es + [Event.ESleep(3)];
    SelfWakeIff(Run(Cold, es), x, 5);
    SelfWakeRestarts(Run(Cold, es), x, 5);
    SnapshotHistory(es);
    assert Tracks(Run(Cold, es), t, History(es)[t]);
  }

  /**
   * A tick transfers control exactly when something is on the CPU, preemption is enabled and a task is ready or due:
   * to the head of the queue, or to the first due sleeper of an empty one.
   */
  lemma TickSwitchesIff(s: Runtime, x: InterruptedState, now: nat)
    requires RuntimeInv(s)
    ensures TickReturn(s, x, now).Some? <==>
              && s.cpu.task.Some? && IsValid(x) && s.disabled == 0
              && (s.m.sched.ready != [] || (s.m.sleepers != [] && s.m.sleepers[0].deadline <= now))
    ensures TickReturn(s, x, now).Some? ==>
              TickReturn(s, x, now).value.task == if s.m.sched.ready != [] then s.m.sched.ready[0] else s.m.sleepers[0].task
  {
    ExpiredHead(s, now);
    ExpiredKeepsInv(s, now);
    if Expired(s, now).m.sched.ready != [] {
      HeadHasBinding(Expired(s, now));
    }
  }

  /** A tick that does not switch wakes nobody and at most asks for a dispatch: if it is not captured it does not even that. */
  lemma TickStays(s: Runtime, x: InterruptedState, now: nat)
    requires RuntimeInv(s) && TickReturn(s, x, now).None?
    ensures Tick(s, x, now) == if s.cpu.task.Some? && IsValid(x) then s.(reschedule := true) else s
  {
    TickSwitchesIff(s, x, now);
    ExpiredHead(s, now);
    if s.m.sleepers == [] || now < s.m.sleepers[0].deadline {
      NoneDue(s.m, now);
    }
  }

  lemma NoneDue(m: Manager, now: nat)
    requires m.sleepers == [] || now < m.sleepers[0].deadline
    ensures Expire(m, now) == m
  {
    assert DueCount(m.sleepers, now) == 0 && m.sleepers[0..] == m.sleepers;
    assert TasksOf(m.sleepers[..0]) == [];
  }

  /**
   * A tick that switches puts the due sleepers, in order, behind the ready tasks, and the interrupted task behind those
   * unless it has gone to sleep; the first of them all has the CPU, and the request for a dispatch is answered.
   */
  lemma TickMovesOn(s: Runtime, x: InterruptedState, now: nat)
    requires RuntimeInv(s) && TickReturn(s, x, now).Some? && !SelfWake(s, x, now)
    ensures var r, n := Tick(s, x, now), DueCount(s.m.sleepers, now);
            var q := s.m.sched.ready + TasksOf(s.m.sleepers[..n]);
            && q != [] && r.cpu.task == r.m.sched.current == Some(q[0]) && TickReturn(s, x, now).value.task == q[0]
            && r.m.sched.ready == q[1..] + (if s.m.sched.current.Some? then [s.m.sched.current.value] else [])
            && r.m.sleepers == s.m.sleepers[n..] && !r.reschedule && r.disabled == 0
  {
    ExpireWakesDue(s.m, now);
    ExpiredKeepsInv(s, now);
    SwitchedQueue(Expired(s, now), x);
  }

  lemma SwitchedQueue(s: Runtime, x: InterruptedState)
    requires RuntimeInv(s) && s.cpu.task.Some? && s.m.sched.ready != [] && s.cpu.task != Some(s.m.sched.ready[0])
    ensures var r := Switch(s, x);
            && r.cpu.task == r.m.sched.current == Some(s.m.sched.ready[0]) && r.m.sleepers == s.m.sleepers && !r.reschedule
            && r.m.sched.ready == s.m.sched.ready[1..] + (if s.m.sched.current.Some? then [s.m.sched.current.value] else [])
  {
    HeadHasBinding(s);
  }

  /** Disabling preemption nests: each enable undoes one disable, and until the last no tick switches. */
  lemma {:induction false} DisableNests(s: Runtime, n: nat, x: InterruptedState, now: nat)
    ensures var r := Run(s, seq(n, _ => EDisable)); var depth := s.disabled + n;
            && r == s.(disabled := depth) && Step(Step(r, EDisable), EEnable) == r
            && (0 < depth ==> TickReturn(r, x, now).None? && Step(r, EEnable) == s.(disabled := depth - 1))
            && (depth == 0 ==> Step(r, EEnable) == r)
    decreases n
  {
    var es: seq<Event> := seq(n, _ => EDisable);
    if n > 0 {
      DisableNests(s, n - 1, x, now);
      assert es[..n - 1] == seq(n - 1, _ => EDisable);
    }
  }

  /** The first task can be started exactly when one is ready and was never interrupted. */
  lemma StartsIff(s: Runtime)
    requires RuntimeInv(s)
    ensures Starts(s) <==>
      s.m.sched.ready != [] && s.m.sched.ready[0] in s.m.execs && s.m.execs[s.m.sched.ready[0]].interrupted.None?
    ensures Starts(s) ==>
      && Output(s, EFirst) == Some(ToContext(s.m.sched.ready[0], s.m.execs[s.m.sched.ready[0]].context))
      && First(s).m.sched.current == First(s).cpu.task == Some(s.m.sched.ready[0])
      && First(s).m.execs == s.m.execs && First(s).m.sleepers == s.m.sleepers && First(s).reschedule == s.reschedule
      && (s.cpu.task.None? ==> First(s).m.sched.ready == s.m.sched.ready[1..])
    ensures !Starts(s) ==> First(s) == s
  {
    if s.m.sched.ready != [] {
      HeadHasBinding(s);
      assert SavedOk(s, s.m.sched.ready[0]);
    }
  }

  /** The timer work outside the interrupt wakes the due sleepers and leaves the CPU alone. */
  lemma ServiceWakesDue(s: Runtime, now: nat)
    requires RuntimeInv(s)
    ensures var r, n := Step(s, EService(now)), DueCount(s.m.sleepers, now);
            && r.reschedule && r.cpu == s.cpu && r.disabled == s.disabled && r.m.sched.current == s.m.sched.current
            && r.m.sched.ready == s.m.sched.ready + TasksOf(s.m.sleepers[..n]) && r.m.sleepers == s.m.sleepers[n..]
            && forall i | 0 <= i < |s.m.sleepers| :: i < n <==> s.m.sleepers[i].deadline <= now
  {
    ExpireWakesDue(s.m, now);
  }
}
