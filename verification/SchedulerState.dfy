/**
 The scheduler as a value: its state, its operations in their simplest form, the
 invariant they keep and what holds over every run (kernel/src/scheduler/mod.rs).
 */
module SchedulerState {
  import opened Prelude
  import opened Tasks
  import opened Queues

  /** Slot table with one generation counter per slot, FIFO of ready tasks, CPU owner. */
  datatype Sched = Sched(
    tasks: seq<Option<Tcb>>, generations: seq<nat>, ready: seq<TaskId>, current: Option<TaskId>)

  datatype SchedulerError =
    | TaskNotFound | ExecutionAlreadyAttached | TaskNotCreated | WaitQueueAlreadyContainsTask
    | SleepQueueAlreadyContainsTask | CurrentTaskMismatch | SuccessorNotReady

  const Empty: Sched := Sched([], [], [], None)

  /** A stale id finds nothing: the slot must hold a task with this very id. */
  function Lookup(tasks: seq<Option<Tcb>>, id: TaskId): (t: Option<Tcb>)
    ensures t.Some? ==> t.value.id == id
  {
    if id.index < |tasks| && tasks[id.index].Some? && tasks[id.index].value.id == id
    then tasks[id.index] else None
  }

  function State(s: Sched, id: TaskId): Option<TaskState> {
    var t := Lookup(s.tasks, id);
    if t.Some? then Some(t.value.state) else None
  }

  predicate Live(s: Sched, id: TaskId) {
    Lookup(s.tasks, id).Some?
  }

  /** Slot i holds only the id issued last for slot i. */
  ghost predicate SlotsMatch(s: Sched) {
    && |s.tasks| == |s.generations| <= U32
    && (forall i | 0 <= i < |s.tasks| :: 1 <= s.generations[i] < U32)
    && (forall i | 0 <= i < |s.tasks| && s.tasks[i].Some? :: s.tasks[i].value.id == TaskId(i, s.generations[i]))
  }

  /** The ready queue holds exactly the Ready tasks, once each; only the CPU owner is Running. */
  ghost predicate Inv(s: Sched) {
    && SlotsMatch(s)
    && Distinct(s.ready)
    && (forall id :: State(s, id) == Some(Ready) <==> id in s.ready)
    && (forall id :: State(s, id) == Some(Running) <==> s.current == Some(id))
    && (forall id :: State(s, id) != Some(Exited))
  }

  // ----- operations -----

  predicate Reusable(s: Sched, i: nat) {
    i < |s.tasks| && s.tasks[i].None? && i < |s.generations| && s.generations[i] != U32 - 1
  }

  /** The first reusable slot at or after `from`, or the length of the table. */
  function FirstReusable(s: Sched, from: nat): (i: nat)
    requires from <= |s.tasks|
    ensures from <= i <= |s.tasks|
    ensures i < |s.tasks| ==> Reusable(s, i)
    ensures forall k | from <= k < i :: !Reusable(s, k)
    decreases |s.tasks| - from
  {
    if from == |s.tasks| || Reusable(s, from) then from else FirstReusable(s, from + 1)
  }

  /** The slot index is cast to `u32`. */
  function NextId(s: Sched): TaskId {
    var i := FirstReusable(s, 0);
    TaskId(i % U32, if i < |s.tasks| then s.generations[i] + 1 else 1)
  }

  function Create(s: Sched, priority: nat, kind: TaskKind): Sched {
    var i := FirstReusable(s, 0);
    var id := NextId(s);
    var tcb := Some(Tcb(id, kind, Created, priority, None));
    if i < |s.tasks| then s.(tasks := s.tasks[i := tcb], generations := s.generations[i := id.generation])
    else s.(tasks := s.tasks + [tcb], generations := s.generations + [1])
  }

  /** There is a slot to reuse or the next fresh index still fits in `u32`. */
  predicate HasRoom(s: Sched) {
    FirstReusable(s, 0) < U32
  }

  function Put(s: Sched, tcb: Tcb): Sched {
    if Live(s, tcb.id) then s.(tasks := s.tasks[tcb.id.index := Some(tcb)]) else s
  }

  function WithState(s: Sched, id: TaskId, state: TaskState): Sched {
    if Live(s, id) then Put(s, Lookup(s.tasks, id).value.(state := state)) else s
  }

  function Without(s: Sched, id: TaskId): Sched {
    if Live(s, id) then s.(tasks := s.tasks[id.index := None]) else s
  }

  function Attach(s: Sched, id: TaskId): Sched {
    var t := Lookup(s.tasks, id);
    if t.Some? && t.value.execution.None? then Put(s, t.value.(execution := Some(id))) else s
  }

  predicate CanDestroy(s: Sched, id: TaskId) {
    State(s, id) == Some(Created) && Lookup(s.tasks, id).value.execution.Some?
  }

  function Destroy(s: Sched, id: TaskId): Sched {
    if CanDestroy(s, id) then Without(s, id) else s
  }

  predicate CanMakeReady(s: Sched, id: TaskId) {
    id !in s.ready && Live(s, id) && CanTransition(State(s, id).value, Ready)
  }

  function MakeReady(s: Sched, id: TaskId): Sched {
    if CanMakeReady(s, id) then WithState(s, id, Ready).(ready := s.ready + [id]) else s
  }

  /** The head of the queue takes the CPU; the previous owner goes to the back. */
  function ScheduleNext(s: Sched): Sched {
    if s.ready == [] then s
    else
      var head := s.ready[0];
      var (demoted, tail) := match s.current
        case None => (s, s.ready[1..])
        case Some(c) => (WithState(s, c, Ready), s.ready[1..] + [c]);
      WithState(demoted, head, Running).(ready := tail, current := Some(head))
  }

  predicate CanTerminateTo(s: Sched, successor: TaskId) {
    s.current.Some? && s.current.value != successor && s.ready != [] && s.ready[0] == successor
  }

  function TerminateTo(s: Sched, successor: TaskId): Sched {
    if CanTerminateTo(s, successor)
    then WithState(Without(s, s.current.value), successor, Running).(ready := s.ready[1..], current := Some(successor))
    else s
  }

  /** The CPU owner leaves the CPU and waits, unless `queued` already holds it. */
  function Block(s: Sched, queued: bool): Sched {
    if s.current.Some? && !queued then WithState(s, s.current.value, Blocked).(current := None) else s
  }

  function Wake(s: Sched, id: TaskId): Sched {
    if State(s, id) == Some(Blocked) then WithState(s, id, Ready).(ready := s.ready + [id]) else s
  }

  /** How many waiters the wake loop drops before one that is Blocked. */
  function Stale(s: Sched, waiters: seq<TaskId>): (n: nat)
    ensures n <= |waiters|
    ensures forall i | 0 <= i < n :: State(s, waiters[i]) != Some(Blocked)
    ensures n < |waiters| ==> State(s, waiters[n]) == Some(Blocked)
  {
    if waiters == [] || State(s, waiters[0]) == Some(Blocked) then 0 else 1 + Stale(s, waiters[1..])
  }

  function WakeOne(s: Sched, waiters: seq<TaskId>): Sched {
    var n := Stale(s, waiters);
    if n < |waiters| then Wake(s, waiters[n]) else s
  }

  function WakeAll(s: Sched, due: seq<TaskId>): Sched
    decreases |due|
  {
    if due == [] then s else Wake(WakeAll(s, due[..|due| - 1]), due[|due| - 1])
  }

  function ExitCurrent(s: Sched): Sched {
    if s.current.Some? then Without(s, s.current.value).(current := None) else s
  }

  // ----- steps and runs -----

  /** The queues passed in by callers may hold anything, stale ids included. */
  datatype Event =
    | ECreate(priority: nat, kind: TaskKind)
    | EAttach(id: TaskId)
    | EDestroy(id: TaskId)
    | EMakeReady(id: TaskId)
    | EScheduleNext
    | ETerminateTo(id: TaskId)
    | EBlock(queued: bool)
    | EWakeOne(waiters: seq<TaskId>)
    | EExpire(due: seq<TaskId>)
    | EExit

  predicate Enabled(s: Sched, e: Event) {
    && (e.ECreate? ==> HasRoom(s))
    && (e.EMakeReady? ==> State(s, e.id) != Some(Running))
  }

  function Step(s: Sched, e: Event): Sched {
    match e
    case ECreate(priority, kind) => Create(s, priority, kind)
    case EAttach(id) => Attach(s, id)
    case EDestroy(id) => Destroy(s, id)
    case EMakeReady(id) => MakeReady(s, id)
    case EScheduleNext => ScheduleNext(s)
    case ETerminateTo(id) => TerminateTo(s, id)
    case EBlock(queued) => Block(s, queued)
    case EWakeOne(waiters) => WakeOne(s, waiters)
    case EExpire(due) => WakeAll(s, due)
    case EExit => ExitCurrent(s)
  }

  function Run(s: Sched, es: seq<Event>): Sched
    decreases |es|
  {
    if es == [] then s else Step(Run(s, es[..|es| - 1]), es[|es| - 1])
  }

  ghost predicate Legal(s: Sched, es: seq<Event>)
    decreases |es|
  {
    es == [] || (Legal(s, es[..|es| - 1]) && Enabled(Run(s, es[..|es| - 1]), es[|es| - 1]))
  }

  // ----- how each primitive update is seen through Lookup -----

  lemma PutLookup(s: Sched, tcb: Tcb)
    requires Live(s, tcb.id)
    ensures forall x :: Lookup(Put(s, tcb).tasks, x) == if x == tcb.id then Some(tcb) else Lookup(s.tasks, x)
  {
  }

  lemma WithoutLookup(s: Sched, id: TaskId)
    ensures forall x :: Lookup(Without(s, id).tasks, x) == if x == id then None else Lookup(s.tasks, x)
  {
  }

  lemma WithStateLookup(s: Sched, id: TaskId, state: TaskState)
    requires Live(s, id)
    ensures forall x :: Lookup(WithState(s, id, state).tasks, x) ==
                        if x == id then Some(Lookup(s.tasks, id).value.(state := state)) else Lookup(s.tasks, x)
    ensures forall x :: State(WithState(s, id, state), x) == if x == id then Some(state) else State(s, x)
    ensures SlotsMatch(s) ==> SlotsMatch(WithState(s, id, state))
  {
    PutLookup(s, Lookup(s.tasks, id).value.(state := state));
  }

  lemma CreateLookup(s: Sched, priority: nat, kind: TaskKind)
    requires SlotsMatch(s) && HasRoom(s)
    ensures var id := NextId(s);
            && !Live(s, id)
            && forall x :: Lookup(Create(s, priority, kind).tasks, x) ==
                           if x == id then Some(Tcb(id, kind, Created, priority, None)) else Lookup(s.tasks, x)
    ensures SlotsMatch(Create(s, priority, kind))
  {
  }

  // ----- the invariant -----

  /** What the invariant says about the two tasks a dispatch touches. */
  lemma OwnerAndHead(s: Sched)
    requires Inv(s)
    ensures s.current.Some? ==> State(s, s.current.value) == Some(Running) && s.current.value !in s.ready
    ensures s.ready != [] ==> State(s, s.ready[0]) == Some(Ready) && s.ready[0] !in s.ready[1..]
    ensures s.ready != [] && s.current.Some? ==>
              State(WithState(s, s.current.value, Ready), s.ready[0]) == Some(Ready) && s.ready[0] != s.current.value
  {
    if s.ready != [] {
      assert s.ready[0] in s.ready;
      if s.current.Some? { WithStateLookup(s, s.current.value, Ready); }
    }
  }

  lemma ScheduleNextKeepsInv(s: Sched)
    requires Inv(s)
    ensures Inv(ScheduleNext(s))
  {
    if s.ready != [] {
      var head := s.ready[0];
      assert head in s.ready;
      match s.current
      case None =>
        WithStateLookup(s, head, Running);
        assert forall id :: id in s.ready <==> id == head || id in s.ready[1..];
      case Some(c) =>
        WithStateLookup(s, c, Ready);
        WithStateLookup(WithState(s, c, Ready), head, Running);
        assert c !in s.ready;
        assert forall id :: id in s.ready <==> id == head || id in s.ready[1..];
    }
  }

  /** A dispatch changes the state of the head and of the previous owner, and no other task. */
  lemma DispatchLookup(s: Sched)
    requires Inv(s) && s.ready != []
    ensures forall x :: Lookup(ScheduleNext(s).tasks, x) ==
                        if x == s.ready[0] then Some(Lookup(s.tasks, x).value.(state := Running))
                        else if s.current == Some(x) then Some(Lookup(s.tasks, x).value.(state := Ready))
                        else Lookup(s.tasks, x)
  {
    OwnerAndHead(s);
    if s.current.Some? {
      WithStateLookup(s, s.current.value, Ready);
      WithStateLookup(WithState(s, s.current.value, Ready), s.ready[0], Running);
    } else {
      WithStateLookup(s, s.ready[0], Running);
    }
  }

  lemma TerminateLookup(s: Sched, successor: TaskId)
    requires Inv(s) && CanTerminateTo(s, successor)
    ensures forall x :: Lookup(TerminateTo(s, successor).tasks, x) ==
                        if x == successor then Some(Lookup(s.tasks, x).value.(state := Running))
                        else if s.current == Some(x) then None
                        else Lookup(s.tasks, x)
  {
    OwnerAndHead(s);
    WithoutLookup(s, s.current.value);
    WithStateLookup(Without(s, s.current.value), successor, Running);
  }

  lemma TerminateKeepsInv(s: Sched, successor: TaskId)
    requires Inv(s)
    ensures Inv(TerminateTo(s, successor))
  {
    if CanTerminateTo(s, successor) {
      var c := s.current.value;
      assert successor in s.ready;
      WithoutLookup(s, c);
      WithStateLookup(Without(s, c), successor, Running);
      assert forall id :: id in s.ready <==> id == successor || id in s.ready[1..];
    }
  }

  lemma WakeKeepsInv(s: Sched, id: TaskId)
    requires Inv(s)
    ensures Inv(Wake(s, id))
  {
    if State(s, id) == Some(Blocked) {
      WithStateLookup(s, id, Ready);
    }
  }

  lemma {:induction false} WakeAllKeepsInv(s: Sched, due: seq<TaskId>)
    requires Inv(s)
    ensures Inv(WakeAll(s, due))
    decreases |due|
  {
    if due != [] {
      WakeAllKeepsInv(s, due[..|due| - 1]);
      WakeKeepsInv(WakeAll(s, due[..|due| - 1]), due[|due| - 1]);
    }
  }

  lemma CreateKeepsInv(s: Sched, priority: nat, kind: TaskKind)
    requires Inv(s) && HasRoom(s)
    ensures Inv(Create(s, priority, kind))
  {
    CreateLookup(s, priority, kind);
  }

  lemma AttachKeepsInv(s: Sched, id: TaskId)
    requires Inv(s)
    ensures Inv(Attach(s, id))
  {
    if Live(s, id) { PutLookup(s, Lookup(s.tasks, id).value.(execution := Some(id))); }
  }

  lemma MakeReadyKeepsInv(s: Sched, id: TaskId)
    requires Inv(s) && State(s, id) != Some(Running)
    ensures Inv(MakeReady(s, id))
  {
    if CanMakeReady(s, id) { WithStateLookup(s, id, Ready); }
  }

  lemma BlockKeepsInv(s: Sched, queued: bool)
    requires Inv(s)
    ensures Inv(Block(s, queued))
  {
    if s.current.Some? { WithStateLookup(s, s.current.value, Blocked); }
  }

  /** Taking a task that is neither ready nor running out of the table, or the running one off the CPU. */
  lemma RemoveKeepsInv(s: Sched, id: TaskId)
    requires Inv(s)
    ensures Inv(Destroy(s, id)) && Inv(ExitCurrent(s))
  {
    WithoutLookup(s, id);
    if s.current.Some? { WithoutLookup(s, s.current.value); }
  }

  lemma StepKeepsInv(s: Sched, e: Event)
    requires Inv(s) && Enabled(s, e)
    ensures Inv(Step(s, e))
  {
    match e
    case ECreate(priority, kind) => CreateKeepsInv(s, priority, kind);
    case EAttach(id) => AttachKeepsInv(s, id);
    case EDestroy(id) => RemoveKeepsInv(s, id);
    case EMakeReady(id) => MakeReadyKeepsInv(s, id);
    case EScheduleNext => ScheduleNextKeepsInv(s);
    case ETerminateTo(id) => TerminateKeepsInv(s, id);
    case EBlock(queued) => BlockKeepsInv(s, queued);
    case EWakeOne(waiters) =>
      if Stale(s, waiters) < |waiters| { WakeKeepsInv(s, waiters[Stale(s, waiters)]); }
    case EExpire(due) => WakeAllKeepsInv(s, due);
    case EExit => RemoveKeepsInv(s, TaskId(0, 0));
  }

  lemma {:induction false} RunKeepsInv(s: Sched, es: seq<Event>)
    requires Inv(s) && Legal(s, es)
    ensures Inv(Run(s, es))
    decreases |es|
  {
    if es != [] {
      RunKeepsInv(s, es[..|es| - 1]);
      StepKeepsInv(Run(s, es[..|es| - 1]), es[|es| - 1]);
    }
  }

  /** `make_ready` keeps the invariant exactly when its argument is not the running task. */
  lemma MakeReadyNeedsNotRunning(s: Sched, id: TaskId)
    requires Inv(s)
    ensures Inv(MakeReady(s, id)) <==> State(s, id) != Some(Running)
  {
    if State(s, id) == Some(Running) {
      assert s.current == Some(id) && id !in s.ready;
      WithStateLookup(s, id, Ready);
      assert State(MakeReady(s, id), id) == Some(Ready);
    } else {
      StepKeepsInv(s, EMakeReady(id));
    }
  }

  // ----- what each step does -----

  /** A free slot with generations left is used again, the first of them first, under its next generation. */
  lemma FirstFreeSlot(s: Sched, i: nat, priority: nat, kind: TaskKind)
    requires SlotsMatch(s) && i < |s.tasks| && s.tasks[i].None? && s.generations[i] < 0xffff_ffff
    requires forall j | 0 <= j < i :: s.tasks[j].Some? || s.generations[j] == 0xffff_ffff
    ensures NextId(s) == TaskId(i, s.generations[i] + 1)
    ensures Create(s, priority, kind).generations == s.generations[i := s.generations[i] + 1]
  {
    assert forall j | 0 <= j < i :: !Reusable(s, j);
    assert Reusable(s, i);
  }

  /** When there is none, the table grows by a slot in its first generation. */
  lemma NoFreeSlot(s: Sched, priority: nat, kind: TaskKind)
    requires SlotsMatch(s) && forall j | 0 <= j < |s.tasks| :: s.tasks[j].Some? || s.generations[j] == 0xffff_ffff
    ensures NextId(s) == TaskId(|s.tasks| % 0x1_0000_0000, 1)
    ensures Create(s, priority, kind).generations == s.generations + [1]
  {
    assert forall j | 0 <= j < |s.tasks| :: !Reusable(s, j);
  }

  /** The waiter a wake-up picks: the first that is Blocked. */
  predicate FirstBlocked(s: Sched, waiters: seq<TaskId>, x: TaskId) {
    exists n | 0 <= n < |waiters| ::
      waiters[n] == x && State(s, x) == Some(Blocked) && forall i | 0 <= i < n :: State(s, waiters[i]) != Some(Blocked)
  }

  lemma StaleIsFirst(s: Sched, waiters: seq<TaskId>, x: TaskId)
    ensures FirstBlocked(s, waiters, x) <==> Stale(s, waiters) < |waiters| && waiters[Stale(s, waiters)] == x
  {
    var n := Stale(s, waiters);
    if n < |waiters| {
      assert waiters[n] == waiters[n] && State(s, waiters[n]) == Some(Blocked);
    }
  }

  /** The state every task has after every step, in terms of the states before it. */
  function StateAfter(s: Sched, e: Event, x: TaskId): Option<TaskState> {
    var before := State(s, x);
    match e
    case ECreate(_, _) => if x == NextId(s) then Some(Created) else before
    case EAttach(_) => before
    case EDestroy(id) => if x == id && before == Some(Created) && Lookup(s.tasks, x).value.execution.Some? then None else before
    case EMakeReady(id) =>
      if x == id && (before == Some(Created) || before == Some(Blocked) || before == Some(Running)) then Some(Ready) else before
    case EScheduleNext =>
      if s.ready == [] then before else if x == s.ready[0] then Some(Running) else if s.current == Some(x) then Some(Ready) else before
    case ETerminateTo(id) =>
      if s.current.None? || s.ready == [] || s.ready[0] != id then before
      else if x == id then Some(Running) else if s.current == Some(x) then None else before
    case EBlock(queued) => if s.current == Some(x) && !queued then Some(Blocked) else before
    case EWakeOne(waiters) => if FirstBlocked(s, waiters, x) then Some(Ready) else before
    case EExpire(due) => if before == Some(Blocked) && x in due then Some(Ready) else before
    case EExit => if s.current == Some(x) then None else before
  }

  lemma {:induction false} WakeAllStates(s: Sched, due: seq<TaskId>, x: TaskId)
    ensures State(WakeAll(s, due), x) == if State(s, x) == Some(Blocked) && x in due then Some(Ready) else State(s, x)
    decreases |due|
  {
    if due != [] {
      var n := |due| - 1;
      WakeAllStates(s, due[..n], x);
      assert due == due[..n] + [due[n]];
      var w := WakeAll(s, due[..n]);
      if Live(w, due[n]) { WithStateLookup(w, due[n], Ready); }
    }
  }

  lemma StepStates(s: Sched, e: Event, x: TaskId)
    requires Inv(s) && (e.ECreate? ==> HasRoom(s))
    ensures State(Step(s, e), x) == StateAfter(s, e, x)
  {
    match e
    case ECreate(priority, kind) => CreateLookup(s, priority, kind);
    case EAttach(id) => if Live(s, id) { PutLookup(s, Lookup(s.tasks, id).value.(execution := Some(id))); }
    case EDestroy(id) => WithoutLookup(s, id);
    case EMakeReady(id) => if Live(s, id) { WithStateLookup(s, id, Ready); }
    case EScheduleNext => if s.ready != [] { DispatchLookup(s); OwnerAndHead(s); }
    case ETerminateTo(id) => OwnerAndHead(s); if CanTerminateTo(s, id) { TerminateLookup(s, id); }
    case EBlock(queued) => if s.current.Some? { WithStateLookup(s, s.current.value, Blocked); }
    case EWakeOne(waiters) =>
      StaleIsFirst(s, waiters, x);
      var n := Stale(s, waiters);
      if n < |waiters| { WithStateLookup(s, waiters[n], Ready); }
    case EExpire(due) => WakeAllStates(s, due, x);
    case EExit => if s.current.Some? { WithoutLookup(s, s.current.value); }
  }

  /** Every step moves every task it leaves in the table along the transition table. */
  lemma StepsFollowTable(s: Sched, e: Event, x: TaskId)
    requires Inv(s) && Enabled(s, e)
    ensures State(s, x).Some? && State(Step(s, e), x).Some? ==>
      State(Step(s, e), x) == State(s, x) || CanTransition(State(s, x).value, State(Step(s, e), x).value)
    ensures State(s, x).None? && State(Step(s, e), x).Some? ==> e.ECreate? && x == NextId(s) && State(Step(s, e), x) == Some(Created)
    ensures State(s, x).Some? && State(Step(s, e), x).None? ==> State(s, x) == Some(Created) || CanTransition(State(s, x).value, Exited)
  {
    StepStates(s, e, x);
    if e.ECreate? { CreateLookup(s, e.priority, e.kind); }
  }

  /** The waiters that a wake-up of all of `due` really wakes, in order. */
  function BlockedAmong(s: Sched, due: seq<TaskId>): (ids: seq<TaskId>)
    ensures forall x | x in ids :: x in due && State(s, x) == Some(Blocked)
    decreases |due|
  {
    if due == [] then [] else
      var n := |due| - 1;
      BlockedAmong(s, due[..n]) + if State(s, due[n]) == Some(Blocked) && due[n] !in due[..n] then [due[n]] else []
  }

  lemma {:induction false} WakeAllQueue(s: Sched, due: seq<TaskId>)
    ensures WakeAll(s, due).ready == s.ready + BlockedAmong(s, due) && WakeAll(s, due).current == s.current
    decreases |due|
  {
    if due != [] {
      var n := |due| - 1;
      WakeAllQueue(s, due[..n]);
      WakeAllStates(s, due[..n], due[n]);
    }
  }

  /** The ready queue after every step: it grows at its end, and only a dispatch takes the head. */
  function QueueAfter(s: Sched, e: Event): seq<TaskId> {
    match e
    case EMakeReady(id) =>
      if State(s, id) == Some(Created) || State(s, id) == Some(Blocked) || State(s, id) == Some(Running) then s.ready + [id] else s.ready
    case EScheduleNext => if s.ready == [] then [] else s.ready[1..] + (if s.current.Some? then [s.current.value] else [])
    case ETerminateTo(id) => if s.current.Some? && s.ready != [] && s.ready[0] == id then s.ready[1..] else s.ready
    case EWakeOne(waiters) => if Stale(s, waiters) < |waiters| then s.ready + [waiters[Stale(s, waiters)]] else s.ready
    case EExpire(due) => s.ready + BlockedAmong(s, due)
    case _ => s.ready
  }

  function OwnerAfter(s: Sched, e: Event): Option<TaskId> {
    match e
    case EScheduleNext => if s.ready == [] then s.current else Some(s.ready[0])
    case ETerminateTo(id) => if s.current.Some? && s.ready != [] && s.ready[0] == id then Some(id) else s.current
    case EBlock(queued) => if queued then s.current else None
    case EExit => None
    case _ => s.current
  }

  /** What every step does to the ready queue and to the owner of the CPU. */
  lemma StepQueue(s: Sched, e: Event)
    requires Inv(s)
    ensures Step(s, e).ready == QueueAfter(s, e) && Step(s, e).current == OwnerAfter(s, e)
  {
    OwnerAndHead(s);
    match e
    case EExpire(due) => WakeAllQueue(s, due);
    case EMakeReady(id) => assert State(s, id) == Some(Ready) <==> id in s.ready;
    case _ =>
  }

  /** A wake-up readies the first waiter that is Blocked, at the end of the queue, and nobody else; none Blocked, nothing changes. */
  lemma WakeOneWakesFirst(s: Sched, waiters: seq<TaskId>, n: nat)
    requires Inv(s) && n <= |waiters| && forall i | 0 <= i < n :: State(s, waiters[i]) != Some(Blocked)
    ensures n == |waiters| ==> WakeOne(s, waiters) == s
    ensures n < |waiters| && State(s, waiters[n]) == Some(Blocked) ==>
      var r := WakeOne(s, waiters);
      && r.ready == s.ready + [waiters[n]] && r.current == s.current && State(r, waiters[n]) == Some(Ready)
      && forall x | x != waiters[n] :: Lookup(r.tasks, x) == Lookup(s.tasks, x)
  {
    if n < |waiters| && State(s, waiters[n]) == Some(Blocked) {
      assert Stale(s, waiters) == n;
      WithStateLookup(s, waiters[n], Ready);
    }
  }

  // ----- spawning -----

  /** A task as it is when the later stages of a spawn may still fail. */
  function Prepared(s: Sched, priority: nat, kind: TaskKind): Sched {
    Attach(Create(s, priority, kind), NextId(s))
  }

  lemma PreparedTask(s: Sched, priority: nat, kind: TaskKind)
    requires Inv(s) && HasRoom(s)
    ensures var id, r := NextId(s), Prepared(s, priority, kind);
            && Inv(r) && !Live(s, id) && r.ready == s.ready && r.current == s.current
            && CanMakeReady(r, id)
            && forall x :: Lookup(r.tasks, x) ==
                           if x == id then Some(Tcb(id, kind, Created, priority, Some(id))) else Lookup(s.tasks, x)
  {
    var id := NextId(s);
    assert State(s, id) != Some(Ready) by { CreateLookup(s, priority, kind); }
    var created := Create(s, priority, kind);
    StepKeepsInv(s, ECreate(priority, kind));
    CreateLookup(s, priority, kind);
    StepKeepsInv(created, EAttach(id));
    PutLookup(created, Lookup(created.tasks, id).value.(execution := Some(id)));
  }

  /** A finished spawn adds one ready task at the end of the queue. */
  lemma SpawnedTask(s: Sched, priority: nat, kind: TaskKind)
    requires Inv(s) && HasRoom(s)
    ensures var id := NextId(s);
            var r := MakeReady(Prepared(s, priority, kind), id);
            && Inv(r) && !Live(s, id) && r.ready == s.ready + [id] && r.current == s.current
            && forall x :: Lookup(r.tasks, x) ==
                           if x == id then Some(Tcb(id, kind, Ready, priority, Some(id))) else Lookup(s.tasks, x)
  {
    var id := NextId(s);
    PreparedTask(s, priority, kind);
    StepKeepsInv(Prepared(s, priority, kind), EMakeReady(id));
    WithStateLookup(Prepared(s, priority, kind), id, Ready);
  }

  /** An abandoned spawn leaves no trace but its generation number and a free slot. */
  lemma AbandonedTask(s: Sched, priority: nat, kind: TaskKind)
    requires Inv(s) && HasRoom(s)
    ensures var r := Destroy(Prepared(s, priority, kind), NextId(s));
            && Inv(r) && r.ready == s.ready && r.current == s.current
            && forall x :: Lookup(r.tasks, x) == Lookup(s.tasks, x)
  {
    PreparedTask(s, priority, kind);
    StepKeepsInv(Prepared(s, priority, kind), EDestroy(NextId(s)));
    WithoutLookup(Prepared(s, priority, kind), NextId(s));
  }

  // ----- bounded waiting -----

  /** The steps that take the head of the ready queue. */
  predicate Dispatches(s: Sched, e: Event) {
    e.EScheduleNext? || (e.ETerminateTo? && CanTerminateTo(s, e.id))
  }

  ghost function DispatchCount(s: Sched, es: seq<Event>): nat
    decreases |es|
  {
    if es == [] then 0
    else DispatchCount(s, es[..|es| - 1]) + if Dispatches(Run(s, es[..|es| - 1]), es[|es| - 1]) then 1 else 0
  }

  lemma {:induction false} WakeAllAppends(s: Sched, due: seq<TaskId>)
    ensures s.ready <= WakeAll(s, due).ready
    decreases |due|
  {
    if due != [] { WakeAllAppends(s, due[..|due| - 1]); }
  }

  /** A dispatch removes the head; every other step leaves the queue a prefix of what it becomes. */
  lemma QueueOnlyAdvances(s: Sched, e: Event)
    requires s.ready != []
    ensures Dispatches(s, e) ==> s.ready[1..] <= Step(s, e).ready && Step(s, e).current == Some(s.ready[0])
    ensures !Dispatches(s, e) ==> s.ready <= Step(s, e).ready
  {
    if e.EExpire? { WakeAllAppends(s, e.due); }
  }

  /** The ready queues a run goes through and which of its steps take the head. */
  lemma {:induction false} QueuesOf(s: Sched, es: seq<Event>) returns (queues: seq<seq<TaskId>>, turns: seq<bool>)
    ensures |turns| == |es| && AllAdvance(queues, turns)
    ensures queues[0] == s.ready && queues[|turns|] == Run(s, es).ready && Count(turns, |turns|) == DispatchCount(s, es)
    decreases |es|
  {
    if es == [] {
      queues, turns := [s.ready], [];
    } else {
      var es', e := es[..|es| - 1], es[|es| - 1];
      queues, turns := QueuesOf(s, es');
      var r := Run(s, es');
      StepAdvances(r, e);
      OneMoreTurn(queues, turns, Step(r, e).ready, Dispatches(r, e));
      queues, turns := queues + [Step(r, e).ready], turns + [Dispatches(r, e)];
    }
  }

  lemma StepAdvances(s: Sched, e: Event)
    ensures Advances(s.ready, Step(s, e).ready, Dispatches(s, e))
  {
    if s.ready != [] { QueueOnlyAdvances(s, e); }
  }

  lemma WaitingPosition(s: Sched, es: seq<Event>, k: nat, r: Sched, d: nat)
    requires r == Run(s, es) && d == DispatchCount(s, es) <= k < |s.ready|
    ensures k - d < |r.ready| && r.ready[k - d] == s.ready[k]
  {
    var queues, turns := QueuesOf(s, es);
    PlaceAfter(s, queues, turns, k, r, d);
  }

  lemma PlaceAfter(s: Sched, queues: seq<seq<TaskId>>, turns: seq<bool>, k: nat, r: Sched, d: nat)
    requires AllAdvance(queues, turns) && queues[0] == s.ready && queues[|turns|] == r.ready
    requires d == Count(turns, |turns|) <= k < |s.ready|
    ensures k - d < |r.ready| && r.ready[k - d] == s.ready[k]
  {
    PlaceMovesUp(queues, turns, k, |turns|);
  }

  lemma ReadyNotCurrent(s: Sched, i: nat)
    requires Inv(s) && i < |s.ready|
    ensures s.current != Some(s.ready[i])
  {
    assert s.ready[i] in s.ready;
  }

  /**
   A task at position k of the ready queue is at position k - d after d dispatches, whatever
   else happens in between, and the dispatch after k of them gives it the CPU: not before,
   not later.
   */
  lemma BoundedWaiting(s: Sched, es: seq<Event>, k: nat, r: Sched, d: nat)
    requires Inv(s) && Legal(s, es) && r == Run(s, es) && d == DispatchCount(s, es) <= k < |s.ready|
    ensures k - d < |r.ready| && r.ready[k - d] == s.ready[k] && r.current != Some(s.ready[k])
    ensures forall e :: d == k && Dispatches(r, e) ==> Step(r, e).current == Some(s.ready[k])
  {
    RunKeepsInv(s, es);
    WaitingPosition(s, es, k, r, d);
    ReadyNotCurrent(r, k - d);
    forall e | d == k && Dispatches(r, e) ensures Step(r, e).current == Some(s.ready[k]) {
      QueueOnlyAdvances(r, e);
    }
  }

  // ----- generational identity -----

  /** `id` has been issued by this table at some time. */
  ghost predicate Issued(s: Sched, id: TaskId) {
    id.index < |s.generations| && 1 <= id.generation <= s.generations[id.index]
  }

  /** The next id is new exactly when its slot index fits in 32 bits. */
  lemma NextIdIsNew(s: Sched)
    requires SlotsMatch(s)
    ensures !Issued(s, NextId(s)) <==> HasRoom(s)
  {
  }

  lemma WakeAllKeepsTable(s: Sched, due: seq<TaskId>)
    ensures WakeAll(s, due).generations == s.generations
    ensures forall x :: Live(WakeAll(s, due), x) ==> Live(s, x)
    decreases |due|
  {
    if due != [] {
      var w := WakeAll(s, due[..|due| - 1]);
      WakeAllKeepsTable(s, due[..|due| - 1]);
      if Live(w, due[|due| - 1]) { WithStateLookup(w, due[|due| - 1], Ready); }
    }
  }

  /** Only creation issues an id or brings one to life, and it does so for a new one. */
  lemma StepIssues(s: Sched, e: Event)
    requires Inv(s) && Enabled(s, e)
    ensures forall x :: Issued(s, x) ==> Issued(Step(s, e), x)
    ensures forall x :: Live(Step(s, e), x) ==> Live(s, x) || (e.ECreate? && x == NextId(s))
    ensures e.ECreate? ==> !Issued(s, NextId(s)) && Issued(Step(s, e), NextId(s)) && Live(Step(s, e), NextId(s))
  {
    match e
    case ECreate(priority, kind) => CreateLookup(s, priority, kind);
    case EAttach(id) =>
      if Live(s, id) { PutLookup(s, Lookup(s.tasks, id).value.(execution := Some(id))); }
    case EDestroy(id) => WithoutLookup(s, id);
    case EMakeReady(id) => if Live(s, id) { WithStateLookup(s, id, Ready); }
    case EScheduleNext => ScheduleNextTable(s);
    case ETerminateTo(id) =>
      if CanTerminateTo(s, id) {
        assert id in s.ready;
        WithoutLookup(s, s.current.value);
        WithStateLookup(Without(s, s.current.value), id, Running);
      }
    case EBlock(queued) => if s.current.Some? { WithStateLookup(s, s.current.value, Blocked); }
    case EWakeOne(waiters) =>
      var n := Stale(s, waiters);
      if n < |waiters| { WithStateLookup(s, waiters[n], Ready); }
    case EExpire(due) => WakeAllKeepsTable(s, due);
    case EExit => if s.current.Some? { WithoutLookup(s, s.current.value); }
  }

  lemma ScheduleNextTable(s: Sched)
    requires Inv(s)
    ensures ScheduleNext(s).generations == s.generations
    ensures forall x :: Live(ScheduleNext(s), x) <==> Live(s, x)
  {
    if s.ready != [] {
      assert s.ready[0] in s.ready;
      if s.current.Some? {
        WithStateLookup(s, s.current.value, Ready);
        WithStateLookup(WithState(s, s.current.value, Ready), s.ready[0], Running);
      } else {
        WithStateLookup(s, s.ready[0], Running);
      }
    }
  }

  /** The ids handed out by the creations of a run, in order. */
  ghost function IssuedIds(s: Sched, es: seq<Event>): seq<TaskId>
    decreases |es|
  {
    if es == [] then []
    else IssuedIds(s, es[..|es| - 1]) + if es[|es| - 1].ECreate? then [NextId(Run(s, es[..|es| - 1]))] else []
  }

  /** No id is issued twice in a run, nor one that was issued before the run. */
  lemma {:induction false} IdsAreUnique(s: Sched, es: seq<Event>)
    requires Inv(s) && Legal(s, es)
    ensures Distinct(IssuedIds(s, es))
    ensures forall id | id in IssuedIds(s, es) :: !Issued(s, id) && Issued(Run(s, es), id)
    ensures forall id | Issued(s, id) :: Issued(Run(s, es), id)
    decreases |es|
  {
    if es != [] {
      var es', e := es[..|es| - 1], es[|es| - 1];
      IdsAreUnique(s, es');
      RunKeepsInv(s, es');
      StepIssues(Run(s, es'), e);
    }
  }

  /** An id that has died finds nothing ever again. */
  lemma {:induction false} DeadIdsStayDead(s: Sched, es: seq<Event>, id: TaskId)
    requires Inv(s) && Legal(s, es)
    requires Issued(s, id) && !Live(s, id)
    ensures Lookup(Run(s, es).tasks, id) == None
    decreases |es|
  {
    if es != [] {
      var es', e := es[..|es| - 1], es[|es| - 1];
      DeadIdsStayDead(s, es', id);
      IdsAreUnique(s, es');
      RunKeepsInv(s, es');
      StepIssues(Run(s, es'), e);
      assert !Live(Step(Run(s, es'), e), id);
    }
  }
}
