/** The kernel task manager as a value: tasks, their stacks and their deadlines (kernel/src/arch/x86_64/kernel_task.rs). */
module KernelState {
  import opened Prelude
  import opened Tasks
  import opened Queues
  import opened Bindings
  import S = SchedulerState

  datatype Manager = Manager(sched: S.Sched, execs: map<TaskId, ExecBinding>, sleepers: seq<SleepEntry>)

  const Boot: Manager := Manager(S.Empty, map[], [])

  /** A live task has been made ready once, has its execution attached and is a kernel task. */
  predicate TaskOk(s: S.Sched, id: TaskId) {
    var t := S.Lookup(s.tasks, id);
    t.Some? ==> t.value.state != Created && t.value.execution == Some(id) && t.value.kind == Kernel
  }

  /** Blocked tasks are exactly the sleepers, live tasks exactly those with an execution binding. */
  ghost predicate Inv(m: Manager) {
    && S.Inv(m.sched)
    && Sorted(m.sleepers) && OncePerTask(m.sleepers)
    && (forall id :: S.State(m.sched, id) == Some(Blocked) <==> Sleeping(m.sleepers, id))
    && (forall id :: S.Live(m.sched, id) <==> id in m.execs)
    && (forall id | id in m.execs :: ExecOk(m.execs[id]))
    && (forall id :: TaskOk(m.sched, id))
  }

  /** Live tasks are split into the CPU owner, the ready queue and the sleepers. */
  lemma Partition(m: Manager, id: TaskId)
    requires Inv(m)
    ensures id in m.execs <==> m.sched.current == Some(id) || id in m.sched.ready || Sleeping(m.sleepers, id)
    ensures !(m.sched.current == Some(id) && id in m.sched.ready)
    ensures !(m.sched.current == Some(id) && Sleeping(m.sleepers, id))
    ensures !(id in m.sched.ready && Sleeping(m.sleepers, id))
  {
    assert TaskOk(m.sched, id);
    assert S.State(m.sched, id) != Some(Exited);
  }

  // ----- operations -----

  function Spawn(m: Manager, priority: nat, a: Option<StackAllocation>): Manager {
    var id, made := S.NextId(m.sched), S.Prepared(m.sched, priority, Kernel);
    match NewExec(a)
    case None => m.(sched := S.Destroy(made, id))
    case Some(b) => m.(sched := S.MakeReady(made, id), execs := m.execs[id := b])
  }

  function Dispatch(m: Manager): Manager {
    m.(sched := S.ScheduleNext(m.sched))
  }

  function SleepUntil(m: Manager, deadline: nat): Manager {
    match m.sched.current
    case None => m
    case Some(id) =>
      if Sleeping(m.sleepers, id) then m
      else m.(sched := S.Block(m.sched, false), sleepers := Inserted(m.sleepers, SleepEntry(deadline, id)))
  }

  function Expire(m: Manager, now: nat): Manager {
    var n := DueCount(m.sleepers, now);
    m.(sched := S.WakeAll(m.sched, TasksOf(m.sleepers[..n])), sleepers := m.sleepers[n..])
  }

  function Exit(m: Manager): Manager {
    match m.sched.current
    case None => m
    case Some(id) => m.(sched := S.ExitCurrent(m.sched), execs := m.execs - {id})
  }

  datatype Event =
    | ESpawn(priority: nat, stack: Option<StackAllocation>)
    | EDispatch
    | ESleep(deadline: nat)
    | EExpire(now: nat)
    | EExit

  predicate Enabled(m: Manager, e: Event) {
    e.ESpawn? ==> S.HasRoom(m.sched)
  }

  function Step(m: Manager, e: Event): Manager {
    match e
    case ESpawn(priority, stack) => Spawn(m, priority, stack)
    case EDispatch => Dispatch(m)
    case ESleep(deadline) => SleepUntil(m, deadline)
    case EExpire(now) => Expire(m, now)
    case EExit => Exit(m)
  }

  function Run(m: Manager, es: seq<Event>): Manager
    decreases |es|
  {
    if es == [] then m else Step(Run(m, es[..|es| - 1]), es[|es| - 1])
  }

  ghost predicate Legal(m: Manager, es: seq<Event>)
    decreases |es|
  {
    es == [] || (Legal(m, es[..|es| - 1]) && Enabled(Run(m, es[..|es| - 1]), es[|es| - 1]))
  }

  // ----- what every operation keeps -----

  /** A spawn that fails leaves live tasks, stacks, queue and sleepers as they were. */
  lemma SpawnFailureIsInvisible(m: Manager, priority: nat, a: Option<StackAllocation>)
    requires Inv(m) && S.HasRoom(m.sched) && NewExec(a).None?
    ensures var r := Spawn(m, priority, a);
            && Inv(r) && r.execs == m.execs && r.sleepers == m.sleepers
            && r.sched.ready == m.sched.ready && r.sched.current == m.sched.current
            && forall x :: S.Lookup(r.sched.tasks, x) == S.Lookup(m.sched.tasks, x)
  {
    S.AbandonedTask(m.sched, priority, Kernel);
    var r := Spawn(m, priority, a);
    assert forall x :: S.State(r.sched, x) == S.State(m.sched, x);
    assert forall x :: TaskOk(m.sched, x) ==> TaskOk(r.sched, x);
  }

  lemma SpawnKeepsInv(m: Manager, priority: nat, a: Option<StackAllocation>)
    requires Inv(m) && S.HasRoom(m.sched)
    ensures Inv(Spawn(m, priority, a))
  {
    if NewExec(a).None? {
      SpawnFailureIsInvisible(m, priority, a);
    } else {
      S.SpawnedTask(m.sched, priority, Kernel);
      var r := Spawn(m, priority, a);
      assert forall x :: x != S.NextId(m.sched) ==> S.State(r.sched, x) == S.State(m.sched, x);
      assert S.State(m.sched, S.NextId(m.sched)).None?;
      assert forall x :: TaskOk(m.sched, x) ==> TaskOk(r.sched, x);
    }
  }

  lemma DispatchKeepsInv(m: Manager)
    requires Inv(m)
    ensures Inv(Dispatch(m))
  {
    S.ScheduleNextKeepsInv(m.sched);
    if m.sched.ready != [] {
      S.DispatchLookup(m.sched);
      S.OwnerAndHead(m.sched);
      S.ScheduleNextTable(m.sched);
      assert forall x :: TaskOk(m.sched, x) ==> TaskOk(Dispatch(m).sched, x);
    }
  }

  lemma BlockedTasksOk(m: Manager, id: TaskId, deadline: nat)
    requires Inv(m) && m.sched.current == Some(id) && !Sleeping(m.sleepers, id)
    ensures forall x :: TaskOk(SleepUntil(m, deadline).sched, x)
  {
    S.WithStateLookup(m.sched, id, Blocked);
    forall x ensures TaskOk(SleepUntil(m, deadline).sched, x) {
      assert TaskOk(m.sched, x);
    }
  }

  lemma SleepKeepsInv(m: Manager, deadline: nat)
    requires Inv(m)
    ensures Inv(SleepUntil(m, deadline))
  {
    if m.sched.current.Some? {
      var id := m.sched.current.value;
      S.OwnerAndHead(m.sched);
      var e := SleepEntry(deadline, id);
      InsertKeepsOrder(m.sleepers, e);
      InsertedSleeps(m.sleepers, e);
      S.StepKeepsInv(m.sched, S.EBlock(false));
      S.WithStateLookup(m.sched, id, Blocked);
      BlockedTasksOk(m, id, deadline);
    }
  }

  lemma InsertedSleeps(q: seq<SleepEntry>, e: SleepEntry)
    requires forall x :: x in Inserted(q, e) <==> x in q || x == e
    ensures forall id :: Sleeping(Inserted(q, e), id) <==> Sleeping(q, id) || id == e.task
  {
    var r := Inserted(q, e);
    forall id ensures Sleeping(r, id) <==> Sleeping(q, id) || id == e.task {
      if Sleeping(r, id) {
        var i :| 0 <= i < |r| && r[i].task == id;
        assert r[i] in r;
      }
      if Sleeping(q, id) {
        var i :| 0 <= i < |q| && q[i].task == id;
        assert q[i] in r;
      }
      assert e in r;
    }
  }

  function Woken(t: Option<Tcb>): Option<Tcb> {
    if t.None? then None else Some(t.value.(state := Ready))
  }

  /** Waking distinct blocked tasks appends them to the ready queue in the order given, and touches nobody else. */
  lemma {:induction false} WakeAllInOrder(s: S.Sched, due: seq<TaskId>)
    requires Distinct(due) && forall id | id in due :: S.State(s, id) == Some(Blocked)
    ensures var r := S.WakeAll(s, due);
            && r.ready == s.ready + due && r.current == s.current
            && forall x :: S.Lookup(r.tasks, x) ==
                 if x in due then Woken(S.Lookup(s.tasks, x)) else S.Lookup(s.tasks, x)
    decreases |due|
  {
    if due != [] {
      var n := |due| - 1;
      assert due == due[..n] + [due[n]];
      assert Distinct(due[..n]) && due[n] !in due[..n] && due[n] in due;
      assert forall id | id in due[..n] :: id in due;
      WakeAllInOrder(s, due[..n]);
      var r := S.WakeAll(s, due[..n]);
      assert S.Lookup(r.tasks, due[n]) == S.Lookup(s.tasks, due[n]);
      S.WithStateLookup(r, due[n], Ready);
    }
  }

  /** Expiry wakes exactly the sleepers that are due, appended in (deadline, task) order. */
  lemma ExpireWakesDue(m: Manager, now: nat)
    requires Inv(m)
    ensures var r := Expire(m, now); var n := DueCount(m.sleepers, now);
            && r.sched.ready == m.sched.ready + TasksOf(m.sleepers[..n]) && r.sched.current == m.sched.current
            && r.execs == m.execs
            && (forall i | 0 <= i < |m.sleepers| :: i < n <==> m.sleepers[i].deadline <= now)
            && (forall x :: S.Lookup(r.sched.tasks, x) ==
                 if Sleeping(m.sleepers[..n], x) then Woken(S.Lookup(m.sched.tasks, x))
                 else S.Lookup(m.sched.tasks, x))
  {
    var n := DueCount(m.sleepers, now);
    var due := TasksOf(m.sleepers[..n]);
    DueIsPrefix(m.sleepers, now);
    forall i, j | 0 <= i < j < n ensures due[i] != due[j] {
      assert m.sleepers[i].task != m.sleepers[j].task;
    }
    forall id | id in due ensures S.State(m.sched, id) == Some(Blocked) {
      var i :| 0 <= i < n && due[i] == id;
      assert m.sleepers[i].task == id && Sleeping(m.sleepers, id);
    }
    WakeAllInOrder(m.sched, due);
    forall x ensures x in due <==> Sleeping(m.sleepers[..n], x) {
      if x in due {
        var i :| 0 <= i < n && due[i] == x;
        assert m.sleepers[..n][i].task == x;
      }
      if Sleeping(m.sleepers[..n], x) {
        var i :| 0 <= i < n && m.sleepers[..n][i].task == x;
        assert due[i] == x;
      }
    }
  }

  lemma SleepersSplit(q: seq<SleepEntry>, n: nat)
    requires Sorted(q) && OncePerTask(q) && n <= |q|
    ensures Sorted(q[n..]) && OncePerTask(q[n..])
    ensures forall id :: Sleeping(q[n..], id) <==> Sleeping(q, id) && !Sleeping(q[..n], id)
  {
    forall id ensures Sleeping(q[n..], id) <==> Sleeping(q, id) && !Sleeping(q[..n], id) {
      if Sleeping(q[n..], id) {
        var i :| 0 <= i < |q| - n && q[n..][i].task == id;
        assert q[n + i].task == id;
      }
      if Sleeping(q, id) {
        var i :| 0 <= i < |q| && q[i].task == id;
        if i < n {
          assert q[..n][i].task == id;
        } else {
          assert q[n..][i - n].task == id;
        }
      }
    }
  }

  lemma ExpireKeepsInv(m: Manager, now: nat)
    requires Inv(m)
    ensures Inv(Expire(m, now))
  {
    var n := DueCount(m.sleepers, now);
    ExpireWakesDue(m, now);
    SleepersSplit(m.sleepers, n);
    S.WakeAllKeepsInv(m.sched, TasksOf(m.sleepers[..n]));
    var r := Expire(m, now);
    assert forall x :: TaskOk(m.sched, x) ==> TaskOk(r.sched, x);
  }

  lemma ExitKeepsInv(m: Manager)
    requires Inv(m)
    ensures Inv(Exit(m))
  {
    if m.sched.current.Some? {
      var id := m.sched.current.value;
      S.OwnerAndHead(m.sched);
      S.StepKeepsInv(m.sched, S.EExit);
      S.WithoutLookup(m.sched, id);
      assert forall x :: TaskOk(m.sched, x) ==> TaskOk(Exit(m).sched, x);
    }
  }

  /** A spawned task has the stack it was given, starts where that says and waits at the end of the queue. */
  lemma SpawnedTask(m: Manager, priority: nat, a: StackAllocation)
    requires Inv(m) && S.HasRoom(m.sched) && 8 <= a.top
    ensures var r, id := Spawn(m, priority, Some(a)), S.NextId(m.sched);
            && id !in m.execs && r.execs == m.execs[id := r.execs[id]] && r.execs[id].stackTop == a.top
            && r.execs[id].activation == a.activation && r.execs[id].context.rip == a.trampoline && r.execs[id].interrupted.None?
            && r.sched.ready == m.sched.ready + [id] && r.sched.current == m.sched.current && r.sleepers == m.sleepers
            && S.Lookup(r.sched.tasks, id) == Some(Tcb(id, Kernel, Ready, priority, Some(id)))
            && forall x | x != id :: S.Lookup(r.sched.tasks, x) == S.Lookup(m.sched.tasks, x)
  {
    FreshExec(a);
    S.SpawnedTask(m.sched, priority, Kernel);
  }

  /** A task that goes to sleep leaves the CPU, and is in the queue under its deadline; nobody else moves. */
  lemma SleepEffect(m: Manager, deadline: nat)
    requires Inv(m) && m.sched.current.Some?
    ensures var r, id := SleepUntil(m, deadline), m.sched.current.value;
            && r.sched.current.None? && S.State(r.sched, id) == Some(Blocked) && r.sched.ready == m.sched.ready && r.execs == m.execs
            && (forall e :: e in r.sleepers <==> e in m.sleepers || e == SleepEntry(deadline, id))
            && forall x | x != id :: S.Lookup(r.sched.tasks, x) == S.Lookup(m.sched.tasks, x)
  {
    var id := m.sched.current.value;
    S.OwnerAndHead(m.sched);
    InsertKeepsOrder(m.sleepers, SleepEntry(deadline, id));
    S.WithStateLookup(m.sched, id, Blocked);
  }

  /** A task that exits is gone from every table, and nobody has the CPU. */
  lemma ExitEffect(m: Manager)
    requires Inv(m) && m.sched.current.Some?
    ensures var r, id := Exit(m), m.sched.current.value;
            && r.sched.current.None? && r.sched.ready == m.sched.ready && r.sleepers == m.sleepers && r.execs == m.execs - {id}
            && forall x :: S.Lookup(r.sched.tasks, x) == if x == id then None else S.Lookup(m.sched.tasks, x)
  {
    S.WithoutLookup(m.sched, m.sched.current.value);
  }

  /** With nobody on the CPU, going to sleep and exiting do nothing. */
  lemma IdleEffect(m: Manager, deadline: nat)
    requires m.sched.current.None?
    ensures SleepUntil(m, deadline) == m && Exit(m) == m
  {
  }

  lemma StepKeepsInv(m: Manager, e: Event)
    requires Inv(m) && Enabled(m, e)
    ensures Inv(Step(m, e))
  {
    match e
    case ESpawn(priority, stack) => SpawnKeepsInv(m, priority, stack);
    case EDispatch => DispatchKeepsInv(m);
    case ESleep(deadline) => SleepKeepsInv(m, deadline);
    case EExpire(now) => ExpireKeepsInv(m, now);
    case EExit => ExitKeepsInv(m);
  }

  /** In every reachable state live tasks are partitioned and bound one to one. */
  lemma {:induction false} RunKeepsInv(es: seq<Event>)
    requires Legal(Boot, es)
    ensures Inv(Run(Boot, es))
    decreases |es|
  {
    if es != [] {
      RunKeepsInv(es[..|es| - 1]);
      StepKeepsInv(Run(Boot, es[..|es| - 1]), es[|es| - 1]);
    }
  }

  /** Two managers that hold the same pairs hold the same queue, in whatever order tasks fell asleep. */
  lemma SleepersByContents(a: Manager, b: Manager)
    requires Inv(a) && Inv(b) && SamePairs(a.sleepers, b.sleepers)
    ensures a.sleepers == b.sleepers
  {
    SortedDeterminedByPairs(a.sleepers, b.sleepers);
  }
}
