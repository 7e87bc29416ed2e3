/** The scheduler object, each method proved against its form in SchedulerState. */
module Schedulers {
  import opened Prelude
  import opened Tasks
  import opened Queues
  import opened SchedulerState

  datatype DispatchDecision = DispatchDecision(previous: Option<TaskId>, next: Option<TaskId>)

  class Scheduler {
    var tasks: seq<Option<Tcb>>
    var generations: seq<nat>
    const ready: RunQueue
    var current: Option<TaskId>

    function View(): Sched
      reads this, ready
    {
      Sched(tasks, generations, ready.queue, current)
    }

    ghost predicate Valid()
      reads this, ready
    {
      Inv(View())
    }

    constructor ()
      ensures fresh(ready) && View() == Empty && Valid()
    {
      tasks, generations, current := [], [], None;
      ready := new RunQueue();
    }

    method CreateTask(priority: nat, kind: TaskKind) returns (id: TaskId)
      requires Valid()
      modifies this
      ensures View() == SchedulerState.Create(old(View()), priority, kind) && id == NextId(old(View()))
      ensures HasRoom(old(View())) ==> Valid()
    {
      ghost var before := View();
      if HasRoom(before) {
        StepKeepsInv(before, ECreate(priority, kind));
      }
      var index := 0;
      while index < |tasks| && !Reusable(View(), index)
        invariant 0 <= index <= FirstReusable(before, 0)
      {
        index := index + 1;
      }
      assert index == FirstReusable(before, 0);
      if index < |tasks| {
        var generation := generations[index] + 1;
        generations := generations[index := generation];
        id := TaskId(index % U32, generation);
        tasks := tasks[index := Some(Tcb(id, kind, Created, priority, None))];
        return;
      }
      id := TaskId(index % U32, 1);
      tasks := tasks + [Some(Tcb(id, kind, Created, priority, None))];
      generations := generations + [1];
    }

    /** Changes the state of a live task when the transition table allows it. */
    method Transition(id: TaskId, to: TaskState) returns (changed: bool)
      modifies this`tasks
      ensures changed == (Live(old(View()), id) && CanTransition(State(old(View()), id).value, to))
      ensures View() == if changed then WithState(old(View()), id, to) else old(View())
    {
      var task := Lookup(tasks, id);
      if task.None? || !CanTransition(task.value.state, to) {
        return false;
      }
      tasks := tasks[id.index := Some(task.value.(state := to))];
      return true;
    }

    method AttachExecution(id: TaskId) returns (r: Result<TaskId, SchedulerError>)
      requires Valid()
      modifies this`tasks
      ensures Valid() && View() == Attach(old(View()), id)
      ensures r == var t := Lookup(old(tasks), id);
                   if t.None? then Err(TaskNotFound)
                   else if t.value.execution.Some? then Err(ExecutionAlreadyAttached) else Ok(id)
    {
      StepKeepsInv(View(), EAttach(id));
      var task := Lookup(tasks, id);
      if task.None? {
        return Err(TaskNotFound);
      }
      if task.value.execution.Some? {
        return Err(ExecutionAlreadyAttached);
      }
      tasks := tasks[id.index := Some(task.value.(execution := Some(id)))];
      return Ok(id);
    }

    method DestroyCreated(id: TaskId) returns (r: Result<TaskId, SchedulerError>)
      requires Valid()
      modifies this`tasks
      ensures Valid() && View() == Destroy(old(View()), id)
      ensures r == if CanDestroy(old(View()), id) then Ok(Lookup(old(tasks), id).value.execution.value)
                   else if id.index < |old(tasks)| && old(tasks)[id.index].Some? then Err(TaskNotCreated) else Err(TaskNotFound)
    {
      StepKeepsInv(View(), EDestroy(id));
      if id.index >= |tasks| || tasks[id.index].None? {
        return Err(TaskNotFound);
      }
      var task := tasks[id.index].value;
      if task.id != id || task.state != Created || task.execution.None? {
        return Err(TaskNotCreated);
      }
      tasks := tasks[id.index := None];
      return Ok(task.execution.value);
    }

    method MakeReady(id: TaskId) returns (ok: bool)
      requires Valid()
      modifies this`tasks, ready
      ensures View() == SchedulerState.MakeReady(old(View()), id)
      ensures ok == CanMakeReady(old(View()), id)
      ensures Valid() <==> State(old(View()), id) != Some(Running)
    {
      MakeReadyNeedsNotRunning(View(), id);
      if id in ready.queue {
        return false;
      }
      var changed := Transition(id, Ready);
      if !changed {
        return false;
      }
      ok := ready.Push(id);
    }

    /** Every check before the first mutation decides; the later ones cannot fail. */
    method TerminateCurrentTo(successor: TaskId) returns (r: Result<TaskId, SchedulerError>)
      requires Valid()
      modifies this`tasks, this`current, ready
      ensures Valid() && View() == TerminateTo(old(View()), successor)
      ensures r == if old(current).None? then Err(TaskNotFound)
                   else if old(current) == Some(successor) then Err(CurrentTaskMismatch)
                   else if CanTerminateTo(old(View()), successor) then Ok(successor) else Err(SuccessorNotReady)
    {
      ghost var before := View();
      TerminateKeepsInv(before, successor);
      OwnerAndHead(before);
      if current.None? {
        return Err(TaskNotFound);
      }
      var owner := current.value;
      if owner == successor {
        return Err(CurrentTaskMismatch);
      }
      if ready.Peek() != Some(successor) || State(View(), successor) != Some(Ready) {
        return Err(SuccessorNotReady);
      }
      var exited := Transition(owner, Exited);
      if !exited {
        assert false;
        return Err(TaskNotFound);
      }
      tasks := tasks[owner.index := None];
      assert View() == Without(before, owner);
      var queued := ready.Pop();
      if queued != Some(successor) {
        assert false;
        return Err(SuccessorNotReady);
      }
      var started := Transition(successor, Running);
      if !started {
        assert false;
        return Err(SuccessorNotReady);
      }
      current := Some(successor);
      return Ok(successor);
    }

    method ScheduleNext() returns (decision: DispatchDecision)
      requires Valid()
      modifies this`tasks, this`current, ready
      ensures Valid() && View() == SchedulerState.ScheduleNext(old(View()))
      ensures decision == DispatchDecision(old(current), if old(ready.queue) == [] then None else Some(old(ready.queue)[0]))
    {
      ghost var before := View();
      ScheduleNextKeepsInv(before);
      OwnerAndHead(before);
      var previous := current;
      if previous.Some? {
        var demoted := Transition(previous.value, Ready);
        var requeued := ready.Push(previous.value);
        assert View() == WithState(before, previous.value, Ready).(ready := before.ready + [previous.value]);
        if |ready.queue| == 1 && ready.Peek() == previous {
          var _ := ready.Pop();
          var _ := Transition(previous.value, Running);
          assert tasks == before.tasks;
          return DispatchDecision(previous, None);
        }
      }
      assert before.ready != [] && previous.Some? ==>
          ready.queue[1..] == before.ready[1..] + [previous.value] && ready.queue[0] == before.ready[0];
      var next := ready.Pop();
      if next.Some? {
        var started := Transition(next.value, Running);
        current := if started then next else None;
      } else {
        current := None;
      }
      return DispatchDecision(previous, current);
    }

    method BlockCurrentOn(waiters: WaitQueue) returns (r: Result<TaskId, SchedulerError>)
      requires Valid()
      modifies this`tasks, this`current, waiters
      ensures Valid()
      ensures View() == Block(old(View()), old(current).Some? && old(current).value in old(waiters.queue))
      ensures r == if old(current).None? then Err(TaskNotFound)
                   else if old(current).value in old(waiters.queue) then Err(WaitQueueAlreadyContainsTask)
                   else Ok(old(current).value)
      ensures waiters.queue == old(waiters.queue) + if r.Ok? then [r.value] else []
    {
      StepKeepsInv(View(), EBlock(current.Some? && current.value in waiters.queue));
      if current.None? {
        return Err(TaskNotFound);
      }
      var id := current.value;
      if id in waiters.queue {
        return Err(WaitQueueAlreadyContainsTask);
      }
      var blocked := Transition(id, Blocked);
      if !blocked {
        assert false;
        return Err(TaskNotFound);
      }
      var queued := waiters.Enqueue(id);
      if !queued {
        assert false;
        return Err(WaitQueueAlreadyContainsTask);
      }
      current := None;
      return Ok(id);
    }

    /** Readies one task if it is Blocked; the push onto the ready queue cannot fail. */
    method WakeBlocked(id: TaskId) returns (woken: bool)
      requires Valid()
      modifies this`tasks, ready
      ensures Valid() && View() == Wake(old(View()), id)
      ensures woken == (State(old(View()), id) == Some(Blocked))
    {
      WakeKeepsInv(View(), id);
      if State(View(), id) != Some(Blocked) {
        return false;
      }
      var changed := Transition(id, Ready);
      var pushed := ready.Push(id);
      if !changed || !pushed {
        assert false;
      }
      return true;
    }

    /** Drops waiters that are not Blocked; the push cannot fail, so nothing is put back. */
    method WakeOne(waiters: WaitQueue) returns (woken: Option<TaskId>)
      requires Valid()
      modifies this`tasks, ready, waiters
      ensures Valid() && View() == SchedulerState.WakeOne(old(View()), old(waiters.queue))
      ensures var q := old(waiters.queue);
              var n := Stale(old(View()), q);
              && woken == (if n < |q| then Some(q[n]) else None)
              && waiters.queue == if n < |q| then q[n + 1..] else []
    {
      StepKeepsInv(View(), EWakeOne(waiters.queue));
      ghost var q := waiters.queue;
      ghost var dropped := 0;
      while waiters.queue != []
        invariant View() == old(View()) && Valid()
        invariant 0 <= dropped <= Stale(old(View()), q) && waiters.queue == q[dropped..]
        decreases |waiters.queue|
      {
        var id := waiters.Dequeue();
        var woke := WakeBlocked(id.value);
        if woke {
          assert dropped == Stale(old(View()), q);
          return id;
        }
        dropped := dropped + 1;
      }
      return None;
    }

    method SleepCurrentUntil(deadline: nat, sleepers: SleepQueue) returns (r: Result<TaskId, SchedulerError>)
      requires Valid() && sleepers.Valid()
      modifies this`tasks, this`current, sleepers
      ensures Valid() && sleepers.Valid()
      ensures View() == Block(old(View()), old(current).Some? && Sleeping(old(sleepers.entries), old(current).value))
      ensures r == if old(current).None? then Err(TaskNotFound)
                   else if Sleeping(old(sleepers.entries), old(current).value) then Err(SleepQueueAlreadyContainsTask)
                   else Ok(old(current).value)
      ensures sleepers.entries == if r.Ok? then Inserted(old(sleepers.entries), SleepEntry(deadline, r.value)) else old(sleepers.entries)
    {
      StepKeepsInv(View(), EBlock(current.Some? && Sleeping(sleepers.entries, current.value)));
      r := PutToSleep(deadline, sleepers);
    }

    method PutToSleep(deadline: nat, sleepers: SleepQueue) returns (r: Result<TaskId, SchedulerError>)
      requires Valid() && sleepers.Valid()
      modifies this`tasks, this`current, sleepers
      ensures sleepers.Valid()
      ensures View() == Block(old(View()), old(current).Some? && Sleeping(old(sleepers.entries), old(current).value))
      ensures r == if old(current).None? then Err(TaskNotFound)
                   else if Sleeping(old(sleepers.entries), old(current).value) then Err(SleepQueueAlreadyContainsTask)
                   else Ok(old(current).value)
      ensures sleepers.entries == if r.Ok? then Inserted(old(sleepers.entries), SleepEntry(deadline, r.value)) else old(sleepers.entries)
    {
      OwnerAndHead(View());
      if current.None? {
        return Err(TaskNotFound);
      }
      var id := current.value;
      if Sleeping(sleepers.entries, id) {
        return Err(SleepQueueAlreadyContainsTask);
      }
      var blocked := Transition(id, Blocked);
      if !blocked {
        assert false;
        return Err(TaskNotFound);
      }
      var inserted := sleepers.Insert(SleepEntry(deadline, id));
      if !inserted {
        assert false;
        return Err(SleepQueueAlreadyContainsTask);
      }
      current := None;
      return Ok(id);
    }

    method WakeDue(due: seq<TaskId>) returns (woken: seq<TaskId>)
      requires Valid()
      modifies this`tasks, ready
      ensures Valid() && View() == WakeAll(old(View()), due)
      ensures ready.queue == old(ready.queue) + woken
    {
      ghost var before := View();
      woken := [];
      for k := 0 to |due|
        invariant Valid() && View() == WakeAll(before, due[..k])
        invariant ready.queue == before.ready + woken
      {
        assert due[..k + 1][..k] == due[..k];
        var ok := WakeBlocked(due[k]);
        if ok {
          woken := woken + [due[k]];
        }
      }
      assert due[..|due|] == due;
    }

    /** Returns the expired tasks that were Blocked, in deadline order. */
    method ExpireSleepers(now: nat, sleepers: SleepQueue) returns (woken: seq<TaskId>)
      requires Valid() && sleepers.Valid()
      modifies this`tasks, ready, sleepers
      ensures Valid() && sleepers.Valid()
      ensures var n := DueCount(old(sleepers.entries), now);
              && sleepers.entries == old(sleepers.entries)[n..]
              && View() == WakeAll(old(View()), TasksOf(old(sleepers.entries)[..n]))
      ensures ready.queue == old(ready.queue) + woken
    {
      var expired := sleepers.ExpireUntil(now);
      woken := WakeDue(expired);
    }

    method ExitCurrent() returns (exited: bool)
      requires Valid()
      modifies this`tasks, this`current
      ensures Valid() && View() == SchedulerState.ExitCurrent(old(View()))
      ensures exited == old(current).Some?
    {
      StepKeepsInv(View(), EExit);
      if current.None? {
        return false;
      }
      var id := current.value;
      var changed := Transition(id, Exited);
      if !changed {
        assert false;
        return false;
      }
      tasks := tasks[id.index := None];
      current := None;
      assert tasks == old(tasks)[id.index := None];
      return true;
    }
  }
}
