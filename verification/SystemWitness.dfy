/** Runs from boot that show what the protocol loses: an exit code, and the agreement of its owners. */
module SystemWitnesses {
  import opened Prelude
  import opened Tasks
  import opened Layout
  import opened Bindings
  import opened Snapshots
  import opened SystemState
  import opened SystemRuns
  import S = SchedulerState
  import P = Processes

  const REQUEST := SpawnRequest(
    ProcessImage(1, LoadPlan(USER_IMAGE_BASE, []), StackPlan([], STACK_TOP)),
    Launch(1, 0x1000, ReturnFrame(USER_IMAGE_BASE, USER_CODE_SELECTOR, 0x202, STACK_TOP, USER_DATA_SELECTOR)),
    0, Some(StackAllocation(0x8000, 0x9000, 0xa000)))

  const FIRST := P.ProcessId(0, 1)
  const SECOND := P.ProcessId(1, 1)

  lemma RunOneMore(s: Sys, es: seq<Event>, e: Event)
    requires Settled(s) && Legal(s, es) && Enabled(Run(s, es), e)
    ensures Legal(s, es + [e]) && Run(s, es + [e]) == Step(Run(s, es), e) && Settled(Run(s, es + [e]))
  {
    assert (es + [e])[..|es|] == es;
    RunSettled(s, es + [e]);
  }

  lemma RegisterFresh(procs: P.Procs, i: nat, image: ProcessImage, t: TaskId)
    requires P.Inv(procs) && procs.hint == i && i + 1 < P.MAX_PROCESSES && procs.slots[i] == P.Vacant(0)
    ensures var p, r := P.ProcessId(i, 1), P.SpawnReady(procs, image, t, t, image.addressSpace);
            && P.Registration(procs) == Ok(p) && r.hint == i + 1
            && (forall j | i < j < P.MAX_PROCESSES :: r.slots[j] == procs.slots[j])
            && P.StateOf(r, p) == Some(P.Ready) && P.BindingOf(r, p) == Some(P.ProcessBinding(p, t, t, image.addressSpace))
            && forall q | q != p :: P.Find(r, q) == P.Find(procs, q)
  {
    P.FirstVacant(procs, i);
    SpawnedProcess(procs, image, t);
  }

  /** A process registered in an empty slot `i` of a fresh table. */
  lemma SpawnFresh(s: Sys, i: nat)
    requires Settled(s) && |s.sched.tasks| <= i && i + 1 < P.MAX_PROCESSES
    requires s.procs.hint == i && s.procs.slots[i] == P.Vacant(0)
    ensures var r := Step(s, ESpawn(REQUEST)); var p, t := P.ProcessId(i, 1), S.NextId(s.sched);
            && Enabled(s, ESpawn(REQUEST)) && r.procs.hint == i + 1 && |r.sched.tasks| <= i + 1
            && (forall j | i < j < P.MAX_PROCESSES :: r.procs.slots[j] == s.procs.slots[j])
            && r.sched.ready == s.sched.ready + [t] && r.sched.current == s.sched.current && r.pendingExit == s.pendingExit
            && P.StateOf(r.procs, p) == Some(P.Ready)
            && P.BindingOf(r.procs, p) == Some(P.ProcessBinding(p, t, t, 1))
            && forall q | q != p :: P.Find(r.procs, q) == P.Find(s.procs, q)
  {
    RegisterFresh(s.procs, i, REQUEST.image, S.NextId(s.sched));
    SpawnSucceeds(s, REQUEST);
  }

  /** One process has been spawned. */
  lemma SpawnedOnce() returns (es: seq<Event>, s: Sys)
    ensures Legal(Boot, es) && s == Run(Boot, es) && Settled(s) && s.sched.current.None? && s.pendingExit.None?
    ensures |s.sched.ready| == 1 && |s.sched.tasks| <= 1 && s.procs.hint == 1 && s.procs.slots[1] == P.Vacant(0)
    ensures P.StateOf(s.procs, FIRST) == Some(P.Ready)
    ensures P.BindingOf(s.procs, FIRST) == Some(P.ProcessBinding(FIRST, s.sched.ready[0], s.sched.ready[0], 1))
  {
    BootSettled();
    SpawnFresh(Boot, 0);
    RunOneMore(Boot, [], ESpawn(REQUEST));
    es := [] + [ESpawn(REQUEST)];
    s := Run(Boot, es);
  }

  /** Two processes have been spawned. */
  lemma Spawned() returns (es: seq<Event>)
    ensures Legal(Boot, es)
    ensures var s := Run(Boot, es);
            && Settled(s) && s.sched.current.None? && s.pendingExit.None? && |s.sched.ready| == 2
            && P.StateOf(s.procs, FIRST) == Some(P.Ready) && P.StateOf(s.procs, SECOND) == Some(P.Ready)
            && P.BindingOf(s.procs, FIRST) == Some(P.ProcessBinding(FIRST, s.sched.ready[0], s.sched.ready[0], 1))
            && P.BindingOf(s.procs, SECOND) == Some(P.ProcessBinding(SECOND, s.sched.ready[1], s.sched.ready[1], 1))
  {
    var s: Sys;
    es, s := SpawnedOnce();
    BootSettled();
    SpawnFresh(s, 1);
    RunOneMore(Boot, es, ESpawn(REQUEST));
    es := es + [ESpawn(REQUEST)];
  }

  /** The first has been started; the second waits. */
  lemma Started() returns (es: seq<Event>)
    ensures Legal(Boot, es)
    ensures var s := Run(Boot, es);
            && Settled(s) && CallerChecked(s) && s.currentProcess == Some(FIRST) && |s.sched.ready| == 1
            && P.StateOf(s.procs, SECOND) == Some(P.Ready)
            && P.BindingOf(s.procs, SECOND) == Some(P.ProcessBinding(SECOND, s.sched.ready[0], s.sched.ready[0], 1))
  {
    es := Spawned();
    BootSettled();
    StartFirst(Run(Boot, es), FIRST, SECOND);
    RunOneMore(Boot, es, EStart(FIRST));
    es := es + [EStart(FIRST)];
  }

  lemma StartFirst(s: Sys, p: P.ProcessId, q: P.ProcessId)
    requires Inv(s) && s.sched.current.None? && p != q && |s.sched.ready| == 2
    requires P.StateOf(s.procs, p) == Some(P.Ready) && P.StateOf(s.procs, q) == Some(P.Ready)
    requires P.BindingOf(s.procs, p) == Some(P.ProcessBinding(p, s.sched.ready[0], s.sched.ready[0], 1))
    ensures var r := Step(s, EStart(p));
            && Enabled(s, EStart(p)) && CallerChecked(r) && r.currentProcess == Some(p)
            && r.sched.ready == s.sched.ready[1..] && P.Find(r.procs, q) == P.Find(s.procs, q)
  {
    StartStep(s, p);
    P.WithStateFind(s.procs, p, P.Running);
  }

  /** A run from boot in which a yield of the first process and the tick after it return to the second, at its entry. */
  lemma YieldFromBoot(x: InterruptedState) returns (es: seq<Event>)
    requires IsUserValid(x)
    ensures Legal(Boot, es + [EYield] + [ETimer(x)])
    ensures var s := Run(Boot, es + [EYield]);
            s.currentProcess == Some(FIRST) && Output(s, ETimer(x)).Some? && Output(s, ETimer(x)).value.process == SECOND
  {
    es := Started();
    BootSettled();
    RunOneMore(Boot, es, EYield);
    RunOneMore(Boot, es + [EYield], ETimer(x));
    YieldsTo(Run(Boot, es), SECOND, x);
  }

  lemma YieldsTo(s: Sys, q: P.ProcessId, x: InterruptedState)
    requires Inv(s) && CallerChecked(s) && s.sched.ready != [] && IsUserValid(x) && P.StateOf(s.procs, q) == Some(P.Ready)
    requires P.BindingOf(s.procs, q) == Some(P.ProcessBinding(q, s.sched.ready[0], s.sched.ready[0], 1))
    ensures var r := Step(s, EYield);
            r.currentProcess == s.currentProcess && Output(r, ETimer(x)).Some? && Output(r, ETimer(x)).value.process == q
  {
    YieldThenTick(s, x, x);
    HeadBelongsTo(s, q);
  }

  lemma HeadBelongsTo(s: Sys, q: P.ProcessId)
    requires OneToOne(s) && s.sched.ready != [] && P.StateOf(s.procs, q) == Some(P.Ready)
    requires P.BindingOf(s.procs, q) == Some(P.ProcessBinding(q, s.sched.ready[0], s.sched.ready[0], 1))
    ensures s.sched.ready[0] in s.users && s.users[s.sched.ready[0]].process == q
  {
    assert Owned(s, q);
  }

  /** A run from boot after which an exit with code 7 is recorded as an exit with code 0. */
  lemma ExitCodeLostFromBoot() returns (es: seq<Event>)
    ensures Legal(Boot, es + [EExit(7)])
    ensures var slot := P.Find(Run(Boot, es + [EExit(7)]).procs, FIRST);
            slot.Some? && slot.value.state == Some(P.Exited) && slot.value.exitCode == Some(0)
  {
    es := Started();
    BootSettled();
    RunOneMore(Boot, es, EExit(7));
    ExitRecordsZero(Run(Boot, es), 7);
  }

  /** A run from boot after which a second start is accepted while a process runs, and the owners no longer agree. */
  lemma SecondStartFromBoot() returns (es: seq<Event>)
    ensures Legal(Boot, es)
    ensures var s := Run(Boot, es);
            Inv(s) && s.sched.current.Some? && StartOutcome(s, SECOND).None? && !Inv(StartUser(s, SECOND))
  {
    es := Started();
    StartNeedsIdle(Run(Boot, es), SECOND);
  }
}
