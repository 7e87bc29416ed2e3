/** The bounded process registry (kernel/src/process/manager.rs). */
module Processes {
  import opened Prelude
  import Tasks
  import opened Layout

  const MAX_PROCESSES: nat := 256

  datatype ProcessId = ProcessId(index: nat, generation: nat)

  datatype ProcessState = Constructing | Ready | Running | Exited

  /** Ties a process to its task, execution handle and address space. */
  datatype ProcessBinding = ProcessBinding(process: ProcessId, task: Tasks.TaskId, execution: Tasks.TaskId, addressSpace: nat)

  datatype ProcessError = Full | InvalidProcess | InvalidTransition | GenerationExhausted | AlreadyBound | BindingMismatch

  datatype Slot = Slot(
    generation: nat, image: Option<ProcessImage>, state: Option<ProcessState>,
    binding: Option<ProcessBinding>, exitCode: Option<nat>)

  function Vacant(generation: nat): Slot {
    Slot(generation, None, None, None, None)
  }

  datatype Procs = Procs(slots: seq<Slot>, hint: nat)

  /** The table before any process is registered. */
  const NoProcesses: Procs := Procs(seq(MAX_PROCESSES, _ => Vacant(0)), 0)

  datatype ReapedProcess = ReapedProcess(id: ProcessId, image: ProcessImage, binding: Option<ProcessBinding>, exitCode: nat)

  /** The record an id refers to; a stale generation or a vacant slot refers to none. */
  function Find(p: Procs, id: ProcessId): Option<Slot> {
    if id.index < |p.slots| && p.slots[id.index].generation == id.generation && p.slots[id.index].state.Some?
    then Some(p.slots[id.index]) else None
  }

  function StateOf(p: Procs, id: ProcessId): Option<ProcessState> {
    var s := Find(p, id);
    if s.Some? then s.value.state else None
  }

  function BindingOf(p: Procs, id: ProcessId): Option<ProcessBinding> {
    var s := Find(p, id);
    if s.Some? then s.value.binding else None
  }

  ghost predicate SlotOk(s: Slot) {
    && s.generation < U32
    && (s.state.Some? ==> s.generation >= 1 && s.image.Some? && s.state != Some(Constructing))
    && (s.exitCode.Some? <==> s.state == Some(Exited))
    && (s.state.None? ==> s == Vacant(s.generation))
  }

  ghost predicate Inv(p: Procs) {
    && |p.slots| == MAX_PROCESSES && p.hint < MAX_PROCESSES
    && forall i | 0 <= i < |p.slots| :: SlotOk(p.slots[i])
  }

  // ----- operations -----

  function ScanIndex(p: Procs, offset: nat): nat {
    (p.hint + offset) % MAX_PROCESSES
  }

  /** Offset from the hint of the first vacant slot at or after `offset`. */
  function Scan(p: Procs, offset: nat): (k: nat)
    requires |p.slots| == MAX_PROCESSES && offset <= MAX_PROCESSES
    ensures offset <= k <= MAX_PROCESSES
    ensures forall j | offset <= j < k :: p.slots[ScanIndex(p, j)].state.Some?
    ensures k < MAX_PROCESSES ==> p.slots[ScanIndex(p, k)].state.None?
    decreases MAX_PROCESSES - offset
  {
    if offset == MAX_PROCESSES || p.slots[ScanIndex(p, offset)].state.None? then offset else Scan(p, offset + 1)
  }

  /** The scan stops at the first vacant slot, even when that slot's generations are used up. */
  function Registration(p: Procs): Result<ProcessId, ProcessError>
    requires |p.slots| == MAX_PROCESSES
  {
    var k := Scan(p, 0);
    if k == MAX_PROCESSES then Err(Full)
    else
      var i := ScanIndex(p, k);
      if p.slots[i].generation + 1 >= U32 then Err(GenerationExhausted)
      else Ok(ProcessId(i, p.slots[i].generation + 1))
  }

  function Register(p: Procs, image: ProcessImage): Procs
    requires |p.slots| == MAX_PROCESSES
  {
    match Registration(p)
    case Err(_) => p
    case Ok(id) =>
      Procs(p.slots[id.index := Slot(id.generation, Some(image), Some(Ready), None, None)], (id.index + 1) % MAX_PROCESSES)
  }

  function Put(p: Procs, id: ProcessId, slot: Slot): (r: Procs)
    ensures |r.slots| == |p.slots|
  {
    if Find(p, id).Some? then p.(slots := p.slots[id.index := slot]) else p
  }

  /** `None` when the operation succeeds. */
  function AttachError(p: Procs, id: ProcessId, task: Tasks.TaskId, execution: Tasks.TaskId, addressSpace: nat): Option<ProcessError> {
    var s := Find(p, id);
    if s.None? then Some(InvalidProcess)
    else if s.value.binding.Some? then Some(AlreadyBound)
    else if s.value.image.None? then Some(InvalidProcess)
    else if s.value.image.value.addressSpace != addressSpace || execution != task then Some(BindingMismatch)
    else None
  }

  function Attach(p: Procs, id: ProcessId, task: Tasks.TaskId, execution: Tasks.TaskId, addressSpace: nat): (r: Procs)
    ensures |r.slots| == |p.slots|
  {
    if AttachError(p, id, task, execution, addressSpace).Some? then p
    else Put(p, id, Find(p, id).value.(binding := Some(ProcessBinding(id, task, execution, addressSpace))))
  }

  function StartError(p: Procs, id: ProcessId): Option<ProcessError> {
    var s := Find(p, id);
    if s.None? then Some(InvalidProcess)
    else if s.value.state != Some(Ready) then Some(InvalidTransition)
    else if s.value.binding.None? then Some(BindingMismatch)
    else None
  }

  function WithState(p: Procs, id: ProcessId, state: ProcessState): (r: Procs)
    ensures |r.slots| == |p.slots|
  {
    if Find(p, id).Some? then Put(p, id, Find(p, id).value.(state := Some(state))) else p
  }

  function Start(p: Procs, id: ProcessId): (r: Procs)
    ensures |r.slots| == |p.slots|
  {
    if StartError(p, id).Some? then p else WithState(p, id, Running)
  }

  function YieldError(p: Procs, current: ProcessId, successor: ProcessId): Option<ProcessError> {
    if current == successor then Some(InvalidTransition)
    else if Find(p, current).None? || Find(p, successor).None? then Some(InvalidProcess)
    else if StateOf(p, current) != Some(Running) || StateOf(p, successor) != Some(Ready) then Some(InvalidTransition)
    else if BindingOf(p, current).None? || BindingOf(p, successor).None? then Some(BindingMismatch)
    else None
  }

  function YieldTo(p: Procs, current: ProcessId, successor: ProcessId): (r: Procs)
    ensures |r.slots| == |p.slots|
  {
    if YieldError(p, current, successor).Some? then p
    else WithState(WithState(p, current, Ready), successor, Running)
  }

  function ExitError(p: Procs, id: ProcessId): Option<ProcessError> {
    if Find(p, id).None? then Some(InvalidProcess)
    else if StateOf(p, id) != Some(Ready) && StateOf(p, id) != Some(Running) then Some(InvalidTransition)
    else None
  }

  function RequestExit(p: Procs, id: ProcessId, code: nat): (r: Procs)
    ensures |r.slots| == |p.slots|
  {
    if ExitError(p, id).Some? then p
    else Put(p, id, Find(p, id).value.(state := Some(Exited), exitCode := Some(code)))
  }

  predicate CanReap(p: Procs, id: ProcessId) {
    StateOf(p, id) == Some(Exited) && Find(p, id).value.image.Some? && Find(p, id).value.exitCode.Some?
  }

  function Reap(p: Procs, id: ProcessId): Procs {
    if CanReap(p, id) then Put(p, id, Vacant(id.generation)).(hint := id.index) else p
  }

  function Abort(p: Procs, id: ProcessId): Procs {
    if StateOf(p, id) == Some(Ready) then Put(p, id, Vacant(id.generation)) else p
  }

  function SpawnResult(p: Procs, image: ProcessImage, task: Tasks.TaskId, execution: Tasks.TaskId, addressSpace: nat): Result<ProcessId, ProcessError>
    requires |p.slots| == MAX_PROCESSES
  {
    var r := Registration(p);
    if r.Ok? && (image.addressSpace != addressSpace || execution != task) then Err(BindingMismatch) else r
  }

  function SpawnReady(p: Procs, image: ProcessImage, task: Tasks.TaskId, execution: Tasks.TaskId, addressSpace: nat): Procs
    requires |p.slots| == MAX_PROCESSES
  {
    match Registration(p)
    case Err(_) => p
    case Ok(id) =>
      if SpawnResult(p, image, task, execution, addressSpace).Ok?
      then Attach(Register(p, image), id, task, execution, addressSpace)
      else Abort(Register(p, image), id)
  }

  // ----- steps and runs -----

  datatype Event =
    | ERegister(image: ProcessImage)
    | EAttach(id: ProcessId, task: Tasks.TaskId, execution: Tasks.TaskId, addressSpace: nat)
    | EStart(id: ProcessId)
    | EYieldTo(id: ProcessId, successor: ProcessId)
    | ERequestExit(id: ProcessId, code: nat)
    | EReap(id: ProcessId)
    | EAbort(id: ProcessId)

  function Step(p: Procs, e: Event): Procs
    requires |p.slots| == MAX_PROCESSES
  {
    match e
    case ERegister(image) => Register(p, image)
    case EAttach(id, task, execution, addressSpace) => Attach(p, id, task, execution, addressSpace)
    case EStart(id) => Start(p, id)
    case EYieldTo(id, successor) => YieldTo(p, id, successor)
    case ERequestExit(id, code) => RequestExit(p, id, code)
    case EReap(id) => Reap(p, id)
    case EAbort(id) => Abort(p, id)
  }

  function Run(p: Procs, es: seq<Event>): (r: Procs)
    requires |p.slots| == MAX_PROCESSES
    ensures |r.slots| == MAX_PROCESSES
    decreases |es|
  {
    if es == [] then p else Step(Run(p, es[..|es| - 1]), es[|es| - 1])
  }

  lemma PutFind(p: Procs, id: ProcessId, slot: Slot)
    requires Find(p, id).Some? && slot.generation == id.generation
    ensures forall x :: Find(Put(p, id, slot), x) ==
                        if x == id then (if slot.state.Some? then Some(slot) else None) else Find(p, x)
  {
  }

  lemma RegisterFind(p: Procs, image: ProcessImage)
    requires |p.slots| == MAX_PROCESSES && Registration(p).Ok?
    ensures var id := Registration(p).value;
            && Find(p, id).None?
            && forall x :: Find(Register(p, image), x) ==
                           if x == id then Some(Slot(id.generation, Some(image), Some(Ready), None, None)) else Find(p, x)
  {
  }

  lemma WithStateFind(p: Procs, id: ProcessId, state: ProcessState)
    requires Find(p, id).Some?
    ensures forall x :: Find(WithState(p, id, state), x) ==
                        if x == id then Some(Find(p, id).value.(state := Some(state))) else Find(p, x)
  {
    PutFind(p, id, Find(p, id).value.(state := Some(state)));
  }

  /** A yield swaps two states and touches nothing else. */
  lemma YieldFind(p: Procs, current: ProcessId, successor: ProcessId)
    requires YieldError(p, current, successor).None?
    ensures forall x :: Find(YieldTo(p, current, successor), x) ==
                        if x == current then Some(Find(p, x).value.(state := Some(Ready)))
                        else if x == successor then Some(Find(p, x).value.(state := Some(Running)))
                        else Find(p, x)
  {
    WithStateFind(p, current, Ready);
    WithStateFind(WithState(p, current, Ready), successor, Running);
  }

  /** Starting one process and ending another. */
  lemma HandOverFind(p: Procs, current: ProcessId, successor: ProcessId, code: nat)
    requires YieldError(p, current, successor).None?
    ensures StartError(p, successor).None? && ExitError(Start(p, successor), current).None?
    ensures forall x :: Find(RequestExit(Start(p, successor), current, code), x) ==
                        if x == current then Some(Find(p, x).value.(state := Some(Exited), exitCode := Some(code)))
                        else if x == successor then Some(Find(p, x).value.(state := Some(Running)))
                        else Find(p, x)
  {
    WithStateFind(p, successor, Running);
    var q := Start(p, successor);
    PutFind(q, current, Find(q, current).value.(state := Some(Exited), exitCode := Some(code)));
  }

  lemma StepKeepsInv(p: Procs, e: Event)
    requires Inv(p)
    ensures Inv(Step(p, e))
  {
  }

  lemma {:induction false} RunKeepsInv(p: Procs, es: seq<Event>)
    requires Inv(p)
    ensures Inv(Run(p, es))
    decreases |es|
  {
    if es != [] {
      RunKeepsInv(p, es[..|es| - 1]);
      StepKeepsInv(Run(p, es[..|es| - 1]), es[|es| - 1]);
    }
  }

  // ----- what each step does -----

  /** The slot `j` places after the hint, going round, is in use. */
  predicate TakenAfterHint(p: Procs, j: nat)
    requires |p.slots| == MAX_PROCESSES
  {
    p.slots[(p.hint + j) % 256].state.Some?
  }

  /** A registration takes the first vacant slot from the hint on, in its next generation, and fails if all 256 are taken. */
  lemma RegistrationIs(p: Procs, k: nat)
    requires Inv(p) && k <= 256 && forall j | 0 <= j < k :: TakenAfterHint(p, j)
    ensures k == 256 ==> Registration(p) == Err(Full)
    ensures k < 256 && !TakenAfterHint(p, k) ==>
      var i := (p.hint + k) % 256;
      Registration(p) == if p.slots[i].generation == 0xffff_ffff then Err(GenerationExhausted)
                         else Ok(ProcessId(i, p.slots[i].generation + 1))
  {
    var n := Scan(p, 0);
    assert n < 256 ==> !TakenAfterHint(p, n);
    if k < 256 && !TakenAfterHint(p, k) {
      assert p.slots[ScanIndex(p, k)].state.None?;
    }
  }

  /** The slot of a reaped process is the next one to be used, in its next generation, as long as it has one. */
  lemma ReapedSlotReused(p: Procs, id: ProcessId)
    requires Inv(p) && StateOf(p, id) == Some(Exited)
    ensures Registration(Reap(p, id)) ==
      if id.generation == 0xffff_ffff then Err(GenerationExhausted) else Ok(ProcessId(id.index, id.generation + 1))
  {
    StepKeepsInv(p, EReap(id));
    assert (id.index + 0) % 256 == id.index;
    RegistrationIs(Reap(p, id), 0);
  }

  /** The state of every process after every step, in terms of the states before it. */
  function StateAfter(p: Procs, e: Event, x: ProcessId): Option<ProcessState>
    requires |p.slots| == MAX_PROCESSES
  {
    var before := StateOf(p, x);
    match e
    case ERegister(_) => if Registration(p) == Ok(x) then Some(Ready) else before
    case EAttach(_, _, _, _) => before
    case EStart(id) => if x == id && before == Some(Ready) && BindingOf(p, x).Some? then Some(Running) else before
    case EYieldTo(id, successor) =>
      if StateOf(p, id) != Some(Running) || StateOf(p, successor) != Some(Ready) then before
      else if BindingOf(p, id).None? || BindingOf(p, successor).None? then before
      else if x == id then Some(Ready) else if x == successor then Some(Running) else before
    case ERequestExit(id, _) => if x == id && (before == Some(Ready) || before == Some(Running)) then Some(Exited) else before
    case EReap(id) => if x == id && before == Some(Exited) then None else before
    case EAbort(id) => if x == id && before == Some(Ready) then None else before
  }

  lemma StepStates(p: Procs, e: Event, x: ProcessId)
    requires Inv(p)
    ensures StateOf(Step(p, e), x) == StateAfter(p, e, x)
  {
    match e
    case ERegister(image) => if Registration(p).Ok? { RegisterFind(p, image); }
    case EStart(id) => if Find(p, id).Some? { WithStateFind(p, id, Running); }
    case EYieldTo(id, successor) => if YieldError(p, id, successor).None? { YieldFind(p, id, successor); }
    case _ =>
  }

  /** A process is bound once, under its own id, to one task and the address space of its image; anything else is refused. */
  lemma AttachIs(p: Procs, id: ProcessId, task: Tasks.TaskId, execution: Tasks.TaskId, addressSpace: nat)
    requires Inv(p)
    ensures var e := AttachError(p, id, task, execution, addressSpace); var r := Attach(p, id, task, execution, addressSpace);
            && (e == Some(InvalidProcess) <==> StateOf(p, id).None?)
            && (e == Some(AlreadyBound) <==> BindingOf(p, id).Some?)
            && (e == Some(BindingMismatch) <==>
                 StateOf(p, id).Some? && BindingOf(p, id).None?
                 && (Find(p, id).value.image.value.addressSpace != addressSpace || execution != task))
            && (e == None <==> BindingOf(r, id) == Some(ProcessBinding(id, task, execution, addressSpace)) && BindingOf(p, id).None?)
            && (e.Some? ==> r == p)
            && forall x | x != id :: Find(r, x) == Find(p, x)
  {
  }

  /** Why the other operations refuse a process: there is none of that id, it is in another state, or it is not bound. */
  lemma RefusalsAre(p: Procs, id: ProcessId, successor: ProcessId)
    requires Inv(p)
    ensures StartError(p, id) == if StateOf(p, id).None? then Some(InvalidProcess)
                                 else if StateOf(p, id) != Some(Ready) then Some(InvalidTransition)
                                 else if BindingOf(p, id).None? then Some(BindingMismatch) else None
    ensures ExitError(p, id) == if StateOf(p, id).None? then Some(InvalidProcess)
                                else if StateOf(p, id) == Some(Exited) then Some(InvalidTransition) else None
    ensures YieldError(p, id, successor) ==
      if id == successor then Some(InvalidTransition)
      else if StateOf(p, id).None? || StateOf(p, successor).None? then Some(InvalidProcess)
      else if StateOf(p, id) != Some(Running) || StateOf(p, successor) != Some(Ready) then Some(InvalidTransition)
      else if BindingOf(p, id).None? || BindingOf(p, successor).None? then Some(BindingMismatch) else None
    ensures CanReap(p, id) <==> StateOf(p, id) == Some(Exited)
  {
    assert id.index < |p.slots| ==> SlotOk(p.slots[id.index]);
    assert StateOf(p, id).Some? ==>
        StateOf(p, id).value.Ready? || StateOf(p, id).value.Running? || StateOf(p, id).value.Exited?;
  }

  /** A process is registered and bound in one go exactly when there is a slot and the binding fits the image. */
  lemma SpawnResultIs(p: Procs, image: ProcessImage, task: Tasks.TaskId, execution: Tasks.TaskId, addressSpace: nat)
    requires Inv(p)
    ensures var out := SpawnResult(p, image, task, execution, addressSpace); var r := SpawnReady(p, image, task, execution, addressSpace);
            && (out.Ok? <==> Registration(p).Ok? && image.addressSpace == addressSpace && execution == task)
            && (out.Ok? ==>
                 && out == Registration(p)
                 && Find(r, out.value) == Some(Slot(out.value.generation, Some(image), Some(Ready),
                                                    Some(ProcessBinding(out.value, task, execution, addressSpace)), None)))
            && (out.Err? ==> out == if Registration(p).Err? then Registration(p) else Err(BindingMismatch))
  {
    if Registration(p).Ok? { RegisterFind(p, image); }
  }

  // ----- identity -----

  ghost predicate Issued(p: Procs, id: ProcessId) {
    id.index < |p.slots| && 1 <= id.generation <= p.slots[id.index].generation
  }

  /** Only registration issues an id or brings one to life, and that id is new. */
  lemma StepIssues(p: Procs, e: Event)
    requires Inv(p)
    ensures forall x :: Issued(p, x) ==> Issued(Step(p, e), x)
    ensures forall x :: Find(Step(p, e), x).Some? ==>
              Find(p, x).Some? || (e.ERegister? && Registration(p) == Ok(x))
    ensures e.ERegister? && Registration(p).Ok? ==>
              !Issued(p, Registration(p).value) && Issued(Step(p, e), Registration(p).value)
  {
    if e.ERegister? && Registration(p).Ok? {
      RegisterFind(p, e.image);
    }
  }

  ghost function IssuedIds(p: Procs, es: seq<Event>): seq<ProcessId>
    requires |p.slots| == MAX_PROCESSES
    decreases |es|
  {
    if es == [] then []
    else
      var before := Run(p, es[..|es| - 1]);
      IssuedIds(p, es[..|es| - 1]) +
      if es[|es| - 1].ERegister? && Registration(before).Ok? then [Registration(before).value] else []
  }

  lemma {:induction false} IdsAreUnique(p: Procs, es: seq<Event>)
    requires Inv(p)
    ensures Distinct(IssuedIds(p, es))
    ensures forall id | id in IssuedIds(p, es) :: !Issued(p, id) && Issued(Run(p, es), id)
    ensures forall id | Issued(p, id) :: Issued(Run(p, es), id)
    decreases |es|
  {
    if es != [] {
      IdsAreUnique(p, es[..|es| - 1]);
      RunKeepsInv(p, es[..|es| - 1]);
      StepIssues(Run(p, es[..|es| - 1]), es[|es| - 1]);
    }
  }

  /** An id whose record is gone is rejected by every later lookup. */
  lemma {:induction false} DeadIdsStayDead(p: Procs, es: seq<Event>, id: ProcessId)
    requires Inv(p) && Issued(p, id) && Find(p, id).None?
    ensures Find(Run(p, es), id).None?
    decreases |es|
  {
    if es != [] {
      DeadIdsStayDead(p, es[..|es| - 1], id);
      IdsAreUnique(p, es[..|es| - 1]);
      RunKeepsInv(p, es[..|es| - 1]);
      StepIssues(Run(p, es[..|es| - 1]), es[|es| - 1]);
    }
  }

  /** Only its own reap removes the record of an exited process; any other step leaves it alone, binding aside. */
  lemma ExitedRecordKept(p: Procs, e: Event, id: ProcessId)
    requires Inv(p) && StateOf(p, id) == Some(Exited)
    ensures var r := Find(Step(p, e), id);
            && (r.Some? <==> e != EReap(id))
            && (r.Some? ==> r.value.(binding := None) == Find(p, id).value.(binding := None))
  {
    if e.ERegister? && Registration(p).Ok? { RegisterFind(p, e.image); }
  }

  /** The record of an exited process is there, code and image included, exactly until somebody reaps it. */
  lemma {:induction false} ExitedRecordStays(p: Procs, es: seq<Event>, id: ProcessId)
    requires Inv(p) && StateOf(p, id) == Some(Exited)
    ensures var r := Find(Run(p, es), id);
            && (r.Some? <==> EReap(id) !in es)
            && (r.Some? ==> r.value.(binding := None) == Find(p, id).value.(binding := None))
    decreases |es|
  {
    if es != [] {
      var es', e := es[..|es| - 1], es[|es| - 1];
      assert es == es' + [e];
      ExitedRecordStays(p, es', id);
      RunKeepsInv(p, es');
      IdsAreUnique(p, es');
      ExitedRecordEnds(Run(p, es'), e, id);
    }
  }

  lemma ExitedRecordEnds(p: Procs, e: Event, id: ProcessId)
    requires Inv(p) && Issued(p, id) && (Find(p, id).Some? ==> StateOf(p, id) == Some(Exited))
    ensures var r := Find(Step(p, e), id);
            && (r.Some? <==> Find(p, id).Some? && e != EReap(id))
            && (r.Some? ==> r.value.(binding := None) == Find(p, id).value.(binding := None))
  {
    StepIssues(p, e);
    if Find(p, id).Some? { ExitedRecordKept(p, e, id); }
  }

  /**
   After a successful exit request the process can be reaped, whatever else happens, until it is reaped;
   that gives back exactly the requested code and its image, and it never succeeds a second time.
   */
  lemma ReapReturnsRequestedCode(p: Procs, id: ProcessId, code: nat, es: seq<Event>, later: seq<Event>)
    requires Inv(p) && ExitError(p, id).None?
    ensures var r := Run(RequestExit(p, id, code), es);
            && (CanReap(r, id) <==> EReap(id) !in es)
            && (CanReap(r, id) ==> Find(r, id).value.exitCode == Some(code) && Find(r, id).value.image == Find(p, id).value.image)
            && !CanReap(Run(Reap(r, id), later), id)
  {
    var x := RequestExit(p, id, code);
    StepKeepsInv(p, ERequestExit(id, code));
    PutFind(p, id, Find(p, id).value.(state := Some(Exited), exitCode := Some(code)));
    var r := Run(x, es);
    RunKeepsInv(x, es);
    IdsAreUnique(x, es);
    ExitedRecordStays(x, es, id);
    ReapEnds(r, id, later);
  }

  lemma ReapEnds(p: Procs, id: ProcessId, later: seq<Event>)
    requires Inv(p) && Issued(p, id) && (Find(p, id).Some? ==> CanReap(p, id))
    ensures !CanReap(Run(Reap(p, id), later), id)
  {
    if Find(p, id).Some? { PutFind(p, id, Vacant(id.generation)); }
    StepKeepsInv(p, EReap(id));
    StepIssues(p, EReap(id));
    DeadIdsStayDead(Reap(p, id), later, id);
  }

  /** A spawn that fails leaves every record as it was; at most a generation and the hint moved on. */
  lemma SpawnFailureIsInvisible(p: Procs, image: ProcessImage, task: Tasks.TaskId, execution: Tasks.TaskId, addressSpace: nat)
    requires Inv(p) && SpawnResult(p, image, task, execution, addressSpace).Err?
    ensures forall x :: Find(SpawnReady(p, image, task, execution, addressSpace), x) == Find(p, x)
  {
    if Registration(p).Ok? {
      RegisterFind(p, image);
      PutFind(Register(p, image), Registration(p).value, Vacant(Registration(p).value.generation));
    }
  }

  /** The offset from the hint at which the scan looks at slot `i`. */
  function OffsetOf(p: Procs, i: nat): (j: nat)
    requires p.hint < MAX_PROCESSES && i < MAX_PROCESSES
    ensures j < MAX_PROCESSES && ScanIndex(p, j) == i
    ensures forall k | 0 <= k < MAX_PROCESSES && ScanIndex(p, k) == i :: k == j
  {
    if p.hint <= i then i - p.hint else i + MAX_PROCESSES - p.hint
  }

  lemma LastOffset(p: Procs, i: nat)
    requires i < MAX_PROCESSES && p.hint == (i + 1) % MAX_PROCESSES
    ensures OffsetOf(p, i) == MAX_PROCESSES - 1
  {
  }

  lemma ScanEndsAt(p: Procs, i: nat)
    requires |p.slots| == MAX_PROCESSES && p.hint < MAX_PROCESSES && i < MAX_PROCESSES && p.slots[i].state.None?
    ensures Scan(p, 0) <= OffsetOf(p, i)
  {
    var j := OffsetOf(p, i);
    assert p.slots[ScanIndex(p, j)].state.None?;
  }

  /** The slot just before the hint is the last one the scan looks at. */
  lemma LastResort(p: Procs, i: nat)
    requires |p.slots| == MAX_PROCESSES && i < MAX_PROCESSES && p.hint == (i + 1) % MAX_PROCESSES && p.slots[i].state.None?
    ensures Scan(p, 0) < MAX_PROCESSES
    ensures ScanIndex(p, Scan(p, 0)) == i <==> forall x | 0 <= x < MAX_PROCESSES && x != i :: p.slots[x].state.Some?
  {
    ScanEndsAt(p, i);
    LastOffset(p, i);
    if ScanIndex(p, Scan(p, 0)) == i {
      OthersTaken(p, i);
    }
  }

  lemma OthersTaken(p: Procs, i: nat)
    requires |p.slots| == MAX_PROCESSES && p.hint < MAX_PROCESSES && i < MAX_PROCESSES && OffsetOf(p, i) == MAX_PROCESSES - 1
    requires Scan(p, 0) < MAX_PROCESSES && ScanIndex(p, Scan(p, 0)) == i
    ensures forall x | 0 <= x < MAX_PROCESSES && x != i :: p.slots[x].state.Some?
  {
    forall x | 0 <= x < MAX_PROCESSES && x != i ensures p.slots[x].state.Some? {
      var j := OffsetOf(p, x);
      assert j < Scan(p, 0) && p.slots[ScanIndex(p, j)].state.Some?;
    }
  }

  /**
   A withdrawn registration leaves the hint behind it, so its slot is used again by the next one exactly
   when every other slot is taken.
   */
  lemma WithdrawnSlotReusedIff(p: Procs, image: ProcessImage, task: Tasks.TaskId, execution: Tasks.TaskId, addressSpace: nat)
    requires Inv(p) && Registration(p).Ok? && SpawnResult(p, image, task, execution, addressSpace).Err?
    ensures var i, q := Registration(p).value.index, SpawnReady(p, image, task, execution, addressSpace);
            && Scan(q, 0) < MAX_PROCESSES
            && (ScanIndex(q, Scan(q, 0)) == i <==> forall x | 0 <= x < MAX_PROCESSES && x != i :: p.slots[x].state.Some?)
  {
    var i, q := Registration(p).value.index, SpawnReady(p, image, task, execution, addressSpace);
    assert q.slots == p.slots[i := Vacant(Registration(p).value.generation)];
    LastResort(q, i);
    assert forall x | 0 <= x < MAX_PROCESSES && x != i :: q.slots[x] == p.slots[x];
  }

  /** On an empty table the next registration therefore takes slot 1. */
  lemma HintMovesOn(image: ProcessImage, task: Tasks.TaskId)
    ensures var q := SpawnReady(NoProcesses, image, task, task, image.addressSpace + 1);
            Registration(NoProcesses) == Ok(ProcessId(0, 1)) && Registration(q) == Ok(ProcessId(1, 1))
  {
    FirstVacant(NoProcesses, 0);
    var q := SpawnReady(NoProcesses, image, task, task, image.addressSpace + 1);
    assert q.hint == 1 && q.slots[1] == NoProcesses.slots[1];
    FirstVacant(q, 1);
  }

  /** A vacant slot at the hint is the one that is registered. */
  lemma FirstVacant(p: Procs, i: nat)
    requires |p.slots| == MAX_PROCESSES && p.hint == i < MAX_PROCESSES && p.slots[i] == Vacant(0)
    ensures Registration(p) == Ok(ProcessId(i, 1))
  {
    assert ScanIndex(p, 0) == i;
  }
}
