/** The process registry object, each method proved against its form in Processes. */
module ProcessManagers {
  import opened Prelude
  import Tasks
  import opened Layout
  import opened Processes

  class ProcessManager {
    const slots: array<Slot>
    var nextHint: nat

    function View(): Procs
      reads this, slots
    {
      Procs(slots[..], nextHint)
    }

    ghost predicate Valid()
      reads this, slots
    {
      Inv(View())
    }

    constructor ()
      ensures fresh(slots) && Valid()
      ensures forall id :: Find(View(), id).None?
      ensures View() == NoProcesses
    {
      slots := new Slot[MAX_PROCESSES](_ => Vacant(0));
      nextHint := 0;
      new;
      assert slots[..] == NoProcesses.slots;
    }

    /** Scans from the hint, once around, for a vacant slot. */
    method FindVacant() returns (index: Option<nat>)
      requires slots.Length == MAX_PROCESSES && nextHint < MAX_PROCESSES
      ensures index == var k := Scan(View(), 0); if k < MAX_PROCESSES then Some(ScanIndex(View(), k)) else None
    {
      ghost var v := View();
      for offset := 0 to MAX_PROCESSES
        invariant Scan(v, 0) == Scan(v, offset)
      {
        var i := (nextHint + offset) % MAX_PROCESSES;
        assert i == ScanIndex(v, offset);
        if slots[i].state.None? {
          return Some(i);
        }
      }
      return None;
    }

    method RegisterReady(image: ProcessImage) returns (r: Result<ProcessId, ProcessError>)
      requires Valid()
      modifies this, slots
      ensures Valid() && View() == Register(old(View()), image)
      ensures r == Registration(old(View()))
    {
      ghost var before := View();
      StepKeepsInv(before, ERegister(image));
      var vacant := FindVacant();
      if vacant.None? {
        return Err(Full);
      }
      var index := vacant.value;
      if slots[index].generation + 1 >= U32 {
        return Err(GenerationExhausted);
      }
      var slot := Slot(slots[index].generation + 1, Some(image), Some(Ready), None, None);
      slots[index] := slot;
      nextHint := (index + 1) % MAX_PROCESSES;
      assert slots[..] == before.slots[index := slot];
      return Ok(ProcessId(index, slot.generation));
    }

    method AttachExecution(id: ProcessId, task: Tasks.TaskId, execution: Tasks.TaskId, addressSpace: nat)
      returns (r: Result<ProcessBinding, ProcessError>)
      requires Valid()
      modifies slots
      ensures Valid() && View() == Attach(old(View()), id, task, execution, addressSpace)
      ensures r == match AttachError(old(View()), id, task, execution, addressSpace)
                   case Some(error) => Err(error)
                   case None => Ok(ProcessBinding(id, task, execution, addressSpace))
    {
      ghost var before := View();
      StepKeepsInv(before, EAttach(id, task, execution, addressSpace));
      if Find(View(), id).None? {
        return Err(InvalidProcess);
      }
      var slot := slots[id.index];
      if slot.binding.Some? {
        return Err(AlreadyBound);
      }
      if slot.image.value.addressSpace != addressSpace || execution != task {
        return Err(BindingMismatch);
      }
      var binding := ProcessBinding(id, task, execution, addressSpace);
      slots[id.index] := slot.(binding := Some(binding));
      assert slots[..] == before.slots[id.index := slot.(binding := Some(binding))];
      return Ok(binding);
    }

    /** Registers and binds; a registration that cannot be bound is withdrawn. */
    method SpawnReady(image: ProcessImage, task: Tasks.TaskId, execution: Tasks.TaskId, addressSpace: nat)
      returns (r: Result<ProcessId, ProcessError>)
      requires Valid()
      modifies this, slots
      ensures Valid()
      ensures r == SpawnResult(old(View()), image, task, execution, addressSpace)
      ensures View() == Processes.SpawnReady(old(View()), image, task, execution, addressSpace)
    {
      var registered := RegisterReady(image);
      if registered.Err? {
        return registered;
      }
      var id := registered.value;
      RegisterFind(old(View()), image);
      ghost var middle := View();
      var attached := AttachExecution(id, task, execution, addressSpace);
      if attached.Err? {
        StepKeepsInv(middle, EAbort(id));
        slots[id.index] := Vacant(slots[id.index].generation);
        assert slots[..] == middle.slots[id.index := Vacant(id.generation)];
        return Err(attached.error);
      }
      return registered;
    }

    method Start(id: ProcessId) returns (error: Option<ProcessError>)
      requires Valid()
      modifies slots
      ensures Valid() && View() == Processes.Start(old(View()), id)
      ensures error == StartError(old(View()), id)
    {
      ghost var before := View();
      StepKeepsInv(before, EStart(id));
      if Find(View(), id).None? {
        return Some(InvalidProcess);
      }
      var slot := slots[id.index];
      if slot.state != Some(Ready) {
        return Some(InvalidTransition);
      }
      if slot.binding.None? {
        return Some(BindingMismatch);
      }
      slots[id.index] := slot.(state := Some(Running));
      assert slots[..] == before.slots[id.index := slot.(state := Some(Running))];
      return None;
    }

    /** The second look at the successor's state never fails: distinct ids use distinct slots. */
    method YieldTo(current: ProcessId, successor: ProcessId) returns (error: Option<ProcessError>)
      requires Valid()
      modifies slots
      ensures Valid() && View() == Processes.YieldTo(old(View()), current, successor)
      ensures error == YieldError(old(View()), current, successor)
    {
      ghost var before := View();
      StepKeepsInv(before, EYieldTo(current, successor));
      if current == successor {
        return Some(InvalidTransition);
      }
      if Find(View(), current).None? || Find(View(), successor).None? {
        return Some(InvalidProcess);
      }
      if StateOf(View(), current) != Some(Running) || StateOf(View(), successor) != Some(Ready) {
        return Some(InvalidTransition);
      }
      if BindingOf(View(), current).None? || BindingOf(View(), successor).None? {
        return Some(BindingMismatch);
      }
      var from, to := slots[current.index], slots[successor.index];
      slots[current.index] := from.(state := Some(Ready));
      if slots[successor.index].state != Some(Ready) {
        assert false;
        return Some(InvalidTransition);
      }
      slots[successor.index] := to.(state := Some(Running));
      assert slots[..] == before.slots[current.index := from.(state := Some(Ready))][successor.index := to.(state := Some(Running))];
      return None;
    }

    method RequestExit(id: ProcessId, code: nat) returns (error: Option<ProcessError>)
      requires Valid()
      modifies slots
      ensures Valid() && View() == Processes.RequestExit(old(View()), id, code)
      ensures error == ExitError(old(View()), id)
    {
      ghost var before := View();
      StepKeepsInv(before, ERequestExit(id, code));
      if Find(View(), id).None? {
        return Some(InvalidProcess);
      }
      var slot := slots[id.index];
      if slot.state != Some(Ready) && slot.state != Some(Running) {
        return Some(InvalidTransition);
      }
      slots[id.index] := slot.(state := Some(Exited), exitCode := Some(code));
      assert slots[..] == before.slots[id.index := slot.(state := Some(Exited), exitCode := Some(code))];
      return None;
    }

    method Reap(id: ProcessId) returns (r: Result<ReapedProcess, ProcessError>)
      requires Valid()
      modifies this, slots
      ensures Valid() && View() == Processes.Reap(old(View()), id)
      ensures r.Ok? <==> CanReap(old(View()), id)
      ensures match Find(old(View()), id)
              case None => r == Err(InvalidProcess)
              case Some(was) =>
                if was.state != Some(Exited) then r == Err(InvalidTransition)
                else was.image.Some? && was.exitCode.Some?
                     && r == Ok(ReapedProcess(id, was.image.value, was.binding, was.exitCode.value))
    {
      ghost var before := View();
      StepKeepsInv(before, EReap(id));
      if Find(View(), id).None? {
        return Err(InvalidProcess);
      }
      var slot := slots[id.index];
      if slot.state != Some(Exited) {
        return Err(InvalidTransition);
      }
      slots[id.index] := Vacant(slot.generation);
      nextHint := id.index;
      assert slots[..] == before.slots[id.index := Vacant(slot.generation)];
      return Ok(ReapedProcess(id, slot.image.value, slot.binding, slot.exitCode.value));
    }

    method AbortReady(id: ProcessId) returns (error: Option<ProcessError>)
      requires Valid()
      modifies slots
      ensures Valid() && View() == Abort(old(View()), id)
      ensures error == if StateOf(old(View()), id) == Some(Ready) then None
                       else if Find(old(View()), id).None? then Some(InvalidProcess) else Some(InvalidTransition)
    {
      ghost var before := View();
      StepKeepsInv(before, EAbort(id));
      if Find(View(), id).None? {
        return Some(InvalidProcess);
      }
      var slot := slots[id.index];
      if slot.state != Some(Ready) {
        return Some(InvalidTransition);
      }
      slots[id.index] := Vacant(slot.generation);
      assert slots[..] == before.slots[id.index := Vacant(slot.generation)];
      return None;
    }
  }
}
