/** The hand-off slots of the one CPU (kernel/src/arch/x86_64/cpu_local.rs). */
module CpuLocals {
  import opened Prelude
  import opened Tasks
  import opened Snapshots

  /** What a system call asks the return path to do. */
  datatype Action = Return | Reschedule | Terminate

  datatype Captured = Captured(task: TaskId, snapshot: InterruptedState)

  /** What an observer of the CPU knows about a task: whether it ran, and its state when it left. */
  datatype Status = NeverRun | OnCpu | Left(snapshot: InterruptedState)

  /** Current task, syscall action mailbox, interrupted-snapshot mailbox. */
  datatype Cpu = Cpu(task: Option<TaskId>, action: Option<Action>, interrupted: Option<Captured>)

  datatype CaptureError = NoCurrentTask | AlreadyPending | InvalidState

  /** The slots themselves. */
  class CpuLocal {
    var task: Option<TaskId>
    var action: Option<Action>
    var interrupted: Option<Captured>

    function View(): Cpu
      reads this
    {
      Cpu(task, action, interrupted)
    }

    constructor ()
      ensures View() == Cpu(None, None, None)
    {
      task, action, interrupted := None, None, None;
    }

    /** Stores the snapshot for the current task; the mailbox holds one. */
    method Capture(snapshot: InterruptedState) returns (r: Result<TaskId, CaptureError>)
      modifies this`interrupted
      ensures r == if task.None? then Err(NoCurrentTask)
                   else if old(interrupted).Some? then Err(AlreadyPending)
                   else if !IsValid(snapshot) then Err(InvalidState) else Ok(task.value)
      ensures interrupted == if r.Ok? then Some(Captured(r.value, snapshot)) else old(interrupted)
    {
      if task.None? {
        return Err(NoCurrentTask);
      }
      if interrupted.Some? {
        return Err(AlreadyPending);
      }
      if !IsValid(snapshot) {
        return Err(InvalidState);
      }
      interrupted := Some(Captured(task.value, snapshot));
      return Ok(task.value);
    }

    method TakeAction() returns (taken: Option<Action>)
      modifies this`action
      ensures taken == old(action) && action == None
    {
      taken := action;
      action := None;
    }

    method TakeInterrupted() returns (taken: Option<Captured>)
      modifies this`interrupted
      ensures taken == old(interrupted) && interrupted == None
    {
      taken := interrupted;
      interrupted := None;
    }
  }
}
