/** Task identity and lifecycle (kernel/src/scheduler/task.rs). */
module Tasks {
  import opened Prelude

  /** A generational identifier: slot index and the generation issued for that slot. */
  datatype TaskId = TaskId(index: nat, generation: nat)

  datatype TaskKind = Kernel | Userspace

  datatype TaskState = Created | Ready | Running | Blocked | Exited

  /** `execution` is the handle of the attached execution state; a handle wraps the task id. */
  datatype Tcb = Tcb(id: TaskId, kind: TaskKind, state: TaskState, priority: nat, execution: Option<TaskId>)

  predicate CanTransition(from: TaskState, to: TaskState) {
    match (from, to)
    case (Created, Ready) => true
    case (Ready, Running) => true
    case (Running, Ready) => true
    case (Running, Blocked) => true
    case (Blocked, Ready) => true
    case (Running, Exited) => true
    case (Blocked, Exited) => true
    case _ => false
  }

  /** The seven moves a task can make; Created and Exited are left and reached for good. */
  lemma TransitionTable(from: TaskState, to: TaskState)
    ensures CanTransition(from, to) <==>
      (from, to) in {(Created, Ready), (Ready, Running), (Running, Ready), (Running, Blocked), (Running, Exited),
                     (Blocked, Ready), (Blocked, Exited)}
  {
  }

  /** The derived lexicographic order on task ids. */
  predicate IdLess(a: TaskId, b: TaskId) {
    a.index < b.index || (a.index == b.index && a.generation < b.generation)
  }
}
