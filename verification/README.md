# X11-OS kernel: verified model

X11-OS is a small single-CPU kernel written in Rust. This project models the parts of it whose
correctness depends on several owners staying in agreement, or on loops preserving meaning, and proves
properties of those models for all inputs, all runs and all reachable states.

`dafny verify dfyconfig.toml` checks everything.

## What is modelled

The project has two layers. Values (`SchedulerState`, `Processes`, `SystemState`, `KernelState`,
`KernelRuns`, `PageMaps`, ...) state what each operation means; invariants and properties of runs are
lemmas about them. Classes and methods (`Schedulers`, `ProcessManagers`, `SystemRuntimes`,
`KernelTasks`, `KernelRuntimes`, `AddressSpaces`, `Population`, ...) follow the source statement by
statement, mutate fields and arrays in place, and are proved equal to those values. A branch of the
source that cannot be reached is kept and proved unreachable.

- **Userspace execution protocol** (`Processes.dfy`, `Executions.dfy`, `CpuLocal.dfy`, `SystemState.dfy`,
  `SystemRuns.dfy`, `SystemWitness.dfy`, `SystemRuntime.dfy`): spawn, start, yield, exit and timer tick over the process
  table, the scheduler, the kernel-stack and userspace registries, the CPU-local slots and the pending exit.
- **Scheduler and kernel preemption** (`Queues.dfy`, `SchedulerState.dfy`, `Scheduler.dfy`,
  `KernelState.dfy`, `KernelTasks.dfy`, `KernelRuns.dfy`, `KernelRuntime.dfy`): generational task slots,
  round robin, deadlines, and the life of interrupted snapshots.
- **ELF loading** (`Elf.dfy`, `LoadPlans.dfy`, `PageMaps.dfy`, `AddressSpaces.dfy`, `Population.dfy`,
  `Loading.dfy`): from the bytes of an executable to what the process finds in its memory, as the
  program headers of the System V ABI (generic ABI, chapter 5, "Program Header") describe it.
- **Reading user memory** (`PageWalks.dfy`, `UserReads.dfy`, `Syscalls.dfy`): the write system call over
  4-level page tables (Intel SDM volume 3A, section 4.5).
- **Frames and time** (`Frames.dfy`, `Clock.dfy`).

## Main results

- `SystemRuns.RunSettled` and `SystemRuns.ResumeHistory`: in every run all owners agree, and every return
  to user mode uses the launch frame or the state the task last left with, as seen by an observer who
  looks only at the CPU.
- `KernelRuns.SnapshotHistory`: the same for timer preemption of kernel tasks, which may sleep;
  `KernelRuns.TickKeepsInvIff` is the exact condition on a tick.
- `SchedulerState.BoundedWaiting` and `SystemRuns.BoundedTurns`: the exact dispatch, and the exact handover of
  the CPU in the protocol, at which a waiting task runs.
- `SystemRuns.TickAnswersYield`: over all runs, exactly which ticks hand the CPU over, read off the calls made
  before them.
- `SystemRuns.PendingForever`: an exit that finds nobody ready is never made up for.
- `Loading.LoadProcessImage`: a loaded process reads, at every address, what its program headers say; how a
  load ends is determined by the file, the frames left, the mapping backend and the direct map
  (`Loading.LoadSucceedsIff`, `Loading.LoadErrorIs`), and a failed load gives every frame back. Which files
  get that far is said in bytes and numbers by `Elf.FileFaultIs`, `Elf.HeaderFaultIs` and `LoadPlans.PlannableIff`.
- `AddressSpaces.BuildAddressSpace` and `AddressSpaces.BuildSucceedsIff`: mapping is all or nothing for a
  mapper that may fail at any request, and succeeds under an exact condition.
- `Syscalls.SysWrite` and `Syscalls.OutcomeUnique`: nested chunk, page and table loops are one flat read
  with one possible ending, and only bytes of the user's own pages are delivered (`Syscalls.DeliversUserBytes`,
  over the meaning of the page tables in `PageWalks.FlagsMeaning` and `PageWalks.TranslationMeaning`).
- `Frames.FramesAreDisjoint`: all frames handed out are aligned and distinct, which is what
  `AddressSpaces.Mapper` asks of its supply. `Frames.GivenIff` says which frames these can be and
  `Frames.FramesInsideIff` when all of them lie inside usable memory. `Frames.RunGrantedIff` says when a run is
  granted and where.
- `ElfWriter.EncodeRoundTrip` and `Clock.DeadlineRoundTrip`.

## Where the code differs from its prose or tests

The model follows the code.

- A committed exit records code 0 whatever was asked for (`SystemRuns.ExitCodeLost`,
  `SystemRuns.ExitRecordsZero`; a run from boot in `SystemWitnesses.ExitCodeLostFromBoot`).
- An exit call that finds nobody ready is refused but stays pending, and every later exit or yield call is
  refused because of it (`SystemRuns.PendingForever`).
- `make_ready` accepts the running task, after which the scheduler's invariant no longer holds
  (`SchedulerState.MakeReadyNeedsNotRunning`).
- docs/SYSCALL_ABI.md:39 says the complete range is validated before copying; the code validates each
  256-byte chunk (`Syscalls.NothingWrittenIff`, `Syscalls.PartialWrite`).
- The policy's stack and the mapped stack are two different ranges; pages are mapped for the second
  (`LoadPlans.ImageOffStack` covers it and its guard page).
- `allocate_frame` compares only the start of a frame with the end of its region, so the last frame of a
  region that ends inside a page sticks out of it. `Frames.FramesInsideIff` gives the exact condition and
  `Frames.FrameOutside` a memory map that fails it.
- The test at kernel/src/memory/frame.rs:166-176 expects a second run of two frames from the next region although
  the first region has just two frames left; the code serves it from there (`Frames.RunExamples`).
- Two tests in kernel/src/process/manager.rs expect the slot of a withdrawn registration to be used again
  at once. The allocation hint stays where it was, so that happens only when every other slot is taken
  (`Processes.WithdrawnSlotReusedIff`, `Processes.HintMovesOn`).
- `start_user` does not demote a running process (`SystemState.StartNeedsIdle`; a run from boot in
  `SystemWitnesses.SecondStartFromBoot`).
- A snapshot that is valid but not from ring 0 would be stored and never used
  (`KernelRuns.TickKeepsInvIff`, `KernelRuns.ForeignSnapshotRestarts`).
- A kernel task that goes to sleep stays on the CPU until the next tick. If it is due by then and nobody else
  is ready, the handler plans its return before it saves its state, so the task starts again from the
  beginning (`KernelRuns.SelfWakeIff`, `KernelRuns.SelfWakeRestarts`, `KernelRuns.SelfWakeFromCold`).

## Model

| member | source | states |
|---|---|---|
| `Queues.RunQueue.Push` | kernel/src/scheduler/run_queue.rs:21-27 | the task is appended unless it is already queued; nobody else moves |
| `Queues.RunQueue.Pop` | kernel/src/scheduler/run_queue.rs:33-35 | exactly the oldest task leaves; an empty queue answers nothing |
| `Queues.WaitQueue.Enqueue` | kernel/src/scheduler/wait_queue.rs:28-34 | a waiter is queued once, at the back |
| `Queues.WaitQueue.Dequeue` | kernel/src/scheduler/wait_queue.rs:36-38 | waiters leave in arrival order |
| `Queues.EntryOrder` | kernel/src/scheduler/sleep_queue.rs:45-47 | entries are ordered by deadline, then slot, then generation, and any two different ones are ordered one way |
| `Tasks.TransitionTable` | kernel/src/scheduler/task.rs:73-86 | exactly seven moves between task states are allowed |
| `Queues.InsertKeepsOrder` | kernel/src/scheduler/sleep_queue.rs:41-50 | inserting a task that is not asleep keeps the (deadline, task) order, keeps one entry per task, and adds exactly that pair |
| `Queues.DueIsPrefix` | kernel/src/scheduler/sleep_queue.rs:56-59 | in a sorted queue the entries before the split point are exactly those whose deadline has come |
| `Queues.SortedDeterminedByPairs` | kernel/src/scheduler/sleep_queue.rs:41-50 | two sorted queues that hold the same pairs are the same queue, so insertion order leaves no trace |
| `Queues.SleepQueue.Insert` | kernel/src/scheduler/sleep_queue.rs:41-50 | the search for the position refines `Inserted`; a task already asleep is refused and nothing changes |
| `Queues.SleepQueue.ExpireUntil` | kernel/src/scheduler/sleep_queue.rs:56-59 | drains exactly the due prefix, in order, and keeps the rest |
| `Queues.SleepQueue.Remove` | kernel/src/scheduler/sleep_queue.rs:61-67 | after it the task is not asleep and every other entry is where it was |
| `SchedulerState.CreateLookup` | kernel/src/scheduler/mod.rs:57-78 | creation brings exactly one new id to life and leaves every other lookup as it was |
| `SchedulerState.FirstFreeSlot` | kernel/src/scheduler/mod.rs:57-78 | the first free slot with generations left is used again, under its next generation |
| `SchedulerState.NoFreeSlot` | kernel/src/scheduler/mod.rs:57-78 | when there is none, the table grows by a slot in generation 1, its index cut to 32 bits |
| `SchedulerState.StepStates` | kernel/src/scheduler/mod.rs:57-224 | the state of every task after every operation, from the states before it: who changes, to what, and under which condition |
| `SchedulerState.StepsFollowTable` | kernel/src/scheduler/task.rs:73-86 | every operation moves every task along the transition table; only creation adds one, and only created, running and blocked tasks can disappear |
| `SchedulerState.StepQueue` | kernel/src/scheduler/mod.rs:98-224 | the ready queue and the CPU owner after every operation: the queue grows at its end and only a dispatch takes its head |
| `SchedulerState.WakeAllQueue` | kernel/src/scheduler/mod.rs:205-213 | expired tasks that are blocked join the ready queue in order, each once |
| `SchedulerState.WakeOneWakesFirst` | kernel/src/scheduler/mod.rs:178-190 | the first waiter that is blocked becomes ready at the end of the queue, nobody else changes, and with none blocked nothing does |
| `SchedulerState.OwnerAndHead` | kernel/src/scheduler/mod.rs:134-156 | the CPU owner is running and not queued, the queue head is ready and not the owner, so the transitions of a dispatch cannot fail |
| `SchedulerState.ScheduleNextKeepsInv` | kernel/src/scheduler/mod.rs:134-156 | a dispatch keeps the scheduler invariant |
| `SchedulerState.DispatchLookup` | kernel/src/scheduler/mod.rs:134-156 | a dispatch changes the state of the head and of the previous owner and of no other task |
| `SchedulerState.TerminateLookup` | kernel/src/scheduler/mod.rs:108-132 | termination removes the owner, runs the head, and touches no other task |
| `SchedulerState.TerminateKeepsInv` | kernel/src/scheduler/mod.rs:108-132 | termination keeps the scheduler invariant, accepted or refused |
| `SchedulerState.WakeAllKeepsInv` | kernel/src/scheduler/mod.rs:205-213 | waking any list of ids, stale or repeated ones included, keeps the invariant |
| `SchedulerState.StepKeepsInv` | kernel/src/scheduler/mod.rs:57-224 | every operation keeps: ready queue duplicate-free and equal to the ready tasks, running iff owner, slot i holds only the id issued last for it |
| `SchedulerState.RunKeepsInv` | kernel/src/scheduler/mod.rs:57-224 | the invariant holds after every legal sequence of operations |
| `SchedulerState.MakeReadyNeedsNotRunning` | kernel/src/scheduler/mod.rs:98-102 | `make_ready` keeps the invariant if and only if its argument is not the running task |
| `SchedulerState.SpawnedTask` | kernel/src/scheduler/mod.rs:57-102 | create, attach, make ready adds one ready task at the end of the queue and changes no other |
| `SchedulerState.AbandonedTask` | kernel/src/scheduler/mod.rs:57-96 | create, attach, destroy leaves no live task, queue entry or owner changed |
| `SchedulerState.QueueOnlyAdvances` | kernel/src/scheduler/mod.rs:98-224 | only a dispatch takes the head; every other operation leaves the queue a prefix of what it becomes |
| `SchedulerState.BoundedWaiting` | kernel/src/scheduler/mod.rs:98-156 | a task at position k is at position k-d after d dispatches whatever is interleaved, and the dispatch after k of them, no other, gives it the CPU |
| `SchedulerState.NextIdIsNew` | kernel/src/scheduler/mod.rs:57-78 | the next id has never been issued if and only if its slot index fits in 32 bits |
| `SchedulerState.IdsAreUnique` | kernel/src/scheduler/mod.rs:57-96 | over any run no task id is issued twice, nor one issued before the run |
| `SchedulerState.DeadIdsStayDead` | kernel/src/scheduler/mod.rs:231-232 | an id that has died is found by no later lookup |
| `Schedulers.Scheduler.CreateTask` | kernel/src/scheduler/mod.rs:57-78 | the slot scan picks the first reusable slot; the object is then `Create` of what it was and the id is the next one |
| `Schedulers.Scheduler.Transition` | kernel/src/scheduler/task.rs:73-86 | a live task changes state exactly when the transition table allows it |
| `Schedulers.Scheduler.AttachExecution` | kernel/src/scheduler/mod.rs:82-85 | attaches once; a dead id and a second attachment are told apart and change nothing |
| `Schedulers.Scheduler.DestroyCreated` | kernel/src/scheduler/mod.rs:88-96 | gives up a created task and returns its handle; an empty slot and a task that is another one, started or without a handle are told apart |
| `Schedulers.Scheduler.MakeReady` | kernel/src/scheduler/mod.rs:98-102 | a created or blocked task is queued once; the running task is accepted too, and only then is the invariant lost |
| `Schedulers.Scheduler.TerminateCurrentTo` | kernel/src/scheduler/mod.rs:108-132 | all checks precede the first change; the failures after it are unreachable, and the result says which check failed |
| `Schedulers.Scheduler.ScheduleNext` | kernel/src/scheduler/mod.rs:134-156 | demote, queue, pop, run equals one rotation of the queue; with nobody else ready nothing changes and no task is named |
| `Schedulers.Scheduler.BlockCurrentOn` | kernel/src/scheduler/mod.rs:158-169 | the owner leaves the CPU and joins the waiters, or nothing changes; the push after the transition cannot fail |
| `Schedulers.Scheduler.WakeOne` | kernel/src/scheduler/mod.rs:178-190 | skips stale waiters and wakes the first blocked one; the rollback of the failed push is unreachable |
| `Schedulers.Scheduler.SleepCurrentUntil` | kernel/src/scheduler/mod.rs:192-203 | the owner leaves the CPU and enters the deadline queue, or nothing changes; its rollback is unreachable |
| `Schedulers.Scheduler.ExpireSleepers` | kernel/src/scheduler/mod.rs:205-213 | wakes the due sleepers in deadline order and returns exactly those appended to the ready queue |
| `Schedulers.Scheduler.ExitCurrent` | kernel/src/scheduler/mod.rs:215-224 | the owner is removed and the CPU has no owner; false exactly when there was none |
| `Processes.RunKeepsInv` | kernel/src/process/manager.rs:77-247 | every operation on the process table keeps its slot invariant, over every run |
| `Processes.RegistrationIs` | kernel/src/process/manager.rs:77-97 | a registration takes the first vacant of the 256 slots from the hint on, round the end, in its next generation; it fails when none is vacant or that slot has no generation left |
| `Processes.ReapedSlotReused` | kernel/src/process/manager.rs:201-214 | the slot of a reaped process is the next one to be registered |
| `Processes.StepStates` | kernel/src/process/manager.rs:77-229 | the state of every process after every operation, from the states before it |
| `Processes.AttachIs` | kernel/src/process/manager.rs:132-148 | a process is bound once, to one task and its image's address space; each refusal has its own reason |
| `Processes.RefusalsAre` | kernel/src/process/manager.rs:150-214 | which error start, yield and exit give, and that exactly exited processes can be reaped |
| `Processes.SpawnResultIs` | kernel/src/process/manager.rs:99-114 | registering and binding in one go succeeds exactly when there is a slot and the binding fits the image, and then leaves that record |
| `Processes.YieldFind` | kernel/src/process/manager.rs:158-177 | a yield changes the states of the two processes named and no other record |
| `Processes.IdsAreUnique` | kernel/src/process/manager.rs:77-97 | over any run no process id is issued twice |
| `Processes.DeadIdsStayDead` | kernel/src/process/manager.rs:231-247 | an id that has died is rejected by every later lookup |
| `Processes.ExitedRecordStays` | kernel/src/process/manager.rs:184-214 | the record of an exited process, code and image included, is there after any run if and only if the run does not reap it |
| `Processes.ReapReturnsRequestedCode` | kernel/src/process/manager.rs:184-214 | after an accepted exit request and any run, the process can be reaped if and only if it has not been; that returns exactly the code given to `request_exit` and its image, and never succeeds twice |
| `Processes.ReapEnds` | kernel/src/process/manager.rs:201-214 | a second reap of the same id fails |
| `Processes.SpawnFailureIsInvisible` | kernel/src/process/manager.rs:99-114 | a spawn that fails leaves every lookup as it was |
| `Processes.WithdrawnSlotReusedIff` | kernel/src/process/manager.rs:99-114 | after a withdrawn registration the next one takes the same slot if and only if every other slot is taken |
| `Processes.HintMovesOn` | kernel/src/process/manager.rs:224-229 | on an empty table a withdrawn registration in slot 0 is followed by one in slot 1 |
| `ProcessManagers.ProcessManager.FindVacant` | kernel/src/process/manager.rs:77-97 | one turn around the table from the hint finds the first vacant slot, if any |
| `ProcessManagers.ProcessManager.RegisterReady` | kernel/src/process/manager.rs:77-97 | the array afterwards is `Register` of what it was; full table and exhausted generation are told apart |
| `ProcessManagers.ProcessManager.AttachExecution` | kernel/src/process/manager.rs:132-148 | binds a process that has no binding yet, in any state, only to its own address space and its own task |
| `ProcessManagers.ProcessManager.SpawnReady` | kernel/src/process/manager.rs:99-114 | register and bind, or nothing but generation and hint changed |
| `ProcessManagers.ProcessManager.Start` | kernel/src/process/manager.rs:150-156 | only a bound ready process starts |
| `ProcessManagers.ProcessManager.YieldTo` | kernel/src/process/manager.rs:158-177 | running and ready swap between two bound processes; the failure after the first change is unreachable |
| `ProcessManagers.ProcessManager.RequestExit` | kernel/src/process/manager.rs:184-192 | records the code exactly for a process that is ready or running |
| `ProcessManagers.ProcessManager.Reap` | kernel/src/process/manager.rs:201-214 | returns the record of an exited process and frees its slot; an unknown id and a process that has not exited are told apart |
| `ProcessManagers.ProcessManager.AbortReady` | kernel/src/process/manager.rs:216-229 | frees the slot of a ready process and of no other; an unknown id and another state are told apart |
| `Snapshots.OneReturnPath` | kernel/src/arch/x86_64/interrupted_state.rs:41-81 | a valid snapshot returns within ring 0 with its own three words exactly when it is a ring-0 one, and then fails the ring-3 check |
| `Snapshots.RefusedIff` | kernel/src/arch/x86_64/interrupted_state.rs:41-81 | a snapshot is refused exactly when it has no code address, no stack, bad flags or no words to cross rings; which ones are user snapshots |
| `Registries.Registry.Place` | kernel/src/arch/x86_64/execution_registry.rs:31-44 | a list with holes refines a map: the first hole is filled or the list grows, a bound task is refused |
| `Registries.Registry.Push` | kernel/src/arch/x86_64/user_execution.rs:82-86 | the list grows by one binding, a bound task is refused |
| `Registries.Registry.Remove` | kernel/src/arch/x86_64/execution_registry.rs:46-53 | exactly the named task loses its binding |
| `Bindings.FreshExec` | kernel/src/arch/x86_64/execution.rs:36-54 | a kernel stack can be used exactly when it has room for a return slot; the task then starts at the trampoline, with its activation record, 8 below a 16-byte boundary of that stack |
| `Bindings.LaunchMeans` | kernel/src/arch/x86_64/user_launch.rs:27-36 | a launch is made exactly for an entry in user space and an aligned stack pointer in the mapped stack, and enters that entry on that stack in ring 3, interrupts on, under the given root |
| `Bindings.FrameOkIff` | kernel/src/arch/x86_64/user_return.rs:31-38 | a return frame is accepted exactly when both selectors are ring 3 and the reserved and interrupt bits of the flags are set |
| `CpuLocals.CpuLocal.Capture` | kernel/src/arch/x86_64/cpu_local.rs:86-99 | one snapshot at a time, for the task on the CPU, and only a valid one; each refusal is told apart |
| `CpuLocals.CpuLocal.TakeInterrupted` | kernel/src/arch/x86_64/cpu_local.rs:109-111 | the mailbox is emptied |
| `CpuLocals.CpuLocal.TakeAction` | kernel/src/arch/x86_64/cpu_local.rs:49-51 | the action is taken once |
| `SystemState.ExactlyOneRunning` | kernel/src/arch/x86_64/system_runtime.rs:73-181 | when owners agree and a task is current, exactly one process is running, it is the current process, and its task owns CPU slot and kernel stack |
| `SystemState.HeadAgrees` | kernel/src/arch/x86_64/user_successor.rs:36-66 | the queue head always has matching task, process, binding and stack, so successor selection fails only on an empty queue |
| `SystemRuns.SuccessorIs` | kernel/src/arch/x86_64/user_successor.rs:36-66 | the next task to return to is the head of the queue, as it is bound; there is none exactly when the queue is empty |
| `SystemState.SpawnSucceeds` | kernel/src/arch/x86_64/system_runtime.rs:73-109 | a successful spawn adds one task, process, stack and binding that agree, and keeps the invariant |
| `SystemState.SpawnFailureIsInvisible` | kernel/src/arch/x86_64/system_runtime.rs:73-109 | a failure at any stage leaves live tasks, processes, both registries, queue and CPU as they were |
| `SystemRuns.SpawnSucceedsIff` | kernel/src/arch/x86_64/system_runtime.rs:73-109 | a spawn succeeds exactly when the launch fits the image, the stack can be used and a process id can be given; the new task is bound to that launch and stack and the CPU is left alone |
| `SystemState.StartKeepsInv` | kernel/src/arch/x86_64/system_runtime.rs:111-131 | starting the first process keeps all owners in agreement |
| `SystemRuns.StartAcceptedIff` | kernel/src/arch/x86_64/system_runtime.rs:111-131 | a process can be started exactly when its task is the next one to run; which error each other one gets |
| `SystemRuns.StartTakesCpu` | kernel/src/arch/x86_64/system_runtime.rs:111-131 | a started process owns the CPU, its kernel stack and its page tables and is entered through its launch frame |
| `SystemState.StartNeedsIdle` | kernel/src/arch/x86_64/system_runtime.rs:111-131 | an accepted start keeps the owners in agreement if and only if nothing was running |
| `SystemState.YieldKeepsInv` | kernel/src/arch/x86_64/system_runtime.rs:161-181 | a committed yield keeps all owners in agreement |
| `SystemState.ExitKeepsInv` | kernel/src/arch/x86_64/system_runtime.rs:137-157 | a committed exit keeps all owners in agreement |
| `SystemState.OutputIsNewCurrent` | kernel/src/arch/x86_64/system_runtime.rs:111-181 | every transfer goes to the head of the queue, which is current afterwards, through its own binding, whose snapshot is used up |
| `SystemState.NoOutputNoSwitch` | kernel/src/arch/x86_64/interrupt_entry.rs:61-148 | a step without a transfer changes neither the current task nor any existing binding |
| `SystemState.StepKeepsSettled` | kernel/src/arch/x86_64/system_runtime.rs:73-181 | every protocol step keeps the owners in agreement, the mailbox empty and the loaded root that of the current task |
| `SystemRuns.RunSettled` | kernel/src/arch/x86_64/system_runtime.rs:73-181 | in every reachable state tasks, stacks, bindings and unfinished processes correspond one to one with agreeing address spaces |
| `SystemRuns.ResumeHistory` | kernel/src/arch/x86_64/system_runtime.rs:161-181 | over any run from boot each transfer enters a task at its launch frame if it never ran, else at exactly the state it last left with; each snapshot is used once |
| `SystemRuns.ExitSwitchesIffReady` | kernel/src/arch/x86_64/system_runtime.rs:137-157 | an accepted exit transfers if and only if somebody is ready, and then to the head |
| `SystemRuns.ExitOutcomeIs` | kernel/src/arch/x86_64/system_runtime.rs:137-157 | a pending exit is carried out exactly when it is the current task's own and someone is ready; which error it gives otherwise |
| `SystemRuns.YieldOutcomeIs` | kernel/src/arch/x86_64/system_runtime.rs:161-181 | a switch is made exactly when someone is ready and the snapshot is a user one of the current task; which error there is otherwise |
| `SystemRuns.ExitStaysPending` | kernel/src/arch/x86_64/system_runtime.rs:196-196 | an accepted exit call that finds nobody ready stays pending, with its owner and its code |
| `SystemRuns.CallAcceptedIff` | kernel/src/arch/x86_64/system_runtime.rs:183-192 | lifecycle calls are accepted from the current process exactly while it has no exit pending |
| `SystemRuns.TickSwitchesIffYielded` | kernel/src/arch/x86_64/interrupt_entry.rs:117-148 | a tick transfers if and only if a yield is unanswered, the snapshot is a user one and somebody is ready |
| `SystemRuns.YieldThenTick` | kernel/src/syscall.rs:157-160 | the tick after an accepted yield hands the CPU to the head of the queue, the caller goes to its end with the interrupted state, and the next tick hands nothing over |
| `SystemRuns.CallThenTick` | kernel/src/arch/x86_64/interrupt_entry.rs:95-97 | after any other call, or one that was refused, the next tick hands nothing over |
| `SystemRuns.TickAnswersYield` | kernel/src/arch/x86_64/interrupt_entry.rs:117-148 | in every run from boot a tick switches exactly when it interrupts user mode, someone is ready and a yield is open: accepted, and followed by no other answered call and no taken tick |
| `SystemRuns.RescheduleAsked` | kernel/src/arch/x86_64/system_runtime.rs:196-197 | the scheduler is asked to reschedule by accepted yield and exit calls and nothing else |
| `SystemWitnesses.YieldFromBoot` | kernel/src/arch/x86_64/interrupt_entry.rs:127-133 | a run from boot in which a yield of the first process and the tick after it return to the second |
| `SystemRuns.QueueAdvances` | kernel/src/arch/x86_64/system_runtime.rs:111-181 | a transfer takes the head of the ready queue; any other step leaves the queue a prefix of what it becomes |
| `Queues.PlaceMovesUp` | kernel/src/scheduler/run_queue.rs:21-35 | a queue that only loses its head and only grows at its end moves every waiting task up one place for each head taken |
| `SystemRuns.TurnNears` | kernel/src/arch/x86_64/system_runtime.rs:111-181 | through the states of any legal run of the protocol a waiting task moves up exactly one place with each handover of the CPU |
| `SystemRuns.TurnComes` | kernel/src/arch/x86_64/system_runtime.rs:111-181 | in the trace of any legal run the task at place k of the ready queue gets the CPU with the (k+1)-th handover and with no earlier one |
| `SystemRuns.RunTrace` | kernel/src/arch/x86_64/system_runtime.rs:111-181 | every legal run has its trace: the states after each of its steps, and which steps hand over the CPU |
| `SystemRuns.BoundedTurns` | kernel/src/arch/x86_64/system_runtime.rs:111-181 | bounded waiting for every legal run and every waiting task: the (k+1)-th handover and no earlier one, in the states that run goes through |
| `SystemRuns.ExitCodeLost` | kernel/src/arch/x86_64/system_runtime.rs:137-157 | the committed exit records 0, so the code asked for survives if and only if it is 0 |
| `SystemRuns.ExitRecordsZero` | kernel/src/arch/x86_64/system_runtime.rs:137-157 | an accepted exit call with somebody ready leaves the caller exited with code 0, whatever code it gave |
| `SystemWitnesses.ExitCodeLostFromBoot` | kernel/src/arch/x86_64/system_runtime.rs:137-157 | a legal run from boot in which an exit with code 7 is recorded as one with code 0 |
| `SystemWitnesses.SecondStartFromBoot` | kernel/src/arch/x86_64/system_runtime.rs:111-131 | a legal run from boot after which a second start is accepted and ends the agreement of the owners |
| `SystemRuns.PendingAloneUnlessSpawn` | kernel/src/arch/x86_64/system_runtime.rs:137-157 | a pending exit stays that of the current task with nobody ready, if and only if nobody is spawned meanwhile |
| `SystemRuns.PendingForever` | kernel/src/arch/x86_64/system_runtime.rs:183-192 | once an exit is pending with a current task, no legal continuation changes it or accepts an exit or yield call; unless a yield was asked for before, the CPU is never handed over again |
| `SystemRuns.NeverIdleAgain` | kernel/src/arch/x86_64/system_runtime.rs:111-181 | once a process has started some process is always on the CPU |
| `SystemRuntimes.SystemRuntime.SelectSuccessor` | kernel/src/arch/x86_64/user_successor.rs:36-66 | reads without changing; fails if and only if nobody is ready, the other errors are unreachable |
| `SystemRuntimes.SystemRuntime.SpawnUserReady` | kernel/src/arch/x86_64/system_runtime.rs:73-109 | the staged spawn with its rollbacks refines one all-or-nothing step |
| `SystemRuntimes.SystemRuntime.StartUser` | kernel/src/arch/x86_64/system_runtime.rs:111-131 | the checks decide; the changes after them refine one step, and the owners agree afterwards if and only if it was refused or nothing was running |
| `SystemRuntimes.SystemRuntime.CommitPendingExit` | kernel/src/arch/x86_64/system_runtime.rs:137-157 | refines one step; an error leaves every owner unchanged, and no failure follows the first change |
| `SystemRuntimes.SystemRuntime.CommitUserspaceYield` | kernel/src/arch/x86_64/system_runtime.rs:161-181 | refines one step; without a transfer every owner is unchanged, and no failure follows the first change |
| `SystemRuntimes.SystemRuntime.CheckedCaller` | kernel/src/arch/x86_64/system_runtime.rs:183-192 | names the caller unless an exit is pending or nothing runs; the binding mismatches are unreachable |
| `SystemRuntimes.SystemRuntime.InstallResume` | kernel/src/arch/x86_64/user_execution.rs:53-62 | stores a user snapshot for a task that holds none |
| `SystemRuntimes.SystemRuntime.ClearResume` | kernel/src/arch/x86_64/user_execution.rs:103-106 | gives up and returns the snapshot of a bound task; an unbound task is reported and nothing changes |
| `SystemRuntimes.SystemRuntime.ExitCall` | kernel/src/arch/x86_64/interrupt_entry.rs:61-99 | the exit system call, with its commit and transfer, is one protocol step |
| `SystemRuntimes.SystemRuntime.YieldCall` | kernel/src/arch/x86_64/interrupt_entry.rs:61-99 | an accepted yield system call leaves a request that the next tick answers (`YieldThenTick`), a refused one cancels it |
| `SystemRuntimes.SystemRuntime.OtherCall` | kernel/src/arch/x86_64/interrupt_entry.rs:61-99 | any other system call overwrites an unanswered request |
| `SystemRuntimes.SystemRuntime.TimerEntry` | kernel/src/arch/x86_64/interrupt_entry.rs:117-148 | capture, commit and clean-up are one protocol step; the mailbox is empty afterwards |
| `KernelState.Partition` | kernel/src/arch/x86_64/kernel_task.rs:57-147 | a task has a stack if and only if it is the owner, ready or asleep, and it is only one of these |
| `KernelState.SpawnFailureIsInvisible` | kernel/src/arch/x86_64/kernel_task.rs:57-83 | a spawn without a stack leaves tasks, stacks, queue and sleepers as they were |
| `KernelState.SpawnedTask` | kernel/src/arch/x86_64/kernel_task.rs:57-83 | a spawned task has the stack it was given, starts at its trampoline and waits at the end of the queue; no other task changes |
| `KernelState.SleepEffect` | kernel/src/arch/x86_64/kernel_task.rs:111-115 | a task that goes to sleep leaves the CPU, is blocked and is queued under its deadline; nobody else moves |
| `KernelState.ExitEffect` | kernel/src/arch/x86_64/kernel_task.rs:135-147 | a task that exits is gone from every table and nobody has the CPU |
| `KernelState.IdleEffect` | kernel/src/arch/x86_64/kernel_task.rs:111-147 | with nobody on the CPU, going to sleep and exiting change nothing |
| `KernelState.ExpireWakesDue` | kernel/src/arch/x86_64/kernel_task.rs:120-122 | expiry appends exactly the sleepers due at `now`, in (deadline, task) order, and changes no other task |
| `KernelState.StepKeepsInv` | kernel/src/arch/x86_64/kernel_task.rs:57-147 | every operation keeps blocked tasks equal to sleepers and live tasks equal to bound ones |
| `KernelState.RunKeepsInv` | kernel/src/arch/x86_64/kernel_task.rs:57-147 | the same over every run from boot |
| `KernelState.SleepersByContents` | kernel/src/scheduler/sleep_queue.rs:41-59 | managers with the same sleeping pairs have the same queue, whatever order tasks fell asleep in |
| `KernelTasks.KernelTaskManager.Spawn` | kernel/src/arch/x86_64/kernel_task.rs:57-83 | the staged spawn with its rollbacks refines one step; only the stack allocation can fail |
| `KernelTasks.KernelTaskManager.PrepareDispatch` | kernel/src/arch/x86_64/kernel_task.rs:85-109 | always succeeds: mismatch, missing and invalid execution are unreachable; the installed stack is the new owner's |
| `KernelTasks.KernelTaskManager.SleepCurrentUntil` | kernel/src/arch/x86_64/kernel_task.rs:111-115 | fails if and only if nothing runs |
| `KernelTasks.KernelTaskManager.ExpireSleepers` | kernel/src/arch/x86_64/kernel_task.rs:120-122 | returns how many sleepers were due; all of them are ready now |
| `KernelTasks.KernelTaskManager.ExitCurrent` | kernel/src/arch/x86_64/kernel_task.rs:135-147 | task, sleep entry and stack go together; false if and only if nothing runs |
| `KernelRuns.SwitchBindings` | kernel/src/arch/x86_64/runtime.rs:145-218 | a preemption stores the snapshot with the interrupted task, takes the entered task's, and touches no other binding |
| `KernelRuns.TickKeepsInvIff` | kernel/src/arch/x86_64/runtime.rs:145-218 | a tick keeps the runtime in order if and only if it does not switch, or the snapshot is a ring-0 one and the CPU does not go to the task it was taken from |
| `KernelRuns.ForeignSnapshotRestarts` | kernel/src/arch/x86_64/execution_registry.rs:81-91 | after a switch to another task the interrupted one is planned through its snapshot exactly for ring 0; otherwise it would begin again |
| `KernelRuns.SelfWakeRestarts` | kernel/src/arch/x86_64/runtime.rs:154-215 | a tick that hands the CPU to the sleeping task it interrupted enters that task at its first context, although it is running |
| `KernelRuns.SelfWakeIff` | kernel/src/arch/x86_64/runtime.rs:154-175 | that happens if and only if preemption is enabled, the task on the CPU has gone to sleep, and it heads the queue or is the first due sleeper of an empty one |
| `KernelRuns.SelfWakeFromCold` | kernel/src/arch/x86_64/runtime.rs:145-218 | for every ring-0 snapshot a legal run from a cold start that ends in such a tick |
| `KernelRuns.RunKeepsInv` | kernel/src/arch/x86_64/runtime.rs:88-224 | after every run from boot whose ticks meet the condition of `TickKeepsInvIff`, sleepers included, the mailbox is empty and the task on the CPU holds no snapshot |
| `KernelRuns.StepKeepsContext` | kernel/src/arch/x86_64/execution_registry.rs:81-103 | first contexts never change |
| `KernelRuns.SnapshotHistory` | kernel/src/arch/x86_64/runtime.rs:145-218 | over any run from boot whose ticks meet the condition of `TickKeepsInvIff`, with sleeping tasks and both kinds of timer work, a first context is used only for a task that never ran, every other return uses the snapshot its task was last interrupted with, once |
| `KernelRuns.TickSwitchesIff` | kernel/src/arch/x86_64/runtime.rs:145-218 | a tick transfers if and only if something is on the CPU, preemption is enabled and somebody is ready or due: to the head of the queue, or to the first due sleeper of an empty one |
| `KernelRuns.TickMovesOn` | kernel/src/arch/x86_64/runtime.rs:145-218 | a tick that switches puts the due sleepers, in order, behind the ready tasks and the interrupted task behind those unless it sleeps; the first of them has the CPU and the request is answered |
| `KernelRuns.TickStays` | kernel/src/arch/x86_64/runtime.rs:145-175 | a tick that does not switch wakes nobody and at most asks for a dispatch |
| `KernelRuns.DisableNests` | kernel/src/scheduler/reschedule.rs:43-60 | disabling preemption nests: each enable undoes one disable, and until the last no tick switches |
| `KernelRuns.StartsIff` | kernel/src/arch/x86_64/runtime.rs:231-254 | the first task can be started exactly when one is ready and was never interrupted |
| `KernelRuns.ServiceWakesDue` | kernel/src/arch/x86_64/runtime.rs:220-224 | the timer work outside the interrupt wakes exactly the due sleepers, in order, and leaves the CPU alone |
| `KernelRuntimes.SavesIff` | kernel/src/arch/x86_64/runtime.rs:88-120 | a pending snapshot goes to the current task exactly when it is that task's, valid, and the task has no other; which error there is otherwise |
| `KernelRuntimes.KernelRuntime.CommitInterruptedState` | kernel/src/arch/x86_64/runtime.rs:88-120 | the pending snapshot moves to the binding of the task it was taken from; every refusal is told apart, leaves the bindings as they were, and empties the mailbox only for an invalid snapshot |
| `KernelRuntimes.KernelRuntime.TakeKernelPreemptState` | kernel/src/arch/x86_64/execution_registry.rs:96-103 | a snapshot leaves its binding exactly if there is a binding and a same-ring return can use it |
| `KernelRuntimes.KernelRuntime.HandleTimerPreemption` | kernel/src/arch/x86_64/runtime.rs:145-218 | the whole handler, expiry of sleepers included, refines one step and always succeeds |
| `KernelRuntimes.KernelRuntime.TimerEntry` | kernel/src/arch/x86_64/interrupt_entry.rs:117-160 | capture and handler are one step; the mailbox is empty afterwards, and the exact condition under which the runtime is in order |
| `KernelRuntimes.KernelRuntime.SleepCurrentUntil` | kernel/src/arch/x86_64/kernel_task.rs:111-115 | the owner goes to sleep and stays on the CPU until a tick takes it off; fails if and only if nothing runs |
| `KernelRuntimes.KernelRuntime.ServiceTimer` | kernel/src/arch/x86_64/runtime.rs:220-224 | wakes exactly the due sleepers, says how many, and asks for a dispatch |
| `KernelRuntimes.KernelRuntime.DispatchFirst` | kernel/src/arch/x86_64/runtime.rs:231-254 | starts the head from its first context; fails exactly on an empty queue or a head that must return through a snapshot |
| `Elf.Parse` | kernel/src/process/image.rs:62-117 | accepts exactly the files whose header, program headers and entry point are sound, yields what they denote, and otherwise names the first fault in reading order |
| `Elf.RefusalUnique` | kernel/src/process/image.rs:62-117 | a file is refused for one reason only, so the error is determined by its bytes |
| `Elf.FileFaultIs` | kernel/src/process/image.rs:63-84 | in bytes: which file headers are accepted and which complaint each other one gets |
| `Elf.FieldPlaces` | kernel/src/process/image.rs:86-113 | at which offsets the entry point and the fields of program header i are read |
| `Elf.FieldDigits` | kernel/src/process/image.rs:127-140 | a field is the little-endian number of its bytes |
| `Elf.HeaderFaultIs` | kernel/src/process/image.rs:94-111 | in numbers: a load header is refused exactly when it is writable and executable, empty, larger in the file than in memory, not all in the file or not all in user space |
| `Elf.CheckFile` | kernel/src/process/image.rs:63-84 | the header checks, in order |
| `Elf.CheckSegment` | kernel/src/process/image.rs:94-111 | a load header is accepted exactly if its bytes are in the file, its memory is non-empty user memory and it is not both writable and executable |
| `Elf.ParseSegment` | kernel/src/process/image.rs:89-112 | one program header adds its segment if it is loadable, or is the reason the file is refused |
| `Elf.ParseSegments` | kernel/src/process/image.rs:86-113 | the loop collects the load segments in table order and whether one holds the entry point |
| `Elf.SegmentsSound` | kernel/src/process/image.rs:89-113 | every segment of an accepted file is one the loader can honour |
| `Elf.LittleRoundTrip` | kernel/src/process/image.rs:127-140 | the little-endian readers undo the little-endian writer |
| `ElfWriter.EncodeRoundTrip` | kernel/src/process/image.rs:62-117 | every describable image, written as a file, is accepted and read back exactly |
| `LoadPlans.BuildPlan` | kernel/src/process/load_plan.rs:40-71 | accepts exactly images whose page spans are placeable, disjoint, not writable code, with the entry in executable pages; otherwise names the first segment's fault |
| `LoadPlans.PlanRefusalUnique` | kernel/src/process/load_plan.rs:40-71 | an image that cannot be planned is refused for one reason only |
| `LoadPlans.PlannableIff` | kernel/src/process/load_plan.rs:40-71 | an image can be planned exactly when it has at most 8 segments between the image base and the guard page, none writable and executable, no two in one page, and its entry is in a page of an executable one |
| `LoadPlans.PlanFaultIs` | kernel/src/process/load_plan.rs:47-63 | in numbers: which complaint each refused segment gets |
| `LoadPlans.SharedPageIff` | kernel/src/process/load_plan.rs:80-91 | page ranges overlap exactly when some page holds bytes of both segments |
| `Layout.OverlapIff` | kernel/src/process/load_plan.rs:89-91 | two ranges overlap exactly when they have an address in common |
| `Layout.LayoutNumbers` | kernel/src/memory/address_space.rs:6-46 | the layout in numbers; the policy's stack and the mapped stack, with their guard pages, are apart and in user space |
| `LoadPlans.PlanSegment` | kernel/src/process/load_plan.rs:47-63 | the checks of one segment against those planned before it, in order |
| `LoadPlans.OverlapsPrior` | kernel/src/process/load_plan.rs:59-63 | finds an overlap if and only if there is one |
| `LoadPlans.PlanIsSafe` | kernel/src/process/load_plan.rs:40-91 | every file that parses and plans has aligned, non-empty, pairwise disjoint user spans, none writable and executable |
| `LoadPlans.EntryIsCode` | kernel/src/process/load_plan.rs:47-69 | the entry point of such a file is inside the unrounded bytes of an executable segment that is not writable |
| `LoadPlans.ImageOffStack` | kernel/src/process/address_space.rs:43-68 | no image page is a mapped stack page or the guard page below the stack |
| `LoadPlans.BuildStackPlan` | kernel/src/process/stack.rs:22-44 | always the sixteen pages below the mapped stack top; its errors are unreachable |
| `LoadPlans.StackPagesAre` | kernel/src/memory/user_stack.rs:8-24 | the stack's pages are exactly the sixteen below its top |
| `PageMaps.InstalledKeys` | kernel/src/process/loader.rs:49-72 | after any number of map requests exactly the old and the requested pages are mapped |
| `PageMaps.InstalledPage` | kernel/src/process/loader.rs:62-67 | each requested page keeps its own frame and permission |
| `PageMaps.UninstallLast` | kernel/src/process/loader.rs:78-86 | unmapping the last page requested undoes requesting it |
| `PageMaps.PagePlace` | kernel/src/process/loader.rs:44-97 | where page j of segment k stands in the plan's list, and that its permission is writable exactly if bit 1 of the segment's flags is set and executable exactly if bit 0 is |
| `AddressSpaces.Rollback` | kernel/src/process/loader.rs:78-86 | restores the mapping that was there before; it cannot fail |
| `AddressSpaces.PlacePage` | kernel/src/process/loader.rs:58-67 | one page gets the next frame; otherwise the mapping is as it was and the error is the first of: no frame, page already mapped, no frame for tables, refusal |
| `AddressSpaces.MapSpanPages` | kernel/src/process/loader.rs:47-72 | all pages of one segment over the frames they were due, or everything mapped so far is undone with the error of the first placement that fails or of the page limit |
| `AddressSpaces.MapLoadPlan` | kernel/src/process/loader.rs:40-76 | for a mapper that may fail at any request: all pages of the plan in order, or the mapping as it was; which of the two, and the error, is determined by what the mapper holds and its backend will do |
| `AddressSpaces.MapStack` | kernel/src/process/address_space_builder.rs:60-84 | the sixteen stack pages read-write if and only if none of their placements fails, otherwise the mapping as it was |
| `AddressSpaces.InstalledBoth` | kernel/src/process/address_space_builder.rs:59-84 | image and stack pages together, nothing else changed |
| `AddressSpaces.SegmentAccess` | kernel/src/process/loader.rs:88-97 | every address of a segment is mapped, writable exactly if bit 1 of the segment's flags is set and executable exactly if bit 0 is |
| `AddressSpaces.WantedApart` | kernel/src/process/address_space_builder.rs:52-84 | no page of image and stack is asked for twice, and those of the image come first |
| `AddressSpaces.PlacedIff` | kernel/src/process/loader.rs:47-72 | all placements go through if and only if the pages are free, no request is refused and the supply covers pages and tables |
| `AddressSpaces.BuildSucceedsIff` | kernel/src/process/address_space_builder.rs:52-84 | a build succeeds if and only if the id matches, the plan has at most 128 pages, all pages are free, no request is refused and the supply suffices |
| `AddressSpaces.BuildFailsIn` | kernel/src/process/address_space_builder.rs:52-84 | which error a failed build gives |
| `AddressSpaces.LoadStopsAt` | kernel/src/process/loader.rs:47-72 | a load stops at its first page that cannot be placed, for that page's reason, or at the 129th |
| `AddressSpaces.VerdictIs` | kernel/src/process/loader.rs:58-67 | why a page cannot be placed: no frame for it or its tables, a page already there, or what the backend answers |
| `AddressSpaces.PageInsideIff` | kernel/src/arch/x86_64/page_table.rs:154-159 | a page may be mapped exactly when it is aligned and all of it lies in user space |
| `AddressSpaces.Mapper.Access` | kernel/src/arch/x86_64/page_table.rs:133-142 | an address may be used exactly when its page is mapped in user space, and then as the mapping says |
| `AddressSpaces.CheckAccess` | kernel/src/process/address_space_builder.rs:86-115 | after a complete mapping the final access checks never complain |
| `AddressSpaces.BuildAddressSpace` | kernel/src/process/address_space_builder.rs:52-146 | exactly image and stack pages added, writable and executable as the flags of their segments say, each over the frame of the supply that was due, or the mapping exactly as it was with the error that was due; the final access checks and rollback failures are unreachable |
| `Population.ChunkFillsPage` | kernel/src/process/populate.rs:46-77 | clearing a page and copying one chunk leaves exactly the page the segment describes |
| `Population.OwnByteMeans` | kernel/src/process/populate.rs:61-65 | in a page of a segment no other segment has a say, so clearing it erases nobody's bytes |
| `Population.FindMappedPage` | kernel/src/process/populate.rs:82-84 | the first load entry for a page, or none |
| `Population.NextPage` | kernel/src/process/populate.rs:48-76 | each chunk is one page of the segment and the next chunk starts at the next page |
| `Population.PopulateSegment` | kernel/src/process/populate.rs:34-78 | for any load: the first page of the image that is missing from it or out of reach is reported; otherwise, in the load mapped for the image, every page of the segments so far holds what the image says |
| `Population.PopulateImage` | kernel/src/process/populate.rs:29-80 | for any load the outcome is that of the first page that is missing or out of reach; on success in the load mapped for the image every byte of every image page is the file byte its segment assigns it, or zero |
| `Population.FillOutcomeMeans` | kernel/src/process/populate.rs:58-60 | the copy goes through if and only if every image page is in the load over a frame the direct map reaches |
| `Population.MappedOutcome` | kernel/src/process/populate.rs:58-65 | in the load mapped for the image no page is missing, so only a frame out of reach can stop the copy |
| `Population.FillFaultIs` | kernel/src/process/populate.rs:58-65 | a page can be filled exactly when it was mapped and the direct map reaches the end of its frame; which error there is otherwise |
| `Population.ReachesIff` | kernel/src/arch/x86_64/image_writer.rs:25-49 | bytes can be written exactly when the direct map's address of their end is a 64-bit one |
| `Population.PopulateEnds` | kernel/src/process/populated_address_space.rs:27-45 | filling ends with the first page of the image that cannot be filled, else with a stack page out of reach |
| `Population.Populate` | kernel/src/process/populated_address_space.rs:27-45 | image pages hold the image, stack pages zeros; later clearing never erases earlier bytes; which error is returned is determined for any load |
| `Loading.BuildProcessImage` | kernel/src/process/ramdisk_image.rs:16-25 | succeeds if and only if the bytes parse and plan; otherwise the error is the parser's for a file it refuses, else the planner's; stack and context errors are unreachable |
| `Loading.PlannedImageIs` | kernel/src/process/ramdisk_image.rs:16-25 | what is planned for an executable: its entry point, the pages and permission of each segment and the stack, in the given space |
| `Loading.ImageRefusalUnique` | kernel/src/process/ramdisk_image.rs:16-25 | the bytes determine which error that is |
| `Loading.ContextLaunches` | kernel/src/process/ramdisk_image.rs:16-25 | the initial context that is accepted here is one that a launch can be made of |
| `Loading.SegmentLoaded` | kernel/src/process/populate.rs:29-80 | every address of every segment reads as the program headers say, under a permission that is writable exactly if bit 1 of its flags is set and executable exactly if bit 0 is |
| `Loading.PaddingLoaded` | kernel/src/process/populate.rs:61-65 | the rest of every image page reads as zero |
| `Loading.StackLoaded` | kernel/src/process/populated_address_space.rs:35-42 | every stack address reads as zero, read-write and not executable |
| `Loading.PopulateAsPlanned` | kernel/src/process/populated_address_space.rs:27-45 | filling a built space fails if and only if the direct map misses one of the frames that were due, and the error says whether it was one of the image |
| `Loading.BuildAndFill` | kernel/src/arch/x86_64/process_loader.rs:50-55 | mapping and population together: what the process finds at every address, or the determined failure, with the mapping as it was if the build failed |
| `Loading.NewUserRoot` | kernel/src/arch/x86_64/address_space.rs:35-67 | a root takes one frame, has an empty user half and the kernel half of the active root, or the error says what was missing |
| `Loading.KernelHalfIs` | kernel/src/arch/x86_64/address_space.rs:35-67 | the kernel half is the 256 entries of a table from index 256 on |
| `Loading.LoadSucceedsIff` | kernel/src/arch/x86_64/process_loader.rs:27-65 | a load succeeds exactly when there is a frame for the root, the direct map reaches it and the active root, the image is for this space and has at most 128 pages, no request is refused, the frames cover pages and tables, and the direct map reaches the end of every page |
| `Loading.LoadErrorIs` | kernel/src/arch/x86_64/process_loader.rs:27-65 | which error a failed load reports |
| `Loading.MappedExactly` | kernel/src/process/address_space_builder.rs:59-84 | a page of a built space is mapped exactly when it holds bytes of a segment or is a stack page; the guard page and everything else is not |
| `Loading.TakenForGood` | kernel/src/memory/frame.rs:53-61 | the frames of root and pages differ from each other and from everything the allocator still has |
| `Loading.LoadProcessImage` | kernel/src/arch/x86_64/process_loader.rs:27-65 | end to end: a new root with the kernel half of the active one, and under it, at every address, the file bytes and zeros of the executable, writable exactly if bit 1 of the segment's flags is set and executable exactly if bit 0 is; root and pages use different frames, none of which is on offer any more; success and every error are determined by the state before the call; any failure gives every frame back, and no frame outside the supply is written |
| `PageWalks.Flags` | kernel/src/arch/x86_64/user_memory.rs:34-61 | the permission walk computes what `FlagsMeaning` says of the tables; it finds a page if and only if the translation walk does |
| `PageWalks.Translate` | kernel/src/arch/x86_64/user_memory.rs:65-85 | the translation walk computes what `TranslationMeaning` says of the tables, for 4 KiB, 2 MiB and 1 GiB pages |
| `PageWalks.FlagsMeaning` | kernel/src/arch/x86_64/user_memory.rs:34-61 | an address has permissions exactly when it is a user address with a path of present entries from the root to a leaf, and then user and write access if every entry grants it and no execution if any forbids it |
| `PageWalks.TranslationMeaning` | kernel/src/arch/x86_64/user_memory.rs:65-85 | an address translates exactly when it has such a path: to the leaf's frame plus the offset in a page of the leaf's size |
| `PageWalks.AddressSplits` | kernel/src/arch/x86_64/user_memory.rs:36-38 | an entry of each level covers 512 of the next and the last a page, so the low 48 bits of an address are its four indices and an offset |
| `PageWalks.SameIndicesSamePage` | kernel/src/arch/x86_64/user_memory.rs:36-38 | below 2^48 two addresses have the same four indices exactly when they lie in one page |
| `PageWalks.NoOverflow` | kernel/src/arch/x86_64/user_memory.rs:74-79 | the sum of frame and offset never wraps |
| `PageWalks.SamePath` | kernel/src/arch/x86_64/user_memory.rs:43-59 | addresses of one page follow one path at every level |
| `PageWalks.OffsetPreserved` | kernel/src/arch/x86_64/user_memory.rs:65-85 | inside a 4 KiB page translation is that of the page plus the offset |
| `PageWalks.ViewIsCoherent` | kernel/src/arch/x86_64/user_memory.rs:64-99 | every page table gives a view on which the readers may rely |
| `UserReads.ValidateReadableRange` | kernel/src/memory/user_copy.rs:25-53 | the page loop reports the fault of the first page it cannot read, after the range errors; `ReadFaultMeans` and `SliceAcceptedIff` say which those are |
| `UserReads.ReadFaultMeans` | kernel/src/memory/user_copy.rs:34-50 | a range is readable exactly when every byte of it lies in a page that is mapped and for user code; otherwise the fault is that of the first byte that does not, Unmapped if nothing is mapped there and NotUserAccessible if something is |
| `UserReads.SliceAcceptedIff` | kernel/src/memory/user.rs:17-34 | a slice is accepted exactly when it is empty or lies in user space, as the range of its own bytes; which error each other one gets |
| `UserReads.BackendFaultMeans` | kernel/src/arch/x86_64/user_copy.rs:23-49 | a copy goes through exactly when every chunk can be started; otherwise which error the first that cannot gives |
| `UserReads.CopyPages` | kernel/src/arch/x86_64/user_copy.rs:23-49 | page-sized copies make up one flat read of user memory, or stop with the fault of the first page that is unmapped or that the direct map misses |
| `UserReads.ReadableCopies` | kernel/src/memory/user_copy.rs:55-66 | a range that passed the readability check is copied unless the direct map misses a page of it |
| `UserReads.CopyFromUser` | kernel/src/memory/user_copy.rs:55-66 | the buffer holds the flat read, or the fault says why not: a range error, the first byte outside the user's pages, or the direct map |
| `Syscalls.ErrorRoundTrip` | abi/src/lib.rs:41-57 | a return value decodes as an error if and only if it is that error's encoding |
| `Syscalls.ErrorNumbers` | kernel/src/syscall.rs:34-47 | the number in the result register for each kind of error |
| `Syscalls.WriteSlice` | kernel/src/syscall.rs:185-213 | 256-byte chunks refine one flat read: all bytes in order, or exactly the chunks before the first that cannot be read or that the sink refuses, with the error of that chunk |
| `Syscalls.WriteChunk` | kernel/src/syscall.rs:197-210 | one chunk is delivered, or nothing of it is and the error says whether reading or the sink failed |
| `Syscalls.WriteSucceedsIff` | kernel/src/syscall.rs:185-213 | a write succeeds if and only if every chunk can be read and the sink takes every chunk |
| `Syscalls.PassedIff` | kernel/src/syscall.rs:197-210 | that is, when every byte lies in a page mapped for user code, the direct map reaches every 256-byte chunk and the sink takes every chunk |
| `Syscalls.OutcomeUnique` | kernel/src/syscall.rs:185-213 | result and delivered bytes are determined by the buffer, the page tables and what the sink takes |
| `Syscalls.WriteErrorMeans` | kernel/src/syscall.rs:201-210 | which error a failed write reports: whether the first byte of the failing chunk outside the user's pages is unmapped or not the user's, else the direct map, else the sink; every byte before it was readable |
| `Syscalls.DeliversUserBytes` | kernel/src/syscall.rs:185-213 | however a write ends, every byte it delivered is the one its page tables map at that address, in a page mapped for user code |
| `Syscalls.NothingWrittenIff` | kernel/src/syscall.rs:201-210 | a failed read leaves the sink untouched if and only if the first chunk is the bad one, against the prose of docs/SYSCALL_ABI.md |
| `Syscalls.PartialWrite` | kernel/src/syscall.rs:201-210 | page tables and a write over them that delivers 256 bytes and then fails |
| `Syscalls.OutcomeDecodes` | kernel/src/syscall.rs:34-47 | a successful write returns the length of the slice, which never decodes as an error; an error always decodes as itself |
| `Syscalls.SysWrite` | kernel/src/syscall.rs:147-153 | the system call over page tables, from argument check to result register; it succeeds if and only if every chunk can be read and taken, and every byte it delivers is that of a page mapped for user code |
| `Frames.EarlyFrameAllocator.SelectNextUsableRegion` | kernel/src/memory/frame.rs:63-74 | moves to the first later region with an aligned address to offer, or reports that there is none |
| `Frames.EarlyFrameAllocator.AllocateFrame` | kernel/src/memory/frame.rs:96-107 | the loop refines one step of the cursor |
| `Frames.EarlyFrameAllocator.AllocateContiguous` | kernel/src/memory/frame.rs:76-92 | the loop computes the run that `RunFromCurrent` and `RunFromLater` describe: the first region from the cursor on with room; a request that would overflow changes nothing |
| `Frames.EarlyFrameAllocator.Rollback` | kernel/src/memory/frame.rs:53-61 | the cursor is the checkpoint again, so every later answer repeats |
| `Frames.RunGrants` | kernel/src/memory/frame.rs:76-92 | a contiguous run lies wholly inside one usable region and overlaps nothing handed out before |
| `Frames.RunGrantedIff` | kernel/src/memory/frame.rs:76-92 | where no sum overflows, a run is granted exactly when the region in use or a later one has room: at the cursor, or at the first page of the first region with room |
| `Frames.RunFromCurrent` | kernel/src/memory/frame.rs:80-87 | a run that fits the region in use starts at the cursor and moves it by its length |
| `Frames.RunFromLater` | kernel/src/memory/frame.rs:79-91 | otherwise the first later region with room, or in which the sum overflows, settles it; the cursor after every outcome |
| `Frames.RunRefused` | kernel/src/memory/frame.rs:77-78 | no frames, or more bytes than a word counts, are refused and change nothing |
| `Frames.RunExamples` | kernel/src/memory/frame.rs:154-176 | four frames of one region and the frame after them; a second run that fits the first region is served from there |
| `Frames.FrameFromCurrent` | kernel/src/memory/frame.rs:96-103 | a single frame is the cursor's while its region lasts |
| `Frames.FrameFromLater` | kernel/src/memory/frame.rs:96-107 | after that it is the first page of the first region that has one |
| `Frames.OffersIff` | kernel/src/memory/frame.rs:63-74 | a region is used exactly when it is usable and an aligned 64-bit address lies in it, and from the first of these on |
| `Frames.FramesAreDisjoint` | kernel/src/memory/frame.rs:53-107 | over any mix of requests on disjoint usable regions all frames are aligned and no two share a byte |
| `Frames.GivenIff` | kernel/src/memory/frame.rs:63-107 | a frame is handed out by some mix of requests if and only if a region that the cursor can get to holds its start and the next frame address does not overflow |
| `Frames.AlignedEndsSuffice` | kernel/src/memory/frame.rs:96-107 | if every region that can be left behind ends on a page boundary, every frame of every run lies inside one usable region |
| `Frames.UnalignedEndLeaks` | kernel/src/memory/frame.rs:96-107 | a region that can be left behind and ends inside a page gives out, after enough single requests, a last frame that sticks out |
| `Frames.FramesInsideIff` | kernel/src/memory/frame.rs:96-107 | on disjoint regions every frame of every run lies inside one usable region if and only if every region that can be left behind ends on a page boundary |
| `Frames.FrameOutside` | kernel/src/memory/frame.rs:96-107 | a region whose only frame sticks out of it, and one whose unaligned end does no harm because the next frame address overflows |
| `Clock.TicksToNanosIsFloor` | kernel/src/arch/x86_64/tsc.rs:139-150 | the split conversion is the exact floor, and is refused if and only if that does not fit in 64 bits |
| `Clock.DeadlineIs` | kernel/src/arch/x86_64/lapic_timer.rs:268-280 | a deadline falls due the whole number of ticks in its nanoseconds after the start, if that fits in 64 bits |
| `Clock.DeadlineRoundTrip` | kernel/src/arch/x86_64/lapic_timer.rs:268-280 | at the tick chosen for a deadline the clock shows at most the deadline, less by at most one tick rounded up, and one tick later it has reached it |

## Left out

- Naked assembly, CR3, GDT, IDT, TSS, MSR and port access: hardware effects. Kernel stack top, page-table
  root and CPU-local slots are plain fields.
- The page-table mapper of the `x86_64` crate: `AddressSpaces.Mapper` is a finite map whose requests may be
  refused and may use up frames for page tables in any way. Canonical addresses are not modelled.
- Raw pointers and frame contents outside the frames handed out: physical memory is a map from frames to
  4096 bytes (loading) or a total function from addresses to bytes (reading).
- The bytes of page tables, apart from those of a new root: which frames they take is modelled, what the
  mapper writes into them is not.
- Syscalls.Sink.Write: a refused write takes nothing; a sink that keeps part of a refused write is not modelled.
- Kernel tasks that exit inside the timer-preemption machine, and voluntary switches (`dispatch_once` with a
  previous task): no runtime caller, or the saved context is rewritten by assembly.
- Ready queues that mix kernel and userspace tasks. Runs of the protocol in which a start is asked for while
  a process runs; `SystemRuntimes.SystemRuntime.StartUser` states what that call does.
- SystemRuntimes.SystemRuntime.SpawnUserReady: asks for an id that fits in 32 bits; with 2^32 task slots in
  use the slot index is cut off (`SchedulerState.NextIdIsNew` gives the exact condition).
- KernelTasks.KernelTaskManager.Spawn: asks for the same.
- Schedulers.Scheduler.CreateTask: states that the invariant is kept only when the id fits in 32 bits.
- KernelRuntimes.KernelRuntime.DispatchFirst: states the dispatch with nobody on the CPU; otherwise the
  saved context is written by assembly.
- KernelRuns.DisableNests: the depth is unbounded; the source saturates it at 2^64 - 1.
- Loading.LoadProcessImage: asks that the frames of the supply and the active root exist in the modelled
  memory, and that the active root is not on offer.
- `block_current` without a wait queue as an object method; it is the `EBlock(false)` step of `SchedulerState`.
- Rotation, removal, snapshots and lengths of the queues, and the next sleep deadline: easy members.
- The heap, ACPI, APIC, interrupt routing, serial output, boot and main: device plumbing and library code.
- Older parallel versions: kernel/src/arch/x86_64/process_runtime.rs, user_execution_registry.rs,
  scheduler.rs and kernel/src/process/scheduler_binding.rs.
- Clock readings and interrupt arrival: events and parameters of the model.
