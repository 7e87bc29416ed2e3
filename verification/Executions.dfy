/** Captured CPU state (kernel/src/arch/x86_64/interrupted_state.rs). */
module Snapshots {
  import opened Prelude

  /** General registers and the return frame; `rsp` and `ss` exist only when the frame crosses rings. */
  datatype InterruptedState = InterruptedState(
    registers: seq<nat>, rip: nat, cs: nat, rflags: nat, resumeRsp: nat, rsp: Option<nat>, ss: Option<nat>)

  predicate Bit(word: nat, value: nat)
    requires value > 0
  {
    word / value % 2 == 1
  }

  predicate IsKernel(s: InterruptedState) {
    s.cs % 4 == 0
  }

  predicate IsUser(s: InterruptedState) {
    s.cs % 4 == 3
  }

  predicate IsValid(s: InterruptedState) {
    && s.rip != 0
    && Bit(s.rflags, 2)
    && s.resumeRsp != 0
    && (IsKernel(s) || (s.rsp.Some? && s.ss.Some?))
  }

  predicate IsUserValid(s: InterruptedState) {
    IsValid(s) && IsUser(s) && s.rsp.Some? && s.ss.Some? && s.ss.value % 4 == 3
  }

  /** The three words a same-ring `iretq` pops, if the snapshot can be returned to that way. */
  function KernelIretWords(s: InterruptedState): Option<(nat, nat, nat)> {
    if !IsKernel(s) || s.rip == 0 || !Bit(s.rflags, 2) || s.resumeRsp == 0 then None
    else Some((s.rip, s.cs, s.rflags))
  }

  /** A snapshot is refused exactly when it has nowhere to return to: no code, no stack, bad flags or no words to cross rings. */
  lemma RefusedIff(s: InterruptedState)
    ensures !IsValid(s) <==>
      s.rip == 0 || s.resumeRsp == 0 || s.rflags / 2 % 2 == 0 || (s.cs % 4 != 0 && (s.rsp.None? || s.ss.None?))
    ensures IsUserValid(s) <==>
      && s.rip != 0 && s.resumeRsp != 0 && s.rflags / 2 % 2 == 1 && s.cs % 4 == 3
      && s.rsp.Some? && s.ss.Some? && s.ss.value % 4 == 3
  {
  }

  /** A valid snapshot has exactly one way back: the same-ring return, with its own words, or the ring-3 check can apply. */
  lemma OneReturnPath(s: InterruptedState)
    requires IsValid(s)
    ensures KernelIretWords(s) == if s.cs % 4 == 0 then Some((s.rip, s.cs, s.rflags)) else None
    ensures KernelIretWords(s).Some? ==> !IsUserValid(s)
  {
  }
}

/** Tables of per-task bindings: lists with holes, searched from the front. */
module Registries {
  import opened Prelude
  import opened Tasks

  datatype Entry<+B> = Entry(task: TaskId, binding: B)

  ghost predicate Unique<B>(es: seq<Option<Entry<B>>>) {
    forall i, j | 0 <= i < j < |es| && es[i].Some? && es[j].Some? :: es[i].value.task != es[j].value.task
  }

  predicate Holds<B>(es: seq<Option<Entry<B>>>, i: nat, task: TaskId) {
    i < |es| && es[i].Some? && es[i].value.task == task
  }

  ghost function Contents<B>(es: seq<Option<Entry<B>>>): map<TaskId, B>
    requires Unique(es)
  {
    map i | 0 <= i < |es| && es[i].Some? :: es[i].value.task := es[i].value.binding
  }

  /** Position at or after `from` of the task's entry, or the length of the list. */
  function IndexFrom<B>(es: seq<Option<Entry<B>>>, task: TaskId, from: nat): (i: nat)
    requires from <= |es|
    ensures from <= i <= |es|
    ensures forall j | from <= j < i :: !Holds(es, j, task)
    ensures i < |es| ==> Holds(es, i, task)
    decreases |es| - from
  {
    if from == |es| || Holds(es, from, task) then from else IndexFrom(es, task, from + 1)
  }

  function IndexOf<B>(es: seq<Option<Entry<B>>>, task: TaskId): nat {
    IndexFrom(es, task, 0)
  }

  lemma ContentsAt<B>(es: seq<Option<Entry<B>>>, task: TaskId)
    requires Unique(es)
    ensures task in Contents(es) <==> IndexOf(es, task) < |es|
    ensures task in Contents(es) ==> Contents(es)[task] == es[IndexOf(es, task)].value.binding
  {
    if task in Contents(es) {
      var i :| 0 <= i < |es| && es[i].Some? && es[i].value.task == task;
      assert Holds(es, i, task);
    }
  }

  /** Writing one position changes only the task that was there and the task put there. */
  lemma ContentsElsewhere<B>(es: seq<Option<Entry<B>>>, i: nat, e: Option<Entry<B>>, t: TaskId)
    requires i < |es| && Unique(es) && Unique(es[i := e])
    requires !Holds(es, i, t) && !Holds(es[i := e], i, t)
    ensures t in Contents(es[i := e]) <==> t in Contents(es)
    ensures t in Contents(es) ==> Contents(es[i := e])[t] == Contents(es)[t]
  {
    var r := es[i := e];
    if t in Contents(es) {
      var j :| 0 <= j < |es| && es[j].Some? && es[j].value.task == t;
      assert Holds(es, j, t) && r[j] == es[j];
    }
    if t in Contents(r) {
      var j :| 0 <= j < |r| && r[j].Some? && r[j].value.task == t;
      assert Holds(r, j, t) && r[j] == es[j];
    }
  }

  lemma ContentsWrite<B>(es: seq<Option<Entry<B>>>, i: nat, e: Entry<B>)
    requires Unique(es) && i < |es|
    requires Holds(es, i, e.task) || (es[i].None? && IndexOf(es, e.task) == |es|)
    ensures Unique(es[i := Some(e)])
    ensures Contents(es[i := Some(e)]) == Contents(es)[e.task := e.binding]
  {
    var r := es[i := Some(e)];
    forall j | 0 <= j < |es| && j != i && es[j].Some? ensures es[j].value.task != e.task {
      assert !Holds(es, j, e.task);
    }
    assert r[i] == Some(e);
    forall t | t != e.task
      ensures t in Contents(r) <==> t in Contents(es)
      ensures t in Contents(es) ==> Contents(r)[t] == Contents(es)[t]
    {
      ContentsElsewhere(es, i, Some(e), t);
    }
  }

  lemma ContentsErase<B>(es: seq<Option<Entry<B>>>, i: nat, task: TaskId)
    requires Unique(es) && Holds(es, i, task)
    ensures Unique(es[i := None])
    ensures Contents(es[i := None]) == Contents(es) - {task}
  {
    forall t | t != task
      ensures t in Contents(es[i := None]) <==> t in Contents(es)
      ensures t in Contents(es) ==> Contents(es[i := None])[t] == Contents(es)[t]
    {
      ContentsElsewhere(es, i, None, t);
    }
  }

  lemma ContentsPush<B>(es: seq<Option<Entry<B>>>, e: Entry<B>)
    requires Unique(es) && IndexOf(es, e.task) == |es|
    ensures Unique(es + [Some(e)])
    ensures Contents(es + [Some(e)]) == Contents(es)[e.task := e.binding]
  {
    var r := es + [Some(e)];
    forall j | 0 <= j < |es| && es[j].Some? ensures es[j].value.task != e.task {
      assert !Holds(es, j, e.task);
    }
    assert Unique(r);
    forall t ensures t in Contents(r) <==> t == e.task || t in Contents(es) {
      if t in Contents(es) {
        var i :| 0 <= i < |es| && es[i].Some? && es[i].value.task == t;
        assert r[i] == es[i];
      }
      assert r[|es|] == Some(e);
    }
    forall t | t in Contents(es) ensures Contents(r)[t] == Contents(es)[t] {
      var i :| 0 <= i < |es| && es[i].Some? && es[i].value.task == t;
      assert r[i] == es[i];
    }
  }

  class Registry<B> {
    var entries: seq<Option<Entry<B>>>
    ghost var contents: map<TaskId, B>

    ghost predicate Valid()
      reads this
    {
      Unique(entries) && contents == Contents(entries)
    }

    constructor ()
      ensures Valid() && contents == map[]
    {
      entries := [];
      contents := map[];
    }

    method Get(task: TaskId) returns (b: Option<B>)
      requires Valid()
      ensures b == if task in contents then Some(contents[task]) else None
    {
      ContentsAt(entries, task);
      var i := IndexOf(entries, task);
      return if i < |entries| then Some(entries[i].value.binding) else None;
    }

    /** Rewrites the binding of a task that has one. */
    method Set(task: TaskId, b: B)
      requires Valid() && task in contents
      modifies this
      ensures Valid() && contents == old(contents)[task := b]
    {
      ContentsAt(entries, task);
      var i := IndexOf(entries, task);
      ContentsWrite(entries, i, Entry(task, b));
      entries := entries[i := Some(Entry(task, b))];
      contents := contents[task := b];
    }

    /** Appends; a hole left by a removal is not reused. */
    method Push(task: TaskId, b: B) returns (ok: bool)
      requires Valid()
      modifies this
      ensures Valid() && ok == (task !in old(contents))
      ensures contents == if ok then old(contents)[task := b] else old(contents)
    {
      ContentsAt(entries, task);
      if IndexOf(entries, task) < |entries| {
        return false;
      }
      ContentsPush(entries, Entry(task, b));
      entries := entries + [Some(Entry(task, b))];
      contents := contents[task := b];
      return true;
    }

    /** Fills the first hole, or appends. */
    method Place(task: TaskId, b: B) returns (ok: bool)
      requires Valid()
      modifies this
      ensures Valid() && ok == (task !in old(contents))
      ensures contents == if ok then old(contents)[task := b] else old(contents)
    {
      ContentsAt(entries, task);
      if IndexOf(entries, task) < |entries| {
        return false;
      }
      var hole := 0;
      while hole < |entries| && entries[hole].Some?
        invariant 0 <= hole <= |entries|
      {
        hole := hole + 1;
      }
      contents := contents[task := b];
      if hole < |entries| {
        ContentsWrite(entries, hole, Entry(task, b));
        entries := entries[hole := Some(Entry(task, b))];
        return true;
      }
      ContentsPush(entries, Entry(task, b));
      entries := entries + [Some(Entry(task, b))];
      return true;
    }

    method Remove(task: TaskId) returns (b: Option<B>)
      requires Valid()
      modifies this
      ensures Valid() && contents == old(contents) - {task}
      ensures b == if task in old(contents) then Some(old(contents)[task]) else None
    {
      ContentsAt(entries, task);
      var i := IndexOf(entries, task);
      if i == |entries| {
        assert contents - {task} == contents;
        contents := contents - {task};
        return None;
      }
      b := Some(entries[i].value.binding);
      ContentsErase(entries, i, task);
      entries := entries[i := None];
      contents := contents - {task};
    }
  }
}

/** What the two registries keep for a task (execution.rs, user_execution.rs, user_launch.rs). */
module Bindings {
  import opened Prelude
  import opened Snapshots
  import opened Layout
  import opened Processes

  /** The registers of a cooperative switch that matter here. */
  datatype Context = Context(rsp: nat, r12: nat, rip: nat) {
    predicate Initialized() {
      rsp != 0 && rip != 0
    }
  }

  /** Address of code. */
  type CodeAddress = a: nat | a != 0 witness 1

  /** What the heap returns for a kernel stack and its activation record. */
  datatype StackAllocation = StackAllocation(top: nat, activation: nat, trampoline: CodeAddress)

  /** First context of a kernel task: 16-byte aligned stack less one return slot. */
  function Bootstrap(a: StackAllocation): Option<Context> {
    if a.top < 8 then None
    else Some(Context((a.top - 8) / 16 * 16 + 8, a.activation, a.trampoline))
  }

  datatype ExecBinding = ExecBinding(stackTop: nat, activation: nat, context: Context, interrupted: Option<InterruptedState>)

  predicate ExecOk(b: ExecBinding) {
    b.context.Initialized() && b.context.r12 == b.activation && (b.interrupted.Some? ==> IsValid(b.interrupted.value))
  }

  /** `None` when the stack cannot be allocated or used. */
  function NewExec(a: Option<StackAllocation>): (b: Option<ExecBinding>)
    ensures b.Some? ==> ExecOk(b.value) && b.value.interrupted.None?
  {
    if a.None? then None
    else match Bootstrap(a.value)
      case None => None
      case Some(context) => Some(ExecBinding(a.value.top, a.value.activation, context, None))
  }

  /**
   A kernel stack can be used exactly when it has room for a return slot. Its task starts at the trampoline, with the
   activation record at hand and the stack pointer that a call on the 16-byte aligned top would leave.
   */
  lemma FreshExec(a: StackAllocation)
    ensures NewExec(None).None? && (NewExec(Some(a)).Some? <==> 8 <= a.top)
    ensures 8 <= a.top ==> var b := NewExec(Some(a)).value;
      && b.stackTop == a.top && b.activation == a.activation && b.interrupted.None?
      && b.context.rip == a.trampoline && b.context.r12 == a.activation
      && b.context.rsp % 16 == 8 && b.context.rsp <= a.top < b.context.rsp + 16
  {
  }

  datatype ReturnFrame = ReturnFrame(rip: nat, cs: nat, rflags: nat, rsp: nat, ss: nat)

  datatype Launch = Launch(addressSpace: nat, root: nat, frame: ReturnFrame)

  predicate FrameOk(f: ReturnFrame) {
    f.cs % 4 == 3 && f.ss % 4 == 3 && Bit(f.rflags, 2) && Bit(f.rflags, 512)
  }

  /** A frame returns to ring 3 with interrupts on. */
  lemma FrameOkIff(f: ReturnFrame)
    ensures FrameOk(f) <==> f.cs % 4 == 3 && f.ss % 4 == 3 && f.rflags / 2 % 2 == 1 && f.rflags / 512 % 2 == 1
  {
  }

  const USER_CODE_SELECTOR: nat := 0x1b
  const USER_DATA_SELECTOR: nat := 0x13

  /** The only way to make a launch: entry in user space, aligned stack pointer in the user stack. */
  function PrepareLaunch(root: nat, addressSpace: nat, entry: nat, stackPointer: nat): (l: Option<Launch>)
    ensures l.Some? ==> FrameOk(l.value.frame) && l.value.addressSpace == addressSpace
  {
    if USER_SPACE_START <= entry < KERNEL_SPACE_START && STACK_START <= stackPointer <= STACK_TOP && stackPointer % 16 == 0
    then Some(Launch(addressSpace, root, ReturnFrame(entry, USER_CODE_SELECTOR, 0x202, stackPointer, USER_DATA_SELECTOR)))
    else None
  }

  /**
   A launch is made exactly for an entry in user space and an aligned stack pointer in the mapped stack. It enters the
   entry on that stack, in ring 3 with interrupts on, under the given root.
   */
  lemma LaunchMeans(root: nat, addressSpace: nat, entry: nat, stackPointer: nat)
    ensures PrepareLaunch(root, addressSpace, entry, stackPointer).Some? <==>
      && 0x1_0000 <= entry < 0xffff_8000_0000_0000
      && 0xffff_7fff_fffe_f000 <= stackPointer <= 0xffff_7fff_ffff_f000 && stackPointer % 16 == 0
    ensures PrepareLaunch(root, addressSpace, entry, stackPointer).Some? ==>
      var l := PrepareLaunch(root, addressSpace, entry, stackPointer).value;
      && l.root == root && l.addressSpace == addressSpace && l.frame.rip == entry && l.frame.rsp == stackPointer
      && l.frame.cs == 0x1b && l.frame.ss == 0x13 && l.frame.rflags == 0x202
  {
  }

  /** `resume` is the snapshot taken when the task last left the CPU. */
  datatype UserBinding = UserBinding(process: ProcessId, addressSpace: nat, launch: Launch, resume: Option<InterruptedState>)
}
