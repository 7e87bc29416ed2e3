/** The ready, wait and deadline queues (kernel/src/scheduler/{run,wait,sleep}_queue.rs). */
module Queues {
  import opened Prelude
  import opened Tasks

  /** FIFO of ready tasks; refuses a task it already holds. */
  class RunQueue {
    var queue: seq<TaskId>

    constructor ()
      ensures queue == []
    {
      queue := [];
    }

    method Push(id: TaskId) returns (pushed: bool)
      modifies this
      ensures pushed == (id !in old(queue))
      ensures queue == if pushed then old(queue) + [id] else old(queue)
    {
      if id in queue {
        return false;
      }
      queue := queue + [id];
      return true;
    }

    function Peek(): Option<TaskId>
      reads this
    {
      if queue == [] then None else Some(queue[0])
    }

    method Pop() returns (id: Option<TaskId>)
      modifies this
      ensures old(queue) == [] ==> id == None && queue == []
      ensures old(queue) != [] ==> id == Some(old(queue)[0]) && queue == old(queue)[1..]
    {
      if queue == [] {
        return None;
      }
      id := Some(queue[0]);
      queue := queue[1..];
    }
  }

  /** FIFO of blocked tasks waiting for one event. */
  class WaitQueue {
    var queue: seq<TaskId>

    constructor ()
      ensures queue == []
    {
      queue := [];
    }

    method Enqueue(id: TaskId) returns (queued: bool)
      modifies this
      ensures queued == (id !in old(queue))
      ensures queue == if queued then old(queue) + [id] else old(queue)
    {
      if id in queue {
        return false;
      }
      queue := queue + [id];
      return true;
    }

    method Dequeue() returns (id: Option<TaskId>)
      modifies this
      ensures old(queue) == [] ==> id == None && queue == []
      ensures old(queue) != [] ==> id == Some(old(queue)[0]) && queue == old(queue)[1..]
    {
      if queue == [] {
        return None;
      }
      id := Some(queue[0]);
      queue := queue[1..];
    }
  }

  datatype SleepEntry = SleepEntry(deadline: nat, task: TaskId)

  predicate EntryLess(a: SleepEntry, b: SleepEntry) {
    a.deadline < b.deadline || (a.deadline == b.deadline && IdLess(a.task, b.task))
  }

  /** Earlier deadlines first, and among equal ones lower slots, and in one slot older generations. */
  lemma EntryOrder(a: SleepEntry, b: SleepEntry)
    ensures EntryLess(a, b) <==>
      || a.deadline < b.deadline
      || (a.deadline == b.deadline && a.task.index < b.task.index)
      || (a.deadline == b.deadline && a.task.index == b.task.index && a.task.generation < b.task.generation)
    ensures EntryLess(a, b) || EntryLess(b, a) || a == b
    ensures !(EntryLess(a, b) && EntryLess(b, a))
  {
  }

  ghost predicate Sorted(q: seq<SleepEntry>) {
    forall i, j | 0 <= i < j < |q| :: EntryLess(q[i], q[j])
  }

  predicate Sleeping(q: seq<SleepEntry>, id: TaskId) {
    exists i | 0 <= i < |q| :: q[i].task == id
  }

  /** One entry per task. */
  ghost predicate OncePerTask(q: seq<SleepEntry>) {
    forall i, j | 0 <= i < j < |q| :: q[i].task != q[j].task
  }

  ghost predicate SamePairs(a: seq<SleepEntry>, b: seq<SleepEntry>) {
    forall e :: e in a <==> e in b
  }

  /** The leading entries of `q` that do not come after `e`. */
  function Position(q: seq<SleepEntry>, e: SleepEntry): (n: nat)
    ensures n <= |q|
    ensures forall i | 0 <= i < n :: !EntryLess(e, q[i])
    ensures n < |q| ==> EntryLess(e, q[n])
  {
    if q == [] || EntryLess(e, q[0]) then 0 else 1 + Position(q[1..], e)
  }

  function Inserted(q: seq<SleepEntry>, e: SleepEntry): seq<SleepEntry> {
    var p := Position(q, e);
    q[..p] + [e] + q[p..]
  }

  /** The leading entries of `q` that are due at `now`. */
  function DueCount(q: seq<SleepEntry>, now: nat): (n: nat)
    ensures n <= |q|
    ensures forall i | 0 <= i < n :: q[i].deadline <= now
    ensures n < |q| ==> q[n].deadline > now
  {
    if q == [] || q[0].deadline > now then 0 else 1 + DueCount(q[1..], now)
  }

  function TasksOf(q: seq<SleepEntry>): (ids: seq<TaskId>)
    ensures |ids| == |q|
    ensures forall i | 0 <= i < |q| :: ids[i] == q[i].task
  {
    seq(|q|, i requires 0 <= i < |q| => q[i].task)
  }

  lemma InsertedAt(q: seq<SleepEntry>, e: SleepEntry, i: nat)
    requires i <= |q|
    ensures |Inserted(q, e)| == |q| + 1
    ensures Inserted(q, e)[i] == if i < Position(q, e) then q[i] else if i == Position(q, e) then e else q[i - 1]
  {
  }

  /** Inserting a task that is not asleep keeps the order and adds exactly that pair. */
  lemma InsertKeepsOrder(q: seq<SleepEntry>, e: SleepEntry)
    requires Sorted(q) && OncePerTask(q) && !Sleeping(q, e.task)
    ensures Sorted(Inserted(q, e)) && OncePerTask(Inserted(q, e))
    ensures forall x :: x in Inserted(q, e) <==> x in q || x == e
  {
    var p, r := Position(q, e), Inserted(q, e);
    PositionSplits(q, e);
    forall i, j | 0 <= i < j < |r| ensures EntryLess(r[i], r[j]) && r[i].task != r[j].task {
      InsertedAt(q, e, i);
      InsertedAt(q, e, j);
    }
    InsertedContents(q, e, p);
  }

  lemma InsertedContents(q: seq<SleepEntry>, e: SleepEntry, p: nat)
    requires p <= |q|
    ensures forall x :: x in q[..p] + [e] + q[p..] <==> x in q || x == e
  {
    assert q == q[..p] + q[p..];
  }

  lemma PositionSplits(q: seq<SleepEntry>, e: SleepEntry)
    requires Sorted(q) && !Sleeping(q, e.task)
    ensures forall i | 0 <= i < Position(q, e) :: EntryLess(q[i], e)
    ensures forall i | Position(q, e) <= i < |q| :: EntryLess(e, q[i])
  {
    var p := Position(q, e);
    forall i | 0 <= i < p ensures EntryLess(q[i], e) {
      assert q[i].task != e.task;
    }
    if p < |q| {
      assert forall i | p < i < |q| :: EntryLess(q[p], q[i]);
    }
  }

  /** At `now`, exactly the entries before the split point are due. */
  lemma DueIsPrefix(q: seq<SleepEntry>, now: nat)
    requires Sorted(q)
    ensures forall i | 0 <= i < |q| :: i < DueCount(q, now) <==> q[i].deadline <= now
  {
    var n := DueCount(q, now);
    if n < |q| {
      assert forall i | n < i < |q| :: EntryLess(q[n], q[i]);
    }
  }

  /** The queue is a function of the set of pairs it holds, whatever the insertion order was. */
  lemma {:induction false} SortedDeterminedByPairs(a: seq<SleepEntry>, b: seq<SleepEntry>)
    requires Sorted(a) && Sorted(b) && SamePairs(a, b)
    ensures a == b
  {
    assert a != [] ==> a[0] in b;
    assert b != [] ==> b[0] in a;
    if a != [] && b != [] {
      assert a[0] == b[0];
      assert a == [a[0]] + a[1..] && b == [b[0]] + b[1..];
      assert a[0] !in a[1..] && b[0] !in b[1..];
      assert forall e :: e in a <==> e == a[0] || e in a[1..];
      assert forall e :: e in b <==> e == b[0] || e in b[1..];
      SortedDeterminedByPairs(a[1..], b[1..]);
    }
  }

  /** A sorted queue without its entry at `k`. */
  lemma RemovedAt(q: seq<SleepEntry>, k: nat)
    requires k < |q| && Sorted(q) && OncePerTask(q)
    ensures var r := q[..k] + q[k + 1..];
            && Sorted(r) && OncePerTask(r) && !Sleeping(r, q[k].task)
            && forall e: SleepEntry | e.task != q[k].task :: e in r <==> e in q
  {
    var r := q[..k] + q[k + 1..];
    assert forall i | 0 <= i < |r| :: r[i] == if i < k then q[i] else q[i + 1];
    assert q == q[..k] + [q[k]] + q[k + 1..];
  }

  /** Deadline queue, sorted by (deadline, task). */
  class SleepQueue {
    var entries: seq<SleepEntry>

    ghost predicate Valid()
      reads this
    {
      Sorted(entries) && OncePerTask(entries)
    }

    constructor ()
      ensures entries == [] && Valid()
    {
      entries := [];
    }

    method Insert(entry: SleepEntry) returns (inserted: bool)
      requires Valid()
      modifies this
      ensures Valid()
      ensures inserted == !Sleeping(old(entries), entry.task)
      ensures forall e :: e in entries <==> e in old(entries) || (inserted && e == entry)
      ensures entries == if inserted then Inserted(old(entries), entry) else old(entries)
    {
      if Sleeping(entries, entry.task) {
        return false;
      }
      InsertKeepsOrder(entries, entry);
      var position := 0;
      while position < |entries| && !EntryLess(entry, entries[position])
        invariant 0 <= position <= Position(entries, entry)
      {
        position := position + 1;
      }
      assert position == Position(entries, entry);
      entries := entries[..position] + [entry] + entries[position..];
      return true;
    }

    /** Drains the due entries; what stays is due strictly later. */
    method ExpireUntil(now: nat) returns (due: seq<TaskId>)
      requires Valid()
      modifies this
      ensures Valid()
      ensures var n := DueCount(old(entries), now);
              due == TasksOf(old(entries)[..n]) && entries == old(entries)[n..]
    {
      var split := 0;
      while split < |entries| && entries[split].deadline <= now
        invariant 0 <= split <= DueCount(entries, now)
      {
        split := split + 1;
      }
      due := TasksOf(entries[..split]);
      entries := entries[split..];
    }

    method Remove(task: TaskId) returns (removed: bool)
      requires Valid()
      modifies this
      ensures Valid()
      ensures removed == Sleeping(old(entries), task) && !Sleeping(entries, task)
      ensures forall e: SleepEntry | e.task != task :: e in entries <==> e in old(entries)
      ensures !removed ==> entries == old(entries)
    {
      var position := 0;
      while position < |entries| && entries[position].task != task
        invariant 0 <= position <= |entries|
        invariant forall i | 0 <= i < position :: entries[i].task != task
      {
        position := position + 1;
      }
      if position == |entries| {
        return false;
      }
      RemovedAt(entries, position);
      entries := entries[..position] + entries[position + 1..];
      return true;
    }
  }

  // ----- places in a ready queue -----

  /** How many of the first `n` are set. */
  function Count(turns: seq<bool>, n: nat): nat
    requires n <= |turns|
  {
    if n == 0 then 0 else Count(turns, n - 1) + (if turns[n - 1] then 1 else 0)
  }

  ghost predicate Advances(before: seq<TaskId>, after: seq<TaskId>, taken: bool) {
    if taken then before != [] ==> before[1..] <= after else before <= after
  }

  lemma {:induction false} CountFront(turns: seq<bool>, b: bool, n: nat)
    requires n <= |turns|
    ensures Count(turns + [b], n) == Count(turns, n)
  {
    if n > 0 { CountFront(turns, b, n - 1); }
  }

  ghost predicate AllAdvance(queues: seq<seq<TaskId>>, turns: seq<bool>) {
    |queues| == |turns| + 1 && forall i {:trigger AdvancesAt(queues, turns, i)} | 0 <= i < |turns| :: AdvancesAt(queues, turns, i)
  }

  ghost predicate AdvancesAt(queues: seq<seq<TaskId>>, turns: seq<bool>, i: nat)
    requires i < |turns| && |queues| == |turns| + 1
  {
    Advances(queues[i], queues[i + 1], turns[i])
  }

  /** The queues of a longer run. */
  lemma OneMoreTurn(queues: seq<seq<TaskId>>, turns: seq<bool>, next: seq<TaskId>, taken: bool)
    requires AllAdvance(queues, turns) && Advances(queues[|turns|], next, taken)
    ensures AllAdvance(queues + [next], turns + [taken])
    ensures Count(turns + [taken], |turns| + 1) == Count(turns, |turns|) + (if taken then 1 else 0)
  {
    CountFront(turns, taken, |turns|);
    forall i | 0 <= i < |turns| + 1 ensures AdvancesAt(queues + [next], turns + [taken], i) {
      if i < |turns| { assert AdvancesAt(queues, turns, i); }
    }
  }

  /** A queue that only loses its head and only grows at its end moves every waiting task up one place for each head taken. */
  lemma {:induction false} PlaceMovesUp(queues: seq<seq<TaskId>>, turns: seq<bool>, k: nat, n: nat)
    requires AllAdvance(queues, turns) && n <= |turns| && k < |queues[0]| && Count(turns, n) <= k
    ensures k - Count(turns, n) < |queues[n]| && queues[n][k - Count(turns, n)] == queues[0][k]
    decreases n
  {
    if n > 0 {
      PlaceMovesUp(queues, turns, k, n - 1);
      assert AdvancesAt(queues, turns, n - 1);
    }
  }
}
