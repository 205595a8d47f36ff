/** The earlier `sleep_wait` kernel, which has no sleeping heap: a sleeping
    task stays in the round-robin ring with its sleep bit set, and the
    scheduler scans the ring for the first task that is not asleep with a
    wake time still in the future. Tasks that wait are moved from the ring
    to a singly-linked wait list.

    The ring operations and list operations are the ones `Rings` and
    `SlLists` model (`list_add`, `list_remove`, `list_push_sl`, and
    `list_pop_sl` with the popped node's `next` cleared, i.e.
    `SlLists.LinkPopHeadClear`). The elapsed-tick counter is the parameter
    `now`; `None` stands for the idle TCB. */
module ScanScheduler {
  import opened Common
  import Rings
  import SlLists
  import KernelState
  import Scheduler

  /** This variant's TCB without stack pointer and links: the state bits,
      and the wake time that its `data` field points at while it sleeps. */
  datatype Task = Task(state: bv32, wake: U32)

  datatype ScanKernel = ScanKernel(tcbs: seq<Task>, ring: seq<TaskId>, waiting: seq<TaskId>)

  /** Ids index the TCB arena, no task is queued twice, and no task is both
      in the ring and on the wait list. */
  predicate Valid(k: ScanKernel) {
    && NoDup(k.ring) && NoDup(k.waiting)
    && (forall t :: t in k.ring ==> t < |k.tcbs| && t !in k.waiting)
    && (forall t :: t in k.waiting ==> t < |k.tcbs|)
  }

  /** The scheduler's test: a task may run unless its sleep bit is set and
      its wake time is still after `now`. */
  predicate Runnable(tcb: Task, now: U32) {
    !(tcb.state & KernelState.TASK_STATE_SLEEP != 0 && tcb.wake > now)
  }

  /** A task id the scheduler's test passes. */
  predicate Ready(k: ScanKernel, now: U32, t: TaskId) {
    t < |k.tcbs| && Runnable(k.tcbs[t], now)
  }

  /** The ring after its head has moved on `i` times. */
  function Rotate(r: seq<TaskId>, i: nat): (r': seq<TaskId>)
    requires i <= |r|
    ensures |r'| == |r|
  {
    r[i..] + r[..i]
  }

  lemma RotateFacts(r: seq<TaskId>, i: nat)
    requires i < |r|
    ensures Rotate(r, i)[0] == r[i]
    ensures Rings.Advance(Rotate(r, i)) == Rotate(r, i + 1)
  {
    var a := Rings.Advance(Rotate(r, i));
    var b := Rotate(r, i + 1);
    forall j | 0 <= j < |r| ensures a[j] == b[j] {
      if j < |r| - i - 1 {
        assert a[j] == r[i + 1 + j] == b[j];
      } else if j < |r| - 1 {
        assert a[j] == r[j - (|r| - i - 1)] == b[j];
      } else {
        assert a[j] == r[i];
      }
    }
  }

  /** The head after `i` moves: after a full rotation it is back where it
      started. */
  lemma RotateHead(r: seq<TaskId>, i: nat)
    requires 1 <= i <= |r|
    ensures Rotate(r, i)[0] == if i < |r| then r[i] else r[0]
  {
    if i < |r| {
      RotateFacts(r, i);
    } else {
      assert r[|r|..] == [] && r[..|r|] == r;
    }
  }

  /** How many times the head moves to reach `t`: the head itself is
      reached last, after a full rotation. */
  function Offset(r: seq<TaskId>, t: TaskId): (i: nat)
    requires t in r
    ensures 1 <= i <= |r| && (if i == |r| then r[0] else r[i]) == t
  {
    var j := IndexOf(r, t);
    if j == 0 then |r| else j
  }

  /** In a ring without duplicates the task `i` moves away is reached after
      exactly `i` moves. */
  lemma OffsetAt(r: seq<TaskId>, i: nat)
    requires NoDup(r) && 1 <= i <= |r|
    ensures var t := if i < |r| then r[i] else r[0];
            t in r && Offset(r, t) == i
  {
    if i < |r| {
      assert r[i] in r;
      var j := IndexOf(r, r[i]);
      assert j == i;
    } else {
      assert r[0] in r;
    }
  }

  /** `_OS_schedule`. With an empty ring the idle TCB runs. Otherwise the
      head moves on one task at a time; the first task that is runnable
      becomes the head and runs, with its sleep and yield bits cleared. If
      the head comes back round to where it started without finding one,
      the idle TCB runs. */
  method Schedule(k: ScanKernel, now: U32) returns (k': ScanKernel, t: Option<TaskId>)
    requires Valid(k)
    ensures t.None? ==> k' == k
    ensures t.None? <==> forall j :: 0 <= j < |k.ring| ==> !Ready(k, now, k.ring[j])
    ensures t.Some? ==>
              && t.value in k.ring
              && Runnable(k.tcbs[t.value], now)
              && (forall j :: 1 <= j < Offset(k.ring, t.value) ==> !Ready(k, now, k.ring[j]))
              && k'.ring == Rotate(k.ring, Offset(k.ring, t.value))
              && k'.ring[0] == t.value
              && k'.tcbs == k.tcbs[t.value := k.tcbs[t.value].(state := Scheduler.ClearRunBits(k.tcbs[t.value].state))]
              && k'.waiting == k.waiting
  {
    if k.ring == [] {
      return k, None;
    }
    var n := |k.ring|;
    var headOnEntry := k.ring[0];
    var r := Rings.Advance(k.ring);
    var i := 1;
    RotateFacts(k.ring, 0);
    assert k.ring[0..] + k.ring[..0] == k.ring;
    while true
      invariant 1 <= i <= n && r == Rotate(k.ring, i)
      invariant forall j :: 1 <= j < i ==> !Ready(k, now, k.ring[j])
      decreases n - i
    {
      var head := r[0];
      RotateHead(k.ring, i);
      OffsetAt(k.ring, i);
      if Runnable(k.tcbs[head], now) {
        var tcb := k.tcbs[head];
        k' := k.(ring := r, tcbs := k.tcbs[head := tcb.(state := Scheduler.ClearRunBits(tcb.state))]);
        t := Some(head);
        return;
      }
      if head == headOnEntry {
        assert i == n;
        return k, None;
      }
      assert i < n;
      RotateFacts(k.ring, i);
      r := Rings.Advance(r);
      i := i + 1;
    }
  }

  /** `_OS_wait_delegate`: the ring's head, the running task, leaves the
      ring and is pushed on the wait list. The head must exist: the C code
      dereferences it. */
  function WaitDelegate(k: ScanKernel): (k': ScanKernel)
    requires k.ring != []
  {
    var current := k.ring[0];
    k.(ring := Rings.Remove(k.ring, current), waiting := SlLists.Push(k.waiting, current))
  }

  /** Waiting moves the running task, and only it, from the ring to the
      head of the wait list; the ring's next task becomes its head. */
  lemma WaitDelegateSpec(k: ScanKernel)
    requires Valid(k) && k.ring != []
    ensures var k' := WaitDelegate(k);
            && Valid(k')
            && k'.ring == k.ring[1..]
            && k'.waiting == [k.ring[0]] + k.waiting
            && k'.tcbs == k.tcbs
  {
    Rings.RemoveHeadCases(k.ring, k.ring[0]);
    MoveHead(k.ring, k.waiting);
  }

  /** Moving the head of a duplicate-free ring in front of a disjoint,
      duplicate-free list keeps both duplicate-free and disjoint. */
  lemma MoveHead(r: seq<TaskId>, w: seq<TaskId>)
    requires NoDup(r) && NoDup(w) && r != [] && forall t :: t in r ==> t !in w
    ensures NoDup(r[1..]) && NoDup([r[0]] + w)
    ensures forall t :: t in r[1..] ==> t in r && t !in [r[0]] + w
  {
    Rings.RemoveNoDup(r, 0);
    assert r[..0] + r[1..] == r[1..];
    assert r[0] !in w;
    SlLists.PushNoDup(w, r[0]);
    forall t | t in r[1..] ensures t in r && t !in [r[0]] + w {
      var j :| 0 <= j < |r[1..]| && r[1..][j] == t;
      assert r[j + 1] == t && r[j + 1] != r[0];
      assert t in r && t !in w;
      assert t in [r[0]] + w <==> t == r[0] || t in w;
    }
  }

  /** Waiting moves no task but the running one. */
  lemma WaitDelegateKeepsOthers(k: ScanKernel, u: TaskId)
    requires k.ring != [] && u != k.ring[0]
    ensures (u in WaitDelegate(k).ring <==> u in k.ring) && (u in WaitDelegate(k).waiting <==> u in k.waiting)
  {
  }

  /** `OS_addTask`: the task joins the ring last in rotation order. */
  function AddTask(k: ScanKernel, t: TaskId): (k': ScanKernel)
  {
    k.(ring := Rings.Add(k.ring, t))
  }

  /** Adding an unqueued task keeps the kernel valid and the task runs only
      after every task already in the ring has had its turn. */
  lemma AddTaskSpec(k: ScanKernel, t: TaskId)
    requires Valid(k) && t < |k.tcbs| && t !in k.ring && t !in k.waiting
    ensures Valid(AddTask(k, t))
    ensures AddTask(k, t).ring == k.ring + [t] && Offset(AddTask(k, t).ring, t) == |k.ring| + (if k.ring == [] then 1 else 0)
  {
    Rings.AddNoDup(k.ring, t);
    var r := AddTask(k, t).ring;
    if k.ring != [] {
      assert IndexOf(r, t) == |k.ring| by {
        assert r[|k.ring|] == t;
        assert forall j :: 0 <= j < |k.ring| ==> r[j] == k.ring[j];
      }
    }
  }
}
