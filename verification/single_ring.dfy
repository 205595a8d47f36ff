/** The single-ring kernel of the `sleep_wait` variant: one round-robin ring
    whose head is the running task, a sleeping heap keyed by wake time, a
    global wait list and pending list (both singly linked, pushed and popped
    at the head), and one global notification counter that `OS_notifyAll`
    bumps and that wait requests are checked against.

    The same `Rings`, `SlLists` and `Heaps` modules model this variant's
    `list_add`, `list_remove`, `list_push_sl`, `list_pop_sl` and heap. The
    elapsed-tick counter is the parameter `now`; `None` in the scheduler's
    result stands for the idle TCB. */
module SingleRing {
  import opened Common
  import Heaps
  import Rings
  import SlLists
  import KernelState
  import Scheduler

  /** `OS_SLEEPINGHEAP_SIZE`. */
  const SLEEPINGHEAP_SIZE: nat := 20

  /** This variant's `OS_TCB_t` without stack pointer and links: state bits
      and the wake time in `data`. */
  datatype Task = Task(state: bv32, data: U32)

  datatype RingKernel = RingKernel(
    tcbs: seq<Task>,
    ring: seq<TaskId>,
    sleeping: seq<TaskId>,
    waiting: seq<TaskId>,
    pending: seq<TaskId>,
    notificationCounter: U32)

  /** The sleeping heap's comparator: wake time, earliest first. */
  function WakeKey(tcbs: seq<Task>): TaskId -> int {
    (t: TaskId) => if t < |tcbs| then tcbs[t].data else 0
  }


  /** Every queued task, with multiplicity, over the four structures. */
  function Queued(k: RingKernel): multiset<TaskId> {
    multiset(k.ring) + multiset(k.sleeping) + multiset(k.waiting) + multiset(k.pending)
  }

  /** Everything but uniqueness: ids index the TCB arena, and the heap is
      ordered by wake time and within `OS_SLEEPINGHEAP_SIZE`. */
  predicate WellFormed(k: RingKernel) {
    && (forall t :: t in Queued(k) ==> t < |k.tcbs|)
    && Heaps.HeapOrdered(k.sleeping, WakeKey(k.tcbs))
    && |k.sleeping| <= SLEEPINGHEAP_SIZE
  }

  /** Each task is queued at most once, over all four structures. */
  ghost predicate Valid(k: RingKernel) {
    WellFormed(k) && forall t :: Queued(k)[t] <= 1
  }

  /** A sleeper whose wake time has come. */
  predicate Due(k: RingKernel, now: U32, u: TaskId) {
    u in k.sleeping && u < |k.tcbs| && k.tcbs[u].data <= now
  }

  /** `OS_notificationCount_get`: the value a waiter passes as its check code. */
  function NotificationCount(k: RingKernel): (c: U32)
    ensures c == k.notificationCounter
  {
    k.notificationCounter
  }

  // ---------------------------------------------------------------------
  // `OS_notifyAll`.

  lemma {:induction false} ReverseItems(ts: seq<TaskId>)
    ensures multiset(SlLists.Reverse(ts)) == multiset(ts)
    decreases |ts|
  {
    if ts != [] {
      ReverseItems(ts[1..]);
      assert ts == [ts[0]] + ts[1..];
    }
  }

  /** The loop of `OS_notifyAll` on the two lists: pop the wait list's head
      and push it on the pending list until the wait list is empty, which
      lays the waiters, reversed, in front of the pending tasks. */
  function MoveWaiters(waiting: seq<TaskId>, pending: seq<TaskId>): (pending': seq<TaskId>)
    ensures pending' == SlLists.Reverse(waiting) + pending
    decreases |waiting|
  {
    match SlLists.PopHead(waiting)
    case (None, _) => pending
    case (Some(t), rest) =>
      assert waiting == [t] + rest;
      assert SlLists.Reverse(waiting) == SlLists.Reverse(rest) + [t];
      MoveWaiters(rest, SlLists.Push(pending, t))
  }

  /** `OS_notifyAll`: the counter goes up by one (mod 2^32), then every
      waiter is moved to the pending list, leaving the wait list empty. */
  function NotifyAll(k: RingKernel): (k': RingKernel)
  {
    k.(notificationCounter := Inc32(k.notificationCounter),
       pending := MoveWaiters(k.waiting, k.pending),
       waiting := [])
  }

  /** Notifying keeps every task queued exactly as often as before, turns
      every waiter into a pending task, and touches nothing else. */
  lemma NotifyAllSpec(k: RingKernel)
    ensures var k' := NotifyAll(k);
            && Queued(k') == Queued(k)
            && (Valid(k) ==> Valid(k'))
            && k'.notificationCounter == Inc32(k.notificationCounter)
            && k'.waiting == []
            && (forall u :: u in k'.pending <==> u in k.pending || u in k.waiting)
            && k'.ring == k.ring && k'.sleeping == k.sleeping && k'.tcbs == k.tcbs
  {
    var k' := NotifyAll(k);
    ReverseItems(k.waiting);
    assert multiset(k'.pending) == multiset(k.waiting) + multiset(k.pending);
    forall u ensures u in k'.pending <==> u in k.pending || u in k.waiting {
      assert u in k'.pending <==> u in multiset(k'.pending);
    }
  }

  /** No lost wake-up: a notification between a waiter's read of the counter
      and its wait request turns the request into a no-op. */
  lemma NotifyBeforeWait(k: RingKernel)
    ensures var code := NotificationCount(k);
            && NotificationCount(NotifyAll(k)) != code
            && WaitDelegate(NotifyAll(k), code) == NotifyAll(k)
  {
  }

  // ---------------------------------------------------------------------
  // `_OS_schedule`.

  /** One round of the wake loop: the heap's root is extracted and added to
      the ring. */
  function WakeOne(k: RingKernel): (k': RingKernel)
    requires WellFormed(k) && k.sleeping != []
    ensures WellFormed(k') && Queued(k') == Queued(k)
    ensures k'.ring == k.ring + [k.sleeping[0]]
    ensures multiset(k'.sleeping) + multiset{k.sleeping[0]} == multiset(k.sleeping)
    ensures |k'.sleeping| < |k.sleeping|
    ensures k'.tcbs == k.tcbs && k'.waiting == k.waiting && k'.pending == k.pending
    ensures k'.notificationCounter == k.notificationCounter
  {
    var t := k.sleeping[0];
    var k' := k.(sleeping := Heaps.Extract(k.sleeping, WakeKey(k.tcbs)).1, ring := Rings.Add(k.ring, t));
    assert multiset(k'.ring) == multiset(k.ring) + multiset{t};
    assert Queued(k') == Queued(k);
    k'
  }

  /** The first loop of `_OS_schedule`: while the root of the sleeping heap
      is due, wake it. Afterwards no sleeper is due. */
  function Wake(k: RingKernel, now: U32): (k': RingKernel)
    requires WellFormed(k)
    ensures WellFormed(k') && Queued(k') == Queued(k)
    ensures k'.tcbs == k.tcbs && k'.waiting == k.waiting && k'.pending == k.pending
    ensures k'.notificationCounter == k.notificationCounter
    ensures forall u :: !Due(k', now, u)
    ensures |k'.ring| >= |k.ring|
    decreases |k.sleeping|
  {
    if k.sleeping == [] then k
    else
      var t := k.sleeping[0];
      assert t in Queued(k);
      if k.tcbs[t].data > now then
        assert forall u :: u in k.sleeping ==> WakeKey(k.tcbs)(t) <= WakeKey(k.tcbs)(u) by {
          var _ := Heaps.Extract(k.sleeping, WakeKey(k.tcbs));
        }
        k
      else
        Wake(WakeOne(k), now)
  }

  /** Waking moves exactly the due sleepers into the ring: stated per task. */
  lemma {:induction false} WakeSpec(k: RingKernel, now: U32, u: TaskId)
    requires WellFormed(k)
    ensures Due(k, now, u) ==> u in Wake(k, now).ring && u !in Wake(k, now).sleeping
    ensures !Due(k, now, u) ==>
              && (u in Wake(k, now).ring <==> u in k.ring)
              && (u in Wake(k, now).sleeping <==> u in k.sleeping)
    decreases |k.sleeping|
  {
    if k.sleeping != [] {
      var t := k.sleeping[0];
      assert t in Queued(k);
      if k.tcbs[t].data <= now {
        var k2 := WakeOne(k);
        var k' := Wake(k2, now);
        assert Wake(k, now) == k';
        assert u in k2.sleeping <==> u in multiset(k2.sleeping);
        assert u in k.sleeping <==> u in multiset(k.sleeping);
        if Due(k, now, u) {
          assert !Due(k', now, u) && k'.tcbs == k.tcbs;
          if u in k2.sleeping {
            assert Due(k2, now, u);
            WakeSpec(k2, now, u);
          } else {
            assert u == t;
            assert t in k2.ring && !Due(k2, now, t);
            WakeSpec(k2, now, t);
          }
        } else {
          assert u != t;
          assert u in k2.sleeping <==> u in k.sleeping;
          assert u in k2.ring <==> u in k.ring;
          assert !Due(k2, now, u);
          WakeSpec(k2, now, u);
        }
      }
    }
  }

  /** The pending loop of `_OS_schedule` on the two lists: pop the pending
      list's head and add it to the ring until the list is empty, so the
      pending tasks join the ring last, in list order. */
  function DrainInto(ring: seq<TaskId>, pending: seq<TaskId>): (ring': seq<TaskId>)
    ensures ring' == ring + pending
    decreases |pending|
  {
    match SlLists.PopHead(pending)
    case (None, _) => ring
    case (Some(t), rest) =>
      assert pending == [t] + rest;
      DrainInto(Rings.Add(ring, t), rest)
  }

  function Drain(k: RingKernel): (k': RingKernel)
    ensures Queued(k') == Queued(k) && (WellFormed(k) ==> WellFormed(k'))
    ensures k'.pending == [] && |k'.ring| == |k.ring| + |k.pending|
    ensures forall u :: u in k'.ring <==> u in k.ring || u in k.pending
    ensures k'.tcbs == k.tcbs && k'.sleeping == k.sleeping && k'.waiting == k.waiting
    ensures k'.notificationCounter == k.notificationCounter
  {
    k.(ring := DrainInto(k.ring, k.pending), pending := [])
  }

  /** The rest of `_OS_schedule`: the ring advances by one and its new head
      runs with its sleep and yield bits cleared; an empty ring runs idle. */
  function Pick(k: RingKernel): (res: (RingKernel, Option<TaskId>))
    requires WellFormed(k)
    ensures res.1.None? <==> k.ring == []
    ensures |res.0.ring| == |k.ring| && |res.0.tcbs| == |k.tcbs|
    ensures res.0.sleeping == k.sleeping && res.0.waiting == k.waiting && res.0.pending == k.pending
    ensures res.0.notificationCounter == k.notificationCounter
    ensures res.1.None? ==> res.0 == k
    ensures res.1.Some? ==> res.1.value < |k.tcbs| && res.0.ring[0] == res.1.value
    ensures res.1.Some? ==> res.0.tcbs == k.tcbs[res.1.value := k.tcbs[res.1.value].(state := Scheduler.ClearRunBits(k.tcbs[res.1.value].state))]
  {
    if k.ring == [] then (k, None)
    else
      var r := Rings.Advance(k.ring);
      var t := r[0];
      assert t in Queued(k) by { assert t in multiset(r); }
      var tcb := k.tcbs[t];
      (k.(ring := r, tcbs := k.tcbs[t := tcb.(state := Scheduler.ClearRunBits(tcb.state))]), Some(t))
  }

  /** Picking keeps the kernel well formed and every task queued as often
      as before. */
  lemma PickSpec(k: RingKernel)
    requires WellFormed(k)
    ensures WellFormed(Pick(k).0) && Queued(Pick(k).0) == Queued(k)
  {
    if k.ring != [] {
      var k' := Pick(k).0;
      assert multiset(k'.ring) == multiset(k.ring);
      assert Queued(k') == Queued(k);
      assert forall x :: x in k.sleeping ==> WakeKey(k.tcbs)(x) == WakeKey(k'.tcbs)(x);
      Heaps.OrderedSameKeys(k.sleeping, WakeKey(k.tcbs), WakeKey(k'.tcbs));
    }
  }

  /** Picking only rotates the ring: the same tasks stay ready. */
  lemma PickKeepsReady(k: RingKernel, u: TaskId)
    requires WellFormed(k)
    ensures u in Pick(k).0.ring <==> u in k.ring
  {
    if k.ring != [] {
      var r := Pick(k).0.ring;
      assert multiset(r) == multiset(k.ring);
      assert u in r <==> u in multiset(r);
    }
  }

  function Schedule(k: RingKernel, now: U32): (res: (RingKernel, Option<TaskId>))
    requires WellFormed(k)
  {
    Pick(Drain(Wake(k, now)))
  }

  /** Scheduling wakes the due sleepers, makes every pending task ready,
      keeps every ready task ready, and runs the ring's next task with its
      sleep and yield bits cleared, or idles exactly when nothing is ready,
      pending or due. */
  lemma ScheduleSpec(k: RingKernel, now: U32)
    requires WellFormed(k)
    ensures var (k', t) := Schedule(k, now);
            && WellFormed(k') && Queued(k') == Queued(k)
            && (Valid(k) ==> Valid(k'))
            && k'.pending == [] && k'.waiting == k.waiting
            && (forall u :: u in k'.ring <==> u in k.ring || u in k.pending || Due(k, now, u))
            && (forall u :: u in k'.sleeping <==> u in k.sleeping && !Due(k, now, u))
            && (t.None? <==> k.ring == [] && k.pending == [] && forall u :: !Due(k, now, u))
            && (t.Some? ==> t.value < |k.tcbs| && k'.ring[0] == t.value
                            && k'.tcbs[t.value] == k.tcbs[t.value].(state := Scheduler.ClearRunBits(k.tcbs[t.value].state)))
  {
    var kw := Wake(k, now);
    var kd := Drain(kw);
    PickSpec(kd);
    var k' := Pick(kd).0;
    assert Schedule(k, now).0 == k';
    forall u ensures u in k'.ring <==> u in k.ring || u in k.pending || Due(k, now, u) {
      WakeSpec(k, now, u);
      PickKeepsReady(kd, u);
    }
    forall u ensures u in k'.sleeping <==> u in k.sleeping && !Due(k, now, u) {
      WakeSpec(k, now, u);
    }
    if kd.ring == [] {
      assert k' == kd;
      forall u ensures !Due(k, now, u) {
        assert u !in k'.ring;
      }
    } else {
      var v := k'.ring[0];
      assert v in k'.ring;
      assert v in k.ring || v in k.pending || Due(k, now, v);
    }
  }

  // ---------------------------------------------------------------------
  // Delegates.

  /** `_OS_wait_delegate`: unless the counter moved since the caller read
      `checkCode`, the ring's head (the running task) leaves the ring and is
      pushed on the wait list. */
  function WaitDelegate(k: RingKernel, checkCode: U32): (k': RingKernel)
    requires checkCode == k.notificationCounter ==> k.ring != []
  {
    if checkCode != k.notificationCounter then k
    else
      var t := k.ring[0];
      k.(ring := Rings.Remove(k.ring, t), waiting := SlLists.Push(k.waiting, t))
  }

  /** A stale check code changes nothing; a current one moves the running
      task from the ring's head to the head of the wait list. */
  lemma WaitDelegateSpec(k: RingKernel, checkCode: U32)
    requires checkCode == k.notificationCounter ==> k.ring != []
    ensures var k' := WaitDelegate(k, checkCode);
            && Queued(k') == Queued(k)
            && (WellFormed(k) ==> WellFormed(k'))
            && (Valid(k) ==> Valid(k'))
            && (checkCode != k.notificationCounter ==> k' == k)
            && (checkCode == k.notificationCounter ==>
                  && k'.ring == k.ring[1..]
                  && k'.waiting == [k.ring[0]] + k.waiting
                  && k'.tcbs == k.tcbs && k'.sleeping == k.sleeping && k'.pending == k.pending)
  {
    if checkCode == k.notificationCounter {
      assert k.ring == [k.ring[0]] + k.ring[1..];
    }
  }

  /** `OS_sleep_delegate`: the wake time `now + duration` (mod 2^32) goes in
      `data`, the sleep bit is set, and the running task moves from the ring
      into the sleeping heap. */
  function SleepDelegate(k: RingKernel, cur: TaskId, now: U32, duration: U32): (k': RingKernel)
    requires cur < |k.tcbs| && cur in k.ring
  {
    var tcb := k.tcbs[cur];
    var tcbs := k.tcbs[cur := tcb.(data := Add32(now, duration), state := tcb.state | KernelState.TASK_STATE_SLEEP)];
    k.(tcbs := tcbs,
       ring := Rings.Remove(k.ring, cur),
       sleeping := Heaps.Insert(k.sleeping, WakeKey(tcbs), cur))
  }

  /** Sleeping keeps the kernel valid, with the running task now in the
      heap instead of the ring, its wake time and sleep bit set. */
  lemma SleepDelegateSpec(k: RingKernel, cur: TaskId, now: U32, duration: U32)
    requires Valid(k) && cur < |k.tcbs| && cur in k.ring
    requires |k.sleeping| < SLEEPINGHEAP_SIZE
    ensures var k' := SleepDelegate(k, cur, now, duration);
            && Valid(k') && Queued(k') == Queued(k)
            && cur !in k'.ring && cur in k'.sleeping
            && k'.tcbs[cur].data == Add32(now, duration)
            && k'.tcbs[cur].state == k.tcbs[cur].state | KernelState.TASK_STATE_SLEEP
  {
    var k' := SleepDelegate(k, cur, now, duration);
    assert Queued(k)[cur] <= 1;
    assert cur !in k.sleeping by { assert multiset(k.sleeping)[cur] == 0; }
    SleepHeapOrdered(k, cur, now, duration);
    assert multiset(k'.ring) + multiset{cur} == multiset(k.ring);
    assert Queued(k') == Queued(k);
    assert cur in multiset(k'.sleeping);
    assert multiset(k'.ring)[cur] == 0;
  }

  /** Only the sleeper's wake time changes, and it was not in the heap, so
      the heap stays ordered. */
  lemma SleepHeapOrdered(k: RingKernel, cur: TaskId, now: U32, duration: U32)
    requires WellFormed(k) && cur < |k.tcbs| && cur in k.ring && cur !in k.sleeping
    ensures var k' := SleepDelegate(k, cur, now, duration);
            Heaps.HeapOrdered(k'.sleeping, WakeKey(k'.tcbs))
  {
    var k' := SleepDelegate(k, cur, now, duration);
    forall x | x in k.sleeping ensures WakeKey(k.tcbs)(x) == WakeKey(k'.tcbs)(x) {
      assert x != cur;
    }
    Heaps.OrderedSameKeys(k.sleeping, WakeKey(k.tcbs), WakeKey(k'.tcbs));
  }

  /** Sleeping moves no task but the running one. */
  lemma SleepDelegateKeepsOthers(k: RingKernel, cur: TaskId, now: U32, duration: U32, u: TaskId)
    requires cur < |k.tcbs| && cur in k.ring && u != cur
    ensures var k' := SleepDelegate(k, cur, now, duration);
            && (u in k'.ring <==> u in k.ring) && (u in k'.sleeping <==> u in k.sleeping)
  {
    var k' := SleepDelegate(k, cur, now, duration);
    assert u in k'.sleeping <==> u in multiset(k'.sleeping);
    assert u in k'.ring <==> u in multiset(k'.ring);
  }

  /** Waiters are released in the order they blocked: tasks that wait one
      after another, in the order `ts`, on an empty wait list are added to
      the ring in that same order once a notification and a reschedule's
      pending loop have run. */
  lemma WaitersRejoinInOrder(k: RingKernel, ts: seq<TaskId>)
    requires k.waiting == SlLists.PushAll([], ts) && k.pending == []
    ensures DrainInto(k.ring, NotifyAll(k).pending) == k.ring + ts
  {
    SlLists.PushAllReverses([], ts);
    assert k.waiting == SlLists.Reverse(ts);
    ReverseTwice(ts);
  }

  lemma ReverseTwice(ts: seq<TaskId>)
    ensures SlLists.Reverse(SlLists.Reverse(ts)) == ts
  {
    var r := SlLists.Reverse(SlLists.Reverse(ts));
    assert forall i :: 0 <= i < |ts| ==> r[i] == ts[i];
  }
}
