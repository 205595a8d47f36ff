/** The priority scheduler of the final kernel: `OS_initialiseTCB`'s priority
    mapping, `OS_addTask`, `_OS_schedule`, and the kernel requests that move
    the running task (or a mutex owner) between structures:
    `OS_sleep_delegate`, `_OS_mutex_wait_delegate`,
    `_OS_semaphore_wait_delegate` and `_OS_priorityRestore_delegate`.

    Ring 0 is the most urgent level: a smaller priority number means a more
    urgent task. `None` in the scheduler's result stands for the idle TCB.
    The elapsed-tick counter is the parameter `now`, and the running task is
    the parameter `cur`. */
module Scheduler {
  import opened Common
  import Heaps
  import Rings
  import opened KernelState

  // ---------------------------------------------------------------------
  // Creating tasks.

  /** `OS_initialiseTCB` without the stack frame: state cleared, and the
      caller's 1-based priority mapped to a ring, where 0 and out-of-range
      values go to the least urgent ring. `data` is not written. */
  function InitialiseTcb(tcb: Tcb, levels: nat, priority: nat): (r: Tcb)
    requires levels >= 1
    ensures r.priority < levels && r.originalPriority == r.priority
    ensures r.state == 0 && r.data == tcb.data
  {
    var p := if priority == 0 || priority > levels then levels - 1 else priority - 1;
    Tcb(0, tcb.data, p, p)
  }

  /** Every ring is reachable: the caller's priority `level + 1` selects ring
      `level`, so the mapping is one-to-one on valid priorities. */
  lemma InitialisePriorityRoundTrip(tcb: Tcb, levels: nat, level: nat)
    requires level < levels
    ensures InitialiseTcb(tcb, levels, level + 1).priority == level
  {
  }

  /** A priority of 0 or above the number of levels is never more urgent than
      a valid one. */
  lemma InitialiseInvalidIsLeastUrgent(tcb: Tcb, levels: nat, priority: nat, valid: nat)
    requires levels >= 1 && (priority == 0 || priority > levels) && 1 <= valid <= levels
    ensures InitialiseTcb(tcb, levels, priority).priority == levels - 1
    ensures InitialiseTcb(tcb, levels, valid).priority <= InitialiseTcb(tcb, levels, priority).priority
  {
  }

  /** `OS_addTask`: the task goes last in the ring of its priority. */
  function AddTask(k: Kernel, t: TaskId): (k': Kernel)
    requires t < |k.tcbs| && k.tcbs[t].priority < |k.rings|
  {
    RingAdd(k, t)
  }

  /** Adding a task that is queued nowhere makes it ready at its own level
      and keeps the invariant. */
  lemma AddTaskSpec(k: Kernel, t: TaskId)
    requires Valid(k) && t < |k.tcbs| && Occurrences(k, t) == 0
    ensures k.tcbs[t].priority < |k.rings|
    ensures Valid(AddTask(k, t))
    ensures PlaceOf(AddTask(k, t), t) == Ready(k.tcbs[t].priority)
    ensures AddTask(k, t).rings[k.tcbs[t].priority] == k.rings[k.tcbs[t].priority] + [t]
    ensures OthersStay(k, AddTask(k, t), t)
  {
    RingAddSpec(k, t);
    UniqueAfterAdd(k, RingAdd(k, t), t);
    PlaceOfQueued(RingAdd(k, t), t);
  }

  // ---------------------------------------------------------------------
  // `_OS_schedule`.

  /** A sleeper whose wake time has come. */
  predicate Due(k: Kernel, now: U32, u: TaskId) {
    u in k.sleeping && u < |k.tcbs| && k.tcbs[u].data <= now
  }

  /** When the root of the sleeping heap is not due, no sleeper is. */
  lemma SleepersNotDue(k: Kernel, now: U32)
    requires WellFormed(k) && k.sleeping != []
    requires k.sleeping[0] < |k.tcbs| && k.tcbs[k.sleeping[0]].data > now
    ensures forall u :: u in k.sleeping ==> u < |k.tcbs| && k.tcbs[u].data > now
  {
    forall u | u in k.sleeping ensures u < |k.tcbs| && k.tcbs[u].data > now {
      var j :| 0 <= j < |k.sleeping| && k.sleeping[j] == u;
      Heaps.RootIsMinimum(k.sleeping, WakeKey(k.tcbs), j);
      assert WakeKey(k.tcbs)(k.sleeping[0]) == k.tcbs[k.sleeping[0]].data;
      assert WakeKey(k.tcbs)(u) == k.tcbs[u].data;
    }
  }

  /** One round of the first loop of `_OS_schedule`: the root of the
      sleeping heap is extracted and goes last in the ring of its priority. */
  function WakeOne(k: Kernel): (k': Kernel)
    requires WellFormed(k) && k.sleeping != []
    ensures WellFormed(k') && |k'.sleeping| == |k.sleeping| - 1
    ensures k'.tcbs == k.tcbs && k'.pending == k.pending
    ensures k'.mutexes == k.mutexes && k'.semaphores == k.semaphores
  {
    var t := k.sleeping[0];
    assert t in k.sleeping;
    SleepExtractSpec(k);
    var k1 := k.(sleeping := Heaps.Extract(k.sleeping, WakeKey(k.tcbs)).1);
    RingAddSpec(k1, t);
    RingAdd(k1, t)
  }

  /** A round moves the root from the heap into its ring and nothing else. */
  lemma WakeOneSpec(k: Kernel)
    requires WellFormed(k) && k.sleeping != []
    ensures SameOccurrences(k, WakeOne(k))
    ensures InRing(WakeOne(k), k.sleeping[0])
    ensures forall u :: u != k.sleeping[0] ==> SameMembership(k, WakeOne(k), u)
  {
    var t := k.sleeping[0];
    assert t in k.sleeping;
    SleepExtractSpec(k);
    var k1 := k.(sleeping := Heaps.Extract(k.sleeping, WakeKey(k.tcbs)).1);
    RingAddSpec(k1, t);
    forall u | u != t ensures SameMembership(k, WakeOne(k), u) {
      SameMembershipTrans(k, k1, WakeOne(k), u);
    }
  }

  /** The first loop of `_OS_schedule`: while the root of the sleeping heap
      is due, wake it. */
  function Wake(k: Kernel, now: U32): (k': Kernel)
    requires WellFormed(k)
    ensures WellFormed(k')
    ensures forall u :: u in k'.sleeping ==> u < |k'.tcbs| && k'.tcbs[u].data > now
    ensures k'.tcbs == k.tcbs && k'.pending == k.pending
    ensures k'.mutexes == k.mutexes && k'.semaphores == k.semaphores
    decreases |k.sleeping|
  {
    if k.sleeping == [] then k
    else
      assert k.sleeping[0] in k.sleeping;
      if k.tcbs[k.sleeping[0]].data > now then
        SleepersNotDue(k, now);
        k
      else
        Wake(WakeOne(k), now)
  }

  /** Waking moves exactly the due sleepers into their rings. */
  lemma {:induction false} WakeSpec(k: Kernel, now: U32)
    requires WellFormed(k)
    ensures SameOccurrences(k, Wake(k, now))
    ensures forall u :: Due(k, now, u) ==> u !in Wake(k, now).sleeping && InRing(Wake(k, now), u)
    ensures forall u :: !Due(k, now, u) ==> SameMembership(k, Wake(k, now), u)
    decreases |k.sleeping|
  {
    if k.sleeping == [] {
    } else if (assert k.sleeping[0] in k.sleeping; k.tcbs[k.sleeping[0]].data > now) {
      SleepersNotDue(k, now);
    } else {
      var t := k.sleeping[0];
      var k2 := WakeOne(k);
      WakeOneSpec(k);
      WakeSpec(k2, now);
      var k' := Wake(k2, now);
      assert Wake(k, now) == k';
      assert InRing(k', t) by {
        assert !Due(k2, now, t) ==> SameMembership(k2, k', t);
      }
      forall u | u != t && Due(k, now, u) ensures InRing(k', u) {
        assert SameMembership(k, k2, u);
        assert u in k2.sleeping && k2.tcbs == k.tcbs;
      }
      forall u | !Due(k, now, u) ensures SameMembership(k, k', u) {
        assert SameMembership(k, k2, u);
        assert (u in k2.sleeping <==> u in k.sleeping) && k2.tcbs == k.tcbs;
        SameMembershipTrans(k, k2, k', u);
      }
    }
  }

  /** One round of the second loop of `_OS_schedule`: the head of the
      pending list is popped and goes last in the ring of its priority. */
  function DrainOne(k: Kernel): (k': Kernel)
    requires WellFormed(k) && k.pending != []
    ensures WellFormed(k') && |k'.pending| == |k.pending| - 1
    ensures k'.tcbs == k.tcbs && k'.sleeping == k.sleeping
    ensures k'.mutexes == k.mutexes && k'.semaphores == k.semaphores
  {
    var t := k.pending[0];
    assert t in k.pending;
    PendingPopSpec(k);
    var k1 := k.(pending := k.pending[1..]);
    RingAddSpec(k1, t);
    RingAdd(k1, t)
  }

  /** A round moves the head from the pending list into its ring and
      nothing else. */
  lemma DrainOneSpec(k: Kernel)
    requires WellFormed(k) && k.pending != []
    ensures SameOccurrences(k, DrainOne(k))
    ensures InRing(DrainOne(k), k.pending[0])
    ensures forall u :: u != k.pending[0] ==> SameMembership(k, DrainOne(k), u)
  {
    var t := k.pending[0];
    assert t in k.pending;
    PendingPopSpec(k);
    var k1 := k.(pending := k.pending[1..]);
    RingAddSpec(k1, t);
    forall u | u != t ensures SameMembership(k, DrainOne(k), u) {
      SameMembershipTrans(k, k1, DrainOne(k), u);
    }
  }

  /** The second loop of `_OS_schedule`: drain the pending list from its
      head until it is empty. */
  function Drain(k: Kernel): (k': Kernel)
    requires WellFormed(k)
    ensures WellFormed(k') && k'.pending == []
    ensures k'.tcbs == k.tcbs && k'.sleeping == k.sleeping
    ensures k'.mutexes == k.mutexes && k'.semaphores == k.semaphores
    decreases |k.pending|
  {
    if k.pending == [] then k else Drain(DrainOne(k))
  }

  /** Draining makes every pending task ready and moves nothing else. */
  lemma {:induction false} DrainSpec(k: Kernel)
    requires WellFormed(k)
    ensures SameOccurrences(k, Drain(k))
    ensures forall u :: u in k.pending ==> InRing(Drain(k), u)
    ensures forall u :: u !in k.pending ==> SameMembership(k, Drain(k), u)
    decreases |k.pending|
  {
    if k.pending != [] {
      var t := k.pending[0];
      var k2 := DrainOne(k);
      DrainOneSpec(k);
      DrainSpec(k2);
      var k' := Drain(k2);
      assert Drain(k) == k';
      assert InRing(k', t) by {
        assert t !in k2.pending ==> SameMembership(k2, k', t);
      }
      forall u | u in k.pending && u != t ensures InRing(k', u) {
        assert u in k2.pending;
      }
      forall u | u !in k.pending ensures SameMembership(k, k', u) {
        SameMembershipTrans(k, k2, k', u);
      }
    }
  }

  /** The most urgent non-empty level, if any. */
  function FirstNonEmpty(rings: seq<seq<TaskId>>): (i: Option<nat>)
    ensures i.Some? ==> i.value < |rings| && rings[i.value] != []
    ensures forall j :: 0 <= j < |rings| && (i.None? || j < i.value) ==> rings[j] == []
  {
    if rings == [] then None
    else if rings[0] != [] then Some(0)
    else
      match FirstNonEmpty(rings[1..])
      case None => None
      case Some(j) => Some(j + 1)
  }

  /** `state &= ~(TASK_STATE_SLEEP | TASK_STATE_YIELD)`. */
  function ClearRunBits(state: bv32): (r: bv32)
    ensures r & (TASK_STATE_SLEEP | TASK_STATE_YIELD) == 0
    ensures r & !(TASK_STATE_SLEEP | TASK_STATE_YIELD) == state & !(TASK_STATE_SLEEP | TASK_STATE_YIELD)
  {
    state & !(TASK_STATE_SLEEP | TASK_STATE_YIELD)
  }

  /** The level loop of `_OS_schedule`: the most urgent non-empty ring
      advances by one, and its new head runs with its sleep and yield bits
      cleared; `None` is the idle task. */
  function Pick(k: Kernel): (res: (Kernel, Option<TaskId>))
    requires WellFormed(k)
    ensures res.1.None? <==> AllEmpty(k.rings)
    ensures res.0.pending == k.pending && res.0.sleeping == k.sleeping
    ensures |res.0.tcbs| == |k.tcbs|
    ensures forall u :: 0 <= u < |k.tcbs| ==> res.0.tcbs[u].data == k.tcbs[u].data
  {
    match FirstNonEmpty(k.rings)
    case None => (k, None)
    case Some(i) =>
      var r := Rings.Advance(k.rings[i]);
      var t := r[0];
      assert t in k.rings[i] by {
        assert t in multiset(r);
      }
      assert AtLevel(k.rings[i], k.tcbs, i);
      var tcb := k.tcbs[t];
      (SetTcb(k.(rings := k.rings[i := r]), t, tcb.(state := ClearRunBits(tcb.state))), Some(t))
  }

  /** The task picked is the new head of the most urgent non-empty ring, all
      more urgent rings are empty, and nothing but that ring's rotation and
      the task's two state bits changes. */
  lemma PickSpec(k: Kernel)
    requires Valid(k)
    ensures Valid(Pick(k).0) && SameOccurrences(k, Pick(k).0)
    ensures forall u :: SameMembership(k, Pick(k).0, u) && PlaceOf(Pick(k).0, u) == PlaceOf(k, u)
    ensures Pick(k).1.None? ==> Pick(k).0 == k
    ensures Pick(k).1.Some? ==>
              var t := Pick(k).1.value;
              var k' := Pick(k).0;
              && t < |k.tcbs|
              && var i := k.tcbs[t].priority;
              && i < |k.rings| && t in k.rings[i]
              && (forall j :: 0 <= j < i ==> k.rings[j] == [])
              && k'.rings == k.rings[i := Rings.Advance(k.rings[i])]
              && k'.rings[i][0] == t
              && k'.tcbs[t] == k.tcbs[t].(state := ClearRunBits(k.tcbs[t].state))
              && (forall u :: 0 <= u < |k.tcbs| && u != t ==> k'.tcbs[u] == k.tcbs[u])
  {
    match FirstNonEmpty(k.rings)
    case None =>
    case Some(i) =>
      var r := Rings.Advance(k.rings[i]);
      var t := r[0];
      assert t in k.rings[i] by {
        assert t in multiset(r);
      }
      assert AtLevel(k.rings[i], k.tcbs, i);
      var k1 := k.(rings := k.rings[i := r]);
      RingReorderSpec(k, i, r);
      forall u ensures PlaceOf(k1, u) == PlaceOf(k, u) {
        SamePlace(k, k1, u);
      }
      var tcb := k.tcbs[t].(state := ClearRunBits(k.tcbs[t].state));
      SetTcbSpec(k1, t, tcb);
  }

  /** `_OS_schedule`: wake the due sleepers, drain the pending list, pick. */
  function Schedule(k: Kernel, now: U32): (res: (Kernel, Option<TaskId>))
    requires WellFormed(k)
    ensures res.0.pending == []
    ensures forall u :: u in res.0.sleeping ==> u < |res.0.tcbs| && res.0.tcbs[u].data > now
  {
    Pick(Drain(Wake(k, now)))
  }

  /** The two loops of `_OS_schedule` together: every due sleeper and every
      pending task ends up ready, and every other task stays where it was. */
  lemma WakeDrainSpec(k: Kernel, now: U32)
    requires Valid(k)
    ensures var kd := Drain(Wake(k, now));
            && Valid(kd)
            && SameOccurrences(k, kd)
            && (forall u :: Due(k, now, u) || u in k.pending ==> InRing(kd, u))
            && (forall u :: !Due(k, now, u) && u !in k.pending ==> SameMembership(k, kd, u))
  {
    var kw := Wake(k, now);
    WakeSpec(k, now);
    var kd := Drain(kw);
    DrainSpec(kw);
    forall u | Due(k, now, u) || u in k.pending ensures InRing(kd, u) {
      if Due(k, now, u) {
        if u !in kw.pending {
          assert SameMembership(kw, kd, u);
        }
      } else {
        assert SameMembership(k, kw, u);
      }
    }
    forall u | !Due(k, now, u) && u !in k.pending ensures SameMembership(k, kd, u) {
      SameMembershipTrans(k, kw, kd, u);
    }
  }

  /** After scheduling, every due sleeper and every pending task is ready,
      and every other task is where it was. */
  lemma ScheduleSpec(k: Kernel, now: U32)
    requires Valid(k)
    ensures Valid(Schedule(k, now).0)
    ensures SameOccurrences(k, Schedule(k, now).0)
    ensures forall u :: Due(k, now, u) || u in k.pending ==> InRing(Schedule(k, now).0, u)
    ensures forall u :: !Due(k, now, u) && u !in k.pending ==> SameMembership(k, Schedule(k, now).0, u)
  {
    var kd := Drain(Wake(k, now));
    WakeDrainSpec(k, now);
    PickSpec(kd);
    var k' := Pick(kd).0;
    forall u | Due(k, now, u) || u in k.pending ensures InRing(k', u) {
      assert InRing(kd, u);
      assert SameMembership(kd, k', u);
    }
    forall u | !Due(k, now, u) && u !in k.pending ensures SameMembership(k, k', u) {
      SameMembershipTrans(k, kd, k', u);
    }
  }

  /** Every ring is empty. */
  predicate AllEmpty(rings: seq<seq<TaskId>>) {
    forall i :: 0 <= i < |rings| ==> rings[i] == []
  }

  /** No task is ready, pending or due to wake. */
  ghost predicate NothingToRun(k: Kernel, now: U32) {
    && AllEmpty(k.rings)
    && k.pending == []
    && (forall u :: !Due(k, now, u))
  }

  lemma IdleWhenNothingToRun(k: Kernel, now: U32)
    requires Valid(k) && NothingToRun(k, now)
    ensures AllEmpty(Drain(Wake(k, now)).rings)
  {
    var kd := Drain(Wake(k, now));
    WakeDrainSpec(k, now);
    forall i | 0 <= i < |kd.rings| ensures kd.rings[i] == [] {
      assert |kd.rings[i]| > 0 ==> !Due(k, now, kd.rings[i][0]) && kd.rings[i][0] !in k.pending;
      assert |kd.rings[i]| > 0 ==> SameMembership(k, kd, kd.rings[i][0]);
    }
  }

  /** A task that was ready is still ready after the two loops. */
  lemma ReadyStaysReady(k: Kernel, now: U32, i: nat)
    requires Valid(k) && i < |k.rings| && k.rings[i] != []
    ensures !AllEmpty(Drain(Wake(k, now)).rings)
  {
    var kd := Drain(Wake(k, now));
    WakeDrainSpec(k, now);
    var u := k.rings[i][0];
    assert u in k.rings[i];
    PlaceOfQueued(k, u);
    assert !Due(k, now, u) && u !in k.pending;
    assert SameMembership(k, kd, u);
    assert u in kd.rings[i];
  }

  lemma RunnableWhenSomethingToRun(k: Kernel, now: U32)
    requires Valid(k) && !NothingToRun(k, now)
    ensures !AllEmpty(Drain(Wake(k, now)).rings)
  {
    var kd := Drain(Wake(k, now));
    WakeDrainSpec(k, now);
    if !AllEmpty(k.rings) {
      var i :| 0 <= i < |k.rings| && k.rings[i] != [];
      ReadyStaysReady(k, now, i);
    } else if k.pending != [] {
      assert InRing(kd, k.pending[0]);
    } else {
      var u :| Due(k, now, u);
      assert InRing(kd, u);
    }
  }

  /** `_OS_schedule` returns the idle task exactly when no task is ready,
      pending or due to wake. */
  lemma ScheduleIdleSpec(k: Kernel, now: U32)
    requires Valid(k)
    ensures Schedule(k, now).1.None? <==> NothingToRun(k, now)
  {
    if NothingToRun(k, now) {
      IdleWhenNothingToRun(k, now);
    } else {
      RunnableWhenSomethingToRun(k, now);
    }
  }

  // ---------------------------------------------------------------------
  // Delegates.

  /** `OS_sleep_delegate`: the wake time `now + duration` (mod 2^32) goes in
      `data`, the sleep bit is set, and the running task moves from its ring
      into the sleeping heap. */
  function SleepDelegate(k: Kernel, cur: TaskId, now: U32, duration: U32): (k': Kernel)
    requires InRing(k, cur)
  {
    var tcb := k.tcbs[cur];
    var k1 := SetTcb(k, cur, tcb.(data := Add32(now, duration), state := tcb.state | TASK_STATE_SLEEP));
    SleepInsert(RingRemove(k1, cur), cur)
  }

  lemma SleepDelegateSpec(k: Kernel, cur: TaskId, now: U32, duration: U32)
    requires Valid(k) && InRing(k, cur) && |k.sleeping| < k.sleepCapacity
    ensures var k' := SleepDelegate(k, cur, now, duration);
            && Valid(k')
            && PlaceOf(k', cur) == Asleep
            && k'.tcbs[cur] == k.tcbs[cur].(data := Add32(now, duration), state := k.tcbs[cur].state | TASK_STATE_SLEEP)
            && OthersStay(k, k', cur)
  {
    var tcb := k.tcbs[cur].(data := Add32(now, duration), state := k.tcbs[cur].state | TASK_STATE_SLEEP);
    var k1 := RingRemove(k, cur);
    RingRemoveSpec(k, cur);
    UniqueAfterRemove(k, k1, cur);
    var k2 := SetTcb(k1, cur, tcb);
    SetTcbSpec(k1, cur, tcb);
    var k3 := SleepInsert(k2, cur);
    SleepInsertSpec(k2, cur);
    UniqueAfterAdd(k2, k3, cur);
    assert SleepDelegate(k, cur, now, duration) == k3;
    PlaceOfQueued(k3, cur);
    OthersStayTrans(k, k1, k2, cur);
    OthersStayTrans(k, k2, k3, cur);
  }

  /** What `_OS_mutex_wait_delegate` relies on when the check code matches:
      the caller is running, so it is in its ring; the mutex's heap has
      room, which `OS_heap_insert` does not check; and the mutex has an
      owner. The delegate does not check the owner: the caller saw one when
      it decided to wait, but a release that has cleared the owner and not
      yet notified leaves it null with the check code still matching, and
      the delegate then reads the priority of a null task. Only kernels
      with an owner are covered here. */
  predicate MutexWaitReady(k: Kernel, cur: TaskId, m: nat)
    requires m < |k.mutexes|
  {
    && InRing(k, cur)
    && |k.mutexes[m].waiting| < MUTEX_WAITINGHEAP_SIZE
    && k.mutexes[m].owner.Some?
    && k.mutexes[m].owner.value < |k.tcbs|
  }

  /** The task leaves the ring of its priority, takes priority `level` and
      is pushed on the pending list, from which the next `_OS_schedule`
      adds it to the ring of its new level. */
  function Requeue(k: Kernel, o: TaskId, level: nat): Kernel
    requires InRing(k, o)
  {
    PendingPush(SetTcb(RingRemove(k, o), o, k.tcbs[o].(priority := level)), o)
  }

  /** Priority inheritance as written: the owner is unlinked from the ring
      of its priority and pushed on the pending list whether or not it is in
      that ring. An owner that is asleep, pending or waiting is in no ring
      and its `next`/`prev` links are stale; the model leaves the rings as
      they are in that case and keeps the push. */
  function PromoteAsWritten(k: Kernel, o: TaskId, level: nat): Kernel
    requires o < |k.tcbs|
  {
    if InRing(k, o) then Requeue(k, o, level)
    else PendingPush(SetTcb(k, o, k.tcbs[o].(priority := level)), o)
  }

  /** Priority inheritance, corrected: an owner in its ring is requeued as
      the source does; an owner anywhere else keeps its place and has its
      priority raised in place. */
  function Promote(k: Kernel, o: TaskId, level: nat): Kernel
    requires o < |k.tcbs|
  {
    if InRing(k, o) then Requeue(k, o, level) else RaisePriority(k, o, level)
  }

  /** `_OS_mutex_wait_delegate` with the corrected promotion: unless a
      notification came in since the caller read `checkCode`, the caller
      moves from its ring into the mutex's heap, and a less urgent owner is
      promoted to the caller's priority. */
  function MutexWaitDelegate(k: Kernel, cur: TaskId, m: nat, checkCode: U32): (k': Kernel)
    requires m < |k.mutexes|
    requires k.mutexes[m].notificationCounter == checkCode ==> MutexWaitReady(k, cur, m)
  {
    if k.mutexes[m].notificationCounter != checkCode then k
    else
      var o := k.mutexes[m].owner.value;
      var k1 := MutexInsert(RingRemove(k, cur), m, cur);
      if k.tcbs[o].priority > k.tcbs[cur].priority then Promote(k1, o, k.tcbs[cur].priority) else k1
  }

  /** `_OS_mutex_wait_delegate` as written, promoting with `PromoteAsWritten`. */
  function MutexWaitDelegateAsWritten(k: Kernel, cur: TaskId, m: nat, checkCode: U32): (k': Kernel)
    requires m < |k.mutexes|
    requires k.mutexes[m].notificationCounter == checkCode ==> MutexWaitReady(k, cur, m)
  {
    if k.mutexes[m].notificationCounter != checkCode then k
    else
      var o := k.mutexes[m].owner.value;
      var k1 := MutexInsert(RingRemove(k, cur), m, cur);
      if k.tcbs[o].priority > k.tcbs[cur].priority then PromoteAsWritten(k1, o, k.tcbs[cur].priority) else k1
  }

  /** Requeueing a ready task: it leaves its ring and is pending at `level`. */
  lemma RequeueSpec(k: Kernel, o: TaskId, level: nat)
    requires Valid(k) && InRing(k, o) && level < |k.rings|
    ensures var k' := Requeue(k, o, level);
            && Valid(k')
            && PlaceOf(k', o) == Pending
            && Occurrences(k', o) == 1
            && k'.tcbs[o] == k.tcbs[o].(priority := level)
            && OthersStay(k, k', o)
            && k'.mutexes == k.mutexes && k'.semaphores == k.semaphores
  {
    var k1 := RingRemove(k, o);
    RingRemoveSpec(k, o);
    UniqueAfterRemove(k, k1, o);
    var tcb := k.tcbs[o].(priority := level);
    var k2 := SetTcb(k1, o, tcb);
    SetTcbSpec(k1, o, tcb);
    var k3 := PendingPush(k2, o);
    PendingPushSpec(k2, o);
    UniqueAfterAdd(k2, k3, o);
    PlaceOfQueued(k3, o);
    OthersStayTrans(k, k1, k2, o);
    OthersStayTrans(k, k2, k3, o);
  }

  /** The corrected promotion keeps the invariant wherever the owner is: a
      ready owner becomes pending at `level`, any other owner stays where it
      was with its priority raised, and it is queued as often as before. */
  lemma PromoteSpec(k: Kernel, o: TaskId, level: nat)
    requires Valid(k) && o < |k.tcbs| && level <= k.tcbs[o].priority
    ensures var k' := Promote(k, o, level);
            && Valid(k')
            && k'.tcbs[o] == k.tcbs[o].(priority := level)
            && Occurrences(k', o) == Occurrences(k, o)
            && PlaceOf(k', o) == (if InRing(k, o) then Pending else PlaceOf(k, o))
            && OthersStay(k, k', o)
            && k'.semaphores == k.semaphores
            && |k'.mutexes| == |k.mutexes|
            && (forall j :: 0 <= j < |k.mutexes| ==>
                  k'.mutexes[j].owner == k.mutexes[j].owner
                  && k'.mutexes[j].acquireCounter == k.mutexes[j].acquireCounter
                  && k'.mutexes[j].notificationCounter == k.mutexes[j].notificationCounter)
  {
    if InRing(k, o) {
      assert k.tcbs[o].priority < |k.rings|;
      RequeueSpec(k, o, level);
      UniqueAfterRemove(k, RingRemove(k, o), o) by {
        RingRemoveSpec(k, o);
      }
    } else {
      RaisePrioritySpec(k, o, level);
    }
  }

  /** As written, an owner queued anywhere but its ring (asleep, pending, or
      waiting on a semaphore or another mutex) when a more urgent task waits
      ends up queued twice: it stays where it was and is also pushed on the
      pending list. */
  lemma MutexWaitAsWrittenQueuesTwice(k: Kernel, cur: TaskId, m: nat, checkCode: U32)
    requires Valid(k) && m < |k.mutexes| && k.mutexes[m].notificationCounter == checkCode
    requires MutexWaitReady(k, cur, m)
    requires var o := k.mutexes[m].owner.value;
             k.tcbs[o].priority > k.tcbs[cur].priority && !InRing(k, o) && Occurrences(k, o) == 1
    ensures var k' := MutexWaitDelegateAsWritten(k, cur, m, checkCode);
            var o := k.mutexes[m].owner.value;
            && Occurrences(k', o) == 2
            && o in k'.pending
            && !Unique(k')
  {
    var o := k.mutexes[m].owner.value;
    var k1 := MutexInsert(RingRemove(k, cur), m, cur);
    MutexEnqueueSpec(k, cur, m);
    assert SameMembership(k, k1, o);
    assert !InRing(k1, o);
    var k2 := SetTcb(k1, o, k1.tcbs[o].(priority := k.tcbs[cur].priority));
    assert Occurrences(k2, o) == Occurrences(k1, o);
    assert MutexWaitDelegateAsWritten(k, cur, m, checkCode) == PendingPush(k2, o);
    assert multiset(PendingPush(k2, o).pending)[o] == multiset(k2.pending)[o] + 1;
  }

  /** Task 0 (priority 1) owns mutex 0 and waits on semaphore 0; task 1
      (priority 0) is running. */
  function OwnerOnSemaphore(): Kernel {
    Kernel([Tcb(0, 0, 1, 1), Tcb(0, 0, 0, 0)], [[1], []], [], 1, [],
           [Mutex(Some(0), 1, 0, [])], [Semaphore(0, 0, [0])])
  }

  lemma OwnerOnSemaphoreValid()
    ensures Valid(OwnerOnSemaphore())
  {
    var k := OwnerOnSemaphore();
    forall u ensures Occurrences(k, u) <= 1 {
      assert k.rings[..1] == [[1]] && k.rings[..1][..0] == [];
      assert Count(k.rings, u) == multiset([1])[u];
      assert MutexQueues(k.mutexes) == [[]];
      assert Count(MutexQueues(k.mutexes), u) == 0 by {
        assert MutexQueues(k.mutexes)[..0] == [];
      }
      assert SemaphoreQueues(k.semaphores) == [[0]];
      assert Count(SemaphoreQueues(k.semaphores), u) == multiset([0])[u] by {
        assert SemaphoreQueues(k.semaphores)[..0] == [];
      }
    }
  }

  /** As written, when task 1 waits for the mutex, task 0 ends up both on
      the semaphore and on the pending list; with the corrected promotion it
      stays on the semaphore alone, at priority 0. */
  lemma OwnerOnSemaphoreQueuedTwice()
    ensures var w := MutexWaitDelegateAsWritten(OwnerOnSemaphore(), 1, 0, 0);
            w.semaphores[0].waiting == [0] && w.pending == [0] && !Unique(w)
    ensures var c := MutexWaitDelegate(OwnerOnSemaphore(), 1, 0, 0);
            && c.semaphores[0].waiting == [0] && c.pending == [] && Valid(c)
            && c.tcbs[0].priority == 0
  {
    var k := OwnerOnSemaphore();
    OwnerOnSemaphoreValid();
    assert Occurrences(k, 0) == 1;
    assert !InRing(k, 0);
    MutexWaitAsWrittenQueuesTwice(k, 1, 0, 0);
    MutexWaitPromotes(k, 1, 0, 0);
  }

  /** The wait half: the caller leaves its ring for the mutex's heap. */
  lemma MutexEnqueueSpec(k: Kernel, cur: TaskId, m: nat)
    requires Valid(k) && InRing(k, cur) && m < |k.mutexes|
    requires |k.mutexes[m].waiting| < MUTEX_WAITINGHEAP_SIZE
    ensures var k' := MutexInsert(RingRemove(k, cur), m, cur);
            && Valid(k')
            && PlaceOf(k', cur) == OnMutex(m)
            && k'.tcbs == k.tcbs
            && OthersStay(k, k', cur)
            && SameOccurrences(k, k')
            && (forall j :: 0 <= j < |k.mutexes| ==>
                  k'.mutexes[j].owner == k.mutexes[j].owner
                  && k'.mutexes[j].acquireCounter == k.mutexes[j].acquireCounter
                  && k'.mutexes[j].notificationCounter == k.mutexes[j].notificationCounter)
  {
    var k1 := RingRemove(k, cur);
    RingRemoveSpec(k, cur);
    UniqueAfterRemove(k, k1, cur);
    var k2 := MutexInsert(k1, m, cur);
    MutexInsertSpec(k1, m, cur);
    UniqueAfterAdd(k1, k2, cur);
    PlaceOfQueued(k2, cur);
    OthersStayTrans(k, k1, k2, cur);
  }

  /** The waiter is more urgent than the owner: the waiter is on the mutex
      and the owner runs at the waiter's priority, pending if it was ready
      and where it was otherwise. */
  lemma MutexWaitPromotes(k: Kernel, cur: TaskId, m: nat, checkCode: U32)
    requires Valid(k) && m < |k.mutexes| && k.mutexes[m].notificationCounter == checkCode
    requires MutexWaitReady(k, cur, m)
    requires k.tcbs[k.mutexes[m].owner.value].priority > k.tcbs[cur].priority
    ensures var k' := MutexWaitDelegate(k, cur, m, checkCode);
            var o := k.mutexes[m].owner.value;
            && Valid(k')
            && PlaceOf(k', cur) == OnMutex(m)
            && PlaceOf(k', o) == (if InRing(k, o) then Pending else PlaceOf(k, o))
            && Occurrences(k', o) == Occurrences(k, o)
            && k'.mutexes[m].owner == k.mutexes[m].owner
            && k'.mutexes[m].acquireCounter == k.mutexes[m].acquireCounter
            && k'.mutexes[m].notificationCounter == k.mutexes[m].notificationCounter
            && k'.tcbs[cur] == k.tcbs[cur]
            && k'.tcbs[o] == k.tcbs[o].(priority := k.tcbs[cur].priority)
            && (forall u :: u != cur && u != o ==> SameMembership(k, k', u))
            && (forall u :: 0 <= u < |k.tcbs| && u != cur && u != o ==> k'.tcbs[u] == k.tcbs[u])
  {
    var o := k.mutexes[m].owner.value;
    var level := k.tcbs[cur].priority;
    var k1 := MutexInsert(RingRemove(k, cur), m, cur);
    MutexEnqueueSpec(k, cur, m);
    assert SameMembership(k, k1, o);
    SamePlace(k, k1, o);
    assert InRing(k1, o) == InRing(k, o);
    var k' := Promote(k1, o, level);
    PromoteSpec(k1, o, level);
    assert MutexWaitDelegate(k, cur, m, checkCode) == k';
    assert SameMembership(k1, k', cur);
    SamePlace(k1, k', cur);
    forall u | u != cur && u != o ensures SameMembership(k, k', u) {
      SameMembershipTrans(k, k1, k', u);
    }
  }

  /** The owner is at least as urgent as the waiter: only the waiter moves. */
  lemma MutexWaitKeepsOwner(k: Kernel, cur: TaskId, m: nat, checkCode: U32)
    requires Valid(k) && m < |k.mutexes| && k.mutexes[m].notificationCounter == checkCode
    requires MutexWaitReady(k, cur, m)
    requires k.tcbs[k.mutexes[m].owner.value].priority <= k.tcbs[cur].priority
    ensures var k' := MutexWaitDelegate(k, cur, m, checkCode);
            var o := k.mutexes[m].owner.value;
            && Valid(k')
            && PlaceOf(k', cur) == OnMutex(m)
            && (o != cur ==> PlaceOf(k', o) == PlaceOf(k, o))
            && k'.mutexes[m].owner == k.mutexes[m].owner
            && k'.mutexes[m].acquireCounter == k.mutexes[m].acquireCounter
            && k'.mutexes[m].notificationCounter == k.mutexes[m].notificationCounter
            && k'.tcbs == k.tcbs
            && OthersStay(k, k', cur)
  {
    var o := k.mutexes[m].owner.value;
    var k1 := MutexInsert(RingRemove(k, cur), m, cur);
    MutexEnqueueSpec(k, cur, m);
    if o != cur {
      assert SameMembership(k, k1, o);
      SamePlace(k, k1, o);
    }
  }

  /** The mutex wait keeps the invariant; a stale check code changes
      nothing; otherwise the caller waits on the mutex and the owner ends up
      at the more urgent of its own and the caller's priority. */
  lemma MutexWaitDelegateSpec(k: Kernel, cur: TaskId, m: nat, checkCode: U32)
    requires Valid(k) && m < |k.mutexes|
    requires k.mutexes[m].notificationCounter == checkCode ==> MutexWaitReady(k, cur, m)
    ensures Valid(MutexWaitDelegate(k, cur, m, checkCode))
    ensures k.mutexes[m].notificationCounter != checkCode ==> MutexWaitDelegate(k, cur, m, checkCode) == k
    ensures k.mutexes[m].notificationCounter == checkCode ==>
              var k' := MutexWaitDelegate(k, cur, m, checkCode);
              var o := k.mutexes[m].owner.value;
              && PlaceOf(k', cur) == OnMutex(m)
              && k'.mutexes[m].owner == k.mutexes[m].owner
              && (o != cur ==> k'.tcbs[cur] == k.tcbs[cur])
              && k'.tcbs[o] == k.tcbs[o].(priority := if k.tcbs[o].priority > k.tcbs[cur].priority then k.tcbs[cur].priority else k.tcbs[o].priority)
              && (k.tcbs[o].priority > k.tcbs[cur].priority ==>
                    PlaceOf(k', o) == (if InRing(k, o) then Pending else PlaceOf(k, o)))
              && (k.tcbs[o].priority <= k.tcbs[cur].priority && o != cur ==> PlaceOf(k', o) == PlaceOf(k, o))
              && (forall u :: u != cur && u != o ==> SameMembership(k, k', u))
              && (forall u :: 0 <= u < |k.tcbs| && u != cur && u != o ==> k'.tcbs[u] == k.tcbs[u])
  {
    if k.mutexes[m].notificationCounter == checkCode {
      if k.tcbs[k.mutexes[m].owner.value].priority > k.tcbs[cur].priority {
        MutexWaitPromotes(k, cur, m, checkCode);
      } else {
        MutexWaitKeepsOwner(k, cur, m, checkCode);
      }
    }
  }

  /** `_OS_semaphore_wait_delegate`: unless a notification came in since the
      caller read `checkCode`, the caller moves from its ring to the head of
      the semaphore's waiting list. */
  function SemaphoreWaitDelegate(k: Kernel, cur: TaskId, s: nat, checkCode: U32): (k': Kernel)
    requires s < |k.semaphores|
    requires k.semaphores[s].notificationCounter == checkCode ==> InRing(k, cur)
  {
    if k.semaphores[s].notificationCounter != checkCode then k
    else SemaphorePush(RingRemove(k, cur), s, cur)
  }

  lemma SemaphoreWaitDelegateSpec(k: Kernel, cur: TaskId, s: nat, checkCode: U32)
    requires Valid(k) && s < |k.semaphores|
    requires k.semaphores[s].notificationCounter == checkCode ==> InRing(k, cur)
    ensures Valid(SemaphoreWaitDelegate(k, cur, s, checkCode))
    ensures k.semaphores[s].notificationCounter != checkCode ==> SemaphoreWaitDelegate(k, cur, s, checkCode) == k
    ensures k.semaphores[s].notificationCounter == checkCode ==>
              var k' := SemaphoreWaitDelegate(k, cur, s, checkCode);
              && PlaceOf(k', cur) == OnSemaphore(s)
              && k'.semaphores[s].waiting == [cur] + k.semaphores[s].waiting
              && k'.semaphores[s].tokenCounter == k.semaphores[s].tokenCounter
              && k'.semaphores[s].notificationCounter == k.semaphores[s].notificationCounter
              && k'.tcbs == k.tcbs
              && OthersStay(k, k', cur)
  {
    if k.semaphores[s].notificationCounter == checkCode {
      var k1 := RingRemove(k, cur);
      RingRemoveSpec(k, cur);
      UniqueAfterRemove(k, k1, cur);
      var k2 := SemaphorePush(k1, s, cur);
      SemaphorePushSpec(k1, s, cur);
      UniqueAfterAdd(k1, k2, cur);
      PlaceOfQueued(k2, cur);
      OthersStayTrans(k, k1, k2, cur);
    }
  }

  /** `_OS_priorityRestore_delegate`: a task running above its own priority
      leaves its ring, gets `originalPriority` back and is pushed on the
      pending list; otherwise nothing happens. */
  function PriorityRestoreDelegate(k: Kernel, t: TaskId): (k': Kernel)
    requires t < |k.tcbs|
    requires k.tcbs[t].priority != k.tcbs[t].originalPriority ==> InRing(k, t)
  {
    var tcb := k.tcbs[t];
    if tcb.priority == tcb.originalPriority then k
    else Requeue(k, t, tcb.originalPriority)
  }

  lemma PriorityRestoreSpec(k: Kernel, t: TaskId)
    requires Valid(k) && t < |k.tcbs|
    requires k.tcbs[t].priority != k.tcbs[t].originalPriority ==> InRing(k, t)
    ensures var k' := PriorityRestoreDelegate(k, t);
            && Valid(k')
            && k'.tcbs[t] == k.tcbs[t].(priority := k.tcbs[t].originalPriority)
            && (k.tcbs[t].priority == k.tcbs[t].originalPriority ==> k' == k)
            && (k.tcbs[t].priority != k.tcbs[t].originalPriority ==> PlaceOf(k', t) == Pending)
            && OthersStay(k, k', t)
            && k'.mutexes == k.mutexes && k'.semaphores == k.semaphores
  {
    if k.tcbs[t].priority != k.tcbs[t].originalPriority {
      assert k.tcbs[t].originalPriority < |k.rings|;
      RequeueSpec(k, t, k.tcbs[t].originalPriority);
    }
  }

  /** Restoring twice is restoring once. */
  lemma PriorityRestoreIdempotent(k: Kernel, t: TaskId)
    requires t < |k.tcbs|
    requires k.tcbs[t].priority != k.tcbs[t].originalPriority ==> InRing(k, t)
    ensures var k' := PriorityRestoreDelegate(k, t);
            t < |k'.tcbs| && PriorityRestoreDelegate(k', t) == k'
  {
  }

  /** An owner promoted by a waiter runs at the waiter's priority; once the
      pending list is drained, an owner that was ready or pending is ready
      again and gets exactly its old TCB back when it restores its priority. */
  lemma PromoteThenRestore(k: Kernel, cur: TaskId, m: nat, checkCode: U32)
    requires Valid(k) && m < |k.mutexes| && k.mutexes[m].notificationCounter == checkCode
    requires MutexWaitReady(k, cur, m)
    requires k.tcbs[k.mutexes[m].owner.value].priority == k.tcbs[k.mutexes[m].owner.value].originalPriority
    requires k.tcbs[k.mutexes[m].owner.value].priority > k.tcbs[cur].priority
    ensures Valid(MutexWaitDelegate(k, cur, m, checkCode))
    ensures var o := k.mutexes[m].owner.value;
            MutexWaitDelegate(k, cur, m, checkCode).tcbs[o] == k.tcbs[o].(priority := k.tcbs[cur].priority)
    ensures var o := k.mutexes[m].owner.value;
            (InRing(k, o) || o in k.pending) ==>
              && WellFormed(MutexWaitDelegate(k, cur, m, checkCode))
              && var k' := Drain(MutexWaitDelegate(k, cur, m, checkCode));
              && o < |k'.tcbs| && InRing(k', o)
              && PriorityRestoreDelegate(k', o).tcbs[o] == k.tcbs[o]
  {
    var o := k.mutexes[m].owner.value;
    MutexWaitPromotes(k, cur, m, checkCode);
    var k1 := MutexWaitDelegate(k, cur, m, checkCode);
    PlaceOfQueued(k1, o);
    PlaceOfQueued(k, o);
    DrainSpec(k1);
  }
}
