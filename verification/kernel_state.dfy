/** The state of the priority kernel: the TCB arena, one ready ring per
    priority level, the sleeping heap, the pending list, and the mutexes and
    semaphores with their waiter queues.

    Every structure is a sequence of task identifiers (see `Rings`, `SlLists`
    and `Heaps`). The kernel keeps each task in at most one structure; the
    whole-kernel invariant `Valid` says so by counting each task's
    `Occurrences` over all structures. The primitive steps at the end of this
    module (take a task out of its ring, push it on the pending list, …) each
    come with a lemma saying how they change those counts and that they keep
    the structural part of the invariant; the scheduler, mutex and semaphore
    modules compose them. */
module KernelState {
  import opened Common
  import Heaps
  import Rings
  import SlLists

  /** Bit zero of `state`: the task has yielded. */
  const TASK_STATE_YIELD: bv32 := 1
  /** Bit one of `state`: the task is sleeping. */
  const TASK_STATE_SLEEP: bv32 := 2
  /** Capacity of each mutex's waiter heap. */
  const MUTEX_WAITINGHEAP_SIZE: nat := 10

  /** An `OS_TCB_t` without its stack pointer and links (the links are the
      structures' sequences): `data` holds the wake time of a sleeping task,
      `priority` is the level the task is queued at, and `originalPriority`
      the level it returns to after priority inheritance. */
  datatype Tcb = Tcb(state: bv32, data: U32, priority: nat, originalPriority: nat)

  /** `OS_mutex_t`: the owner (`task`), the nesting count, the notification
      counter and the waiter heap. */
  datatype Mutex = Mutex(owner: Option<TaskId>, acquireCounter: U32, notificationCounter: U32, waiting: seq<TaskId>)

  /** `OS_semaphore_t`: tokens, notification counter and the waiter list. */
  datatype Semaphore = Semaphore(tokenCounter: U32, notificationCounter: U32, waiting: seq<TaskId>)

  /** The kernel's globals plus the mutexes and semaphores in use. The number
      of rings is `_OS_PRIORITY_LEVELS` and `sleepCapacity` is
      `_OS_SLEEPINGHEAP_SIZE`; neither value is fixed by the kernel sources. */
  datatype Kernel = Kernel(
    tcbs: seq<Tcb>,
    rings: seq<seq<TaskId>>,
    sleeping: seq<TaskId>,
    sleepCapacity: nat,
    pending: seq<TaskId>,
    mutexes: seq<Mutex>,
    semaphores: seq<Semaphore>)

  // ---------------------------------------------------------------------
  // Collections of queues.

  /** How often `t` occurs across a sequence of queues. */
  function Count(qs: seq<seq<TaskId>>, t: TaskId): nat
    decreases |qs|
  {
    if qs == [] then 0 else Count(qs[..|qs| - 1], t) + multiset(qs[|qs| - 1])[t]
  }

  lemma {:induction false} CountPart(qs: seq<seq<TaskId>>, i: nat, t: TaskId)
    requires i < |qs|
    ensures multiset(qs[i])[t] <= Count(qs, t)
    decreases |qs|
  {
    if i < |qs| - 1 {
      CountPart(qs[..|qs| - 1], i, t);
    }
  }

  /** Replacing one queue changes the count by exactly that queue's difference. */
  lemma {:induction false} CountUpdate(qs: seq<seq<TaskId>>, i: nat, q: seq<TaskId>, t: TaskId)
    requires i < |qs|
    ensures Count(qs[i := q], t) + multiset(qs[i])[t] == Count(qs, t) + multiset(q)[t]
    decreases |qs|
  {
    var n := |qs|;
    var qs' := qs[i := q];
    if i == n - 1 {
      assert qs'[..n - 1] == qs[..n - 1];
    } else {
      assert qs'[..n - 1] == qs[..n - 1][i := q];
      CountUpdate(qs[..n - 1], i, q, t);
      assert qs[..n - 1][i] == qs[i];
    }
  }

  /** Reordering the queues one by one keeps every count. */
  lemma {:induction false} CountSame(qs: seq<seq<TaskId>>, qs': seq<seq<TaskId>>, t: TaskId)
    requires |qs| == |qs'| && forall i :: 0 <= i < |qs| ==> multiset(qs[i]) == multiset(qs'[i])
    ensures Count(qs, t) == Count(qs', t)
    decreases |qs|
  {
    if qs != [] {
      var n := |qs| - 1;
      CountSame(qs[..n], qs'[..n], t);
      assert multiset(qs[n]) == multiset(qs'[n]);
    }
  }

  /** The first queue holding `t`, if any. */
  function Holder(qs: seq<seq<TaskId>>, t: TaskId): (h: Option<nat>)
    ensures h.Some? ==> h.value < |qs| && t in qs[h.value]
    ensures h.None? <==> Count(qs, t) == 0
    decreases |qs|
  {
    if qs == [] then None
    else
      var n := |qs| - 1;
      match Holder(qs[..n], t)
      case Some(i) => Some(i)
      case None => if t in qs[n] then Some(n) else None
  }

  /** A task that occurs once across the queues is held by the queue it occurs in. */
  lemma HolderUnique(qs: seq<seq<TaskId>>, i: nat, t: TaskId)
    requires i < |qs| && t in qs[i] && Count(qs, t) <= 1
    ensures Holder(qs, t) == Some(i)
  {
    var h := Holder(qs, t);
    CountPart(qs, i, t);
    CountUpdate(qs, i, [], t);
    if h.value != i {
      CountPart(qs[i := []], h.value, t);
    }
  }

  /** Which queue holds a task depends only on the queues' memberships. */
  lemma {:induction false} HolderSame(qs: seq<seq<TaskId>>, qs': seq<seq<TaskId>>, t: TaskId)
    requires |qs| == |qs'|
    requires forall i :: 0 <= i < |qs| ==> (t in qs[i] <==> t in qs'[i])
    ensures Holder(qs, t) == Holder(qs', t)
    decreases |qs|
  {
    if qs != [] {
      var n := |qs| - 1;
      HolderSame(qs[..n], qs'[..n], t);
    }
  }

  /** The waiter queues of a sequence of synchronisation objects. */
  function Queues<S>(xs: seq<S>, waiting: S -> seq<TaskId>): (qs: seq<seq<TaskId>>)
    ensures |qs| == |xs| && forall i :: 0 <= i < |xs| ==> qs[i] == waiting(xs[i])
  {
    seq(|xs|, i requires 0 <= i < |xs| => waiting(xs[i]))
  }

  function MutexQueues(ms: seq<Mutex>): (qs: seq<seq<TaskId>>)
    ensures |qs| == |ms| && forall i :: 0 <= i < |ms| ==> qs[i] == ms[i].waiting
  {
    Queues(ms, (mx: Mutex) => mx.waiting)
  }

  function SemaphoreQueues(ss: seq<Semaphore>): (qs: seq<seq<TaskId>>)
    ensures |qs| == |ss| && forall i :: 0 <= i < |ss| ==> qs[i] == ss[i].waiting
  {
    Queues(ss, (sm: Semaphore) => sm.waiting)
  }

  /** How often `t` is queued, over all structures of the kernel. */
  function Occurrences(k: Kernel, t: TaskId): nat {
    Count(k.rings, t) + multiset(k.sleeping)[t] + multiset(k.pending)[t]
      + Count(MutexQueues(k.mutexes), t) + Count(SemaphoreQueues(k.semaphores), t)
  }

  /** One pass of an acquire loop: the lock or token was taken, giving the
      new state, or the caller must wait with the notification count it read. */
  datatype Attempt = Acquired(k: Kernel) | MustWait(checkCode: U32)

  /** Where a task is queued. */
  datatype Place = Detached | Ready(level: nat) | Asleep | Pending | OnMutex(mutex: nat) | OnSemaphore(semaphore: nat)

  function PlaceOf(k: Kernel, t: TaskId): Place {
    match Holder(k.rings, t)
    case Some(i) => Ready(i)
    case None =>
      if t in k.sleeping then Asleep
      else if t in k.pending then Pending
      else match Holder(MutexQueues(k.mutexes), t)
        case Some(m) => OnMutex(m)
        case None =>
          match Holder(SemaphoreQueues(k.semaphores), t)
          case Some(s) => OnSemaphore(s)
          case None => Detached
  }

  // ---------------------------------------------------------------------
  // The invariant.

  /** The heap comparators: wake time for the sleeping heap, priority
      number for a mutex's waiters (smaller first in both). */
  function WakeKey(tcbs: seq<Tcb>): TaskId -> int {
    (t: TaskId) => if t < |tcbs| then tcbs[t].data else 0
  }

  function PriorityKey(tcbs: seq<Tcb>): TaskId -> int {
    (t: TaskId) => if t < |tcbs| then tcbs[t].priority else 0
  }

  /** Every queued task names a TCB (the rings are covered by `RingsAtLevel`). */
  predicate IdsInRange(k: Kernel) {
    && (forall t :: t in k.sleeping ==> t < |k.tcbs|)
    && (forall t :: t in k.pending ==> t < |k.tcbs|)
    && (forall m, t :: 0 <= m < |k.mutexes| && t in k.mutexes[m].waiting ==> t < |k.tcbs|)
    && (forall s, t :: 0 <= s < |k.semaphores| && t in k.semaphores[s].waiting ==> t < |k.tcbs|)
  }

  predicate LevelsInRange(k: Kernel) {
    forall t :: 0 <= t < |k.tcbs| ==>
      k.tcbs[t].priority < |k.rings| && k.tcbs[t].originalPriority < |k.rings|
  }

  /** A ready task sits in the ring of its current priority. */
  predicate RingsAtLevel(k: Kernel) {
    forall i :: 0 <= i < |k.rings| ==> AtLevel(k.rings[i], k.tcbs, i)
  }

  /** Every task of ring `r` has priority `i`. */
  predicate AtLevel(r: seq<TaskId>, tcbs: seq<Tcb>, i: nat) {
    forall t :: t in r ==> t < |tcbs| && tcbs[t].priority == i
  }

  predicate SleepingHeap(k: Kernel) {
    && Heaps.HeapOrdered(k.sleeping, WakeKey(k.tcbs))
    && |k.sleeping| <= k.sleepCapacity
  }

  /** A mutex's heap is ordered and within its store, and it has an owner
      exactly when its nesting count is non-zero. */
  predicate MutexValid(mx: Mutex, tcbs: seq<Tcb>) {
    && Heaps.HeapOrdered(mx.waiting, PriorityKey(tcbs))
    && |mx.waiting| <= MUTEX_WAITINGHEAP_SIZE
    && (mx.owner.None? <==> mx.acquireCounter == 0)
    && (mx.owner.Some? ==> mx.owner.value < |tcbs|)
  }

  predicate MutexesValid(k: Kernel) {
    forall m :: 0 <= m < |k.mutexes| ==> MutexValid(k.mutexes[m], k.tcbs)
  }

  /** Everything but uniqueness. */
  ghost predicate WellFormed(k: Kernel) {
    && |k.rings| >= 1
    && IdsInRange(k)
    && LevelsInRange(k)
    && RingsAtLevel(k)
    && SleepingHeap(k)
    && MutexesValid(k)
  }

  /** No task is queued twice, in one structure or across two. */
  ghost predicate Unique(k: Kernel) {
    forall t :: Occurrences(k, t) <= 1
  }

  ghost predicate Valid(k: Kernel) {
    WellFormed(k) && Unique(k)
  }

  /** `k'` queues `t` once more than `k`, and every other task as often. */
  ghost predicate OneMore(k: Kernel, k': Kernel, t: TaskId) {
    forall u :: Occurrences(k', u) == Occurrences(k, u) + (if u == t then 1 else 0)
  }

  ghost predicate SameOccurrences(k: Kernel, k': Kernel) {
    forall u :: Occurrences(k', u) == Occurrences(k, u)
  }

  /** The task is in the ring of its priority: it is ready or running. */
  predicate InRing(k: Kernel, t: TaskId) {
    && t < |k.tcbs|
    && k.tcbs[t].priority < |k.rings|
    && t in k.rings[k.tcbs[t].priority]
  }

  /** Task `u` is in the same structures in `k` and `k'`. */
  predicate SameMembership(k: Kernel, k': Kernel, u: TaskId) {
    && |k'.rings| == |k.rings|
    && |k'.mutexes| == |k.mutexes|
    && |k'.semaphores| == |k.semaphores|
    && (forall i :: 0 <= i < |k.rings| ==> (u in k'.rings[i] <==> u in k.rings[i]))
    && (u in k'.sleeping <==> u in k.sleeping)
    && (u in k'.pending <==> u in k.pending)
    && (forall m :: 0 <= m < |k.mutexes| ==> (u in k'.mutexes[m].waiting <==> u in k.mutexes[m].waiting))
    && (forall s :: 0 <= s < |k.semaphores| ==> (u in k'.semaphores[s].waiting <==> u in k.semaphores[s].waiting))
  }

  /** Every task other than `t` keeps its place and its TCB. */
  ghost predicate OthersStay(k: Kernel, k': Kernel, t: TaskId) {
    && |k'.tcbs| == |k.tcbs|
    && (forall u :: u != t ==> SameMembership(k, k', u))
    && (forall u :: 0 <= u < |k.tcbs| && u != t ==> k'.tcbs[u] == k.tcbs[u])
  }

  /** Queueing a task that was queued nowhere keeps the kernel free of duplicates. */
  lemma UniqueAfterAdd(k: Kernel, k': Kernel, t: TaskId)
    requires Unique(k) && Occurrences(k, t) == 0 && OneMore(k, k', t)
    ensures Unique(k') && Occurrences(k', t) == 1
  {
  }

  /** Taking a task out of a duplicate-free kernel leaves it queued nowhere. */
  lemma UniqueAfterRemove(k: Kernel, k': Kernel, t: TaskId)
    requires Unique(k) && OneMore(k', k, t)
    ensures Unique(k') && Occurrences(k', t) == 0 && Occurrences(k, t) == 1
  {
    assert Occurrences(k, t) <= 1;
  }

  lemma SameMembershipTrans(k1: Kernel, k2: Kernel, k3: Kernel, u: TaskId)
    requires SameMembership(k1, k2, u) && SameMembership(k2, k3, u)
    ensures SameMembership(k1, k3, u)
  {
  }

  lemma OthersStayTrans(k1: Kernel, k2: Kernel, k3: Kernel, t: TaskId)
    requires OthersStay(k1, k2, t) && OthersStay(k2, k3, t)
    ensures OthersStay(k1, k3, t)
  {
    forall u | u != t ensures SameMembership(k1, k3, u) {
      assert SameMembership(k1, k2, u) && SameMembership(k2, k3, u);
    }
  }

  lemma SamePlace(k: Kernel, k': Kernel, u: TaskId)
    requires SameMembership(k, k', u)
    ensures PlaceOf(k', u) == PlaceOf(k, u)
  {
    HolderSame(k.rings, k'.rings, u);
    HolderSame(MutexQueues(k.mutexes), MutexQueues(k'.mutexes), u);
    HolderSame(SemaphoreQueues(k.semaphores), SemaphoreQueues(k'.semaphores), u);
  }

  /** In a kernel without duplicates, `PlaceOf` names the one structure a
      queued task is in. */
  lemma PlaceOfQueued(k: Kernel, t: TaskId)
    requires Unique(k)
    ensures forall i :: 0 <= i < |k.rings| && t in k.rings[i] ==> PlaceOf(k, t) == Ready(i)
    ensures t in k.sleeping ==> PlaceOf(k, t) == Asleep
    ensures t in k.pending ==> PlaceOf(k, t) == Pending
    ensures forall m :: 0 <= m < |k.mutexes| && t in k.mutexes[m].waiting ==> PlaceOf(k, t) == OnMutex(m)
    ensures forall s :: 0 <= s < |k.semaphores| && t in k.semaphores[s].waiting ==> PlaceOf(k, t) == OnSemaphore(s)
    ensures Occurrences(k, t) == 0 ==> PlaceOf(k, t) == Detached
  {
    assert Occurrences(k, t) <= 1;
    forall i | 0 <= i < |k.rings| && t in k.rings[i] ensures PlaceOf(k, t) == Ready(i) {
      CountPart(k.rings, i, t);
      HolderUnique(k.rings, i, t);
    }
    var mq := MutexQueues(k.mutexes);
    var sq := SemaphoreQueues(k.semaphores);
    forall m | 0 <= m < |k.mutexes| && t in k.mutexes[m].waiting ensures PlaceOf(k, t) == OnMutex(m) {
      CountPart(mq, m, t);
      HolderUnique(mq, m, t);
    }
    forall s | 0 <= s < |k.semaphores| && t in k.semaphores[s].waiting ensures PlaceOf(k, t) == OnSemaphore(s) {
      CountPart(sq, s, t);
      HolderUnique(sq, s, t);
    }
  }

  /** A task counted nowhere is in no structure. */
  lemma Unqueued(k: Kernel, t: TaskId)
    requires Occurrences(k, t) == 0
    ensures forall i :: 0 <= i < |k.rings| ==> t !in k.rings[i]
    ensures t !in k.sleeping && t !in k.pending
    ensures forall m :: 0 <= m < |k.mutexes| ==> t !in k.mutexes[m].waiting
    ensures forall s :: 0 <= s < |k.semaphores| ==> t !in k.semaphores[s].waiting
  {
    forall i | 0 <= i < |k.rings| ensures t !in k.rings[i] { CountPart(k.rings, i, t); }
    forall m | 0 <= m < |k.mutexes| ensures t !in k.mutexes[m].waiting { CountPart(MutexQueues(k.mutexes), m, t); }
    forall s | 0 <= s < |k.semaphores| ensures t !in k.semaphores[s].waiting { CountPart(SemaphoreQueues(k.semaphores), s, t); }
  }

  // ---------------------------------------------------------------------
  // Primitive steps.

  /** `_list_remove(&task_list[t->priority], t)`. */
  function RingRemove(k: Kernel, t: TaskId): Kernel
    requires InRing(k, t)
  {
    var p := k.tcbs[t].priority;
    k.(rings := k.rings[p := Rings.Remove(k.rings[p], t)])
  }

  /** `_list_add(&task_list[t->priority], t)`. */
  function RingAdd(k: Kernel, t: TaskId): Kernel
    requires t < |k.tcbs| && k.tcbs[t].priority < |k.rings|
  {
    var p := k.tcbs[t].priority;
    k.(rings := k.rings[p := Rings.Add(k.rings[p], t)])
  }

  /** `list_push_sl(&pending_list, t)`. */
  function PendingPush(k: Kernel, t: TaskId): Kernel {
    k.(pending := SlLists.Push(k.pending, t))
  }

  /** `OS_heap_insert(&sleeping_heap, t)`. */
  function SleepInsert(k: Kernel, t: TaskId): Kernel {
    k.(sleeping := Heaps.Insert(k.sleeping, WakeKey(k.tcbs), t))
  }

  /** `OS_heap_insert(&mutex->waiting_heap, t)`. */
  function MutexInsert(k: Kernel, m: nat, t: TaskId): Kernel
    requires m < |k.mutexes|
  {
    var mx := k.mutexes[m];
    k.(mutexes := k.mutexes[m := mx.(waiting := Heaps.Insert(mx.waiting, PriorityKey(k.tcbs), t))])
  }

  /** `OS_heap_extract(&mutex->waiting_heap)` on a non-empty heap. */
  function MutexExtract(k: Kernel, m: nat): Kernel
    requires m < |k.mutexes|
  {
    var mx := k.mutexes[m];
    k.(mutexes := k.mutexes[m := mx.(waiting := Heaps.Extract(mx.waiting, PriorityKey(k.tcbs)).1)])
  }

  /** `list_push_sl(&semaphore->waiting_list, t)`. */
  function SemaphorePush(k: Kernel, s: nat, t: TaskId): Kernel
    requires s < |k.semaphores|
  {
    var sm := k.semaphores[s];
    k.(semaphores := k.semaphores[s := sm.(waiting := SlLists.Push(sm.waiting, t))])
  }

  /** `list_pop_tail_sl(&semaphore->waiting_list)`. */
  function SemaphorePopTail(k: Kernel, s: nat): Kernel
    requires s < |k.semaphores|
  {
    var sm := k.semaphores[s];
    k.(semaphores := k.semaphores[s := sm.(waiting := SlLists.PopTail(sm.waiting).1)])
  }

  function SetTcb(k: Kernel, t: TaskId, tcb: Tcb): Kernel
    requires t < |k.tcbs|
  {
    k.(tcbs := k.tcbs[t := tcb])
  }

  /** Replaces a mutex's owner and counters; its waiters stay. */
  function SetMutex(k: Kernel, m: nat, mx: Mutex): Kernel
    requires m < |k.mutexes|
  {
    k.(mutexes := k.mutexes[m := mx])
  }

  /** Replaces a semaphore's counters; its waiters stay. */
  function SetSemaphore(k: Kernel, s: nat, sm: Semaphore): Kernel
    requires s < |k.semaphores|
  {
    k.(semaphores := k.semaphores[s := sm])
  }

  /** A task's priority is raised to `level` in place, wherever it is
      queued: its TCB changes, and a mutex heap that holds it is sifted up
      from its cell, since its key has become smaller. */
  function RaisePriority(k: Kernel, t: TaskId, level: nat): Kernel
    requires t < |k.tcbs|
  {
    var tcbs' := k.tcbs[t := k.tcbs[t].(priority := level)];
    k.(tcbs := tcbs', mutexes := seq(|k.mutexes|, j requires 0 <= j < |k.mutexes| => Resift(k.mutexes[j], tcbs', t)))
  }

  /** The waiters of `mx` re-sifted for `t`'s key under `tcbs`. */
  function Resift(mx: Mutex, tcbs: seq<Tcb>, t: TaskId): Mutex {
    if t in mx.waiting then
      mx.(waiting := Heaps.SiftUp(mx.waiting, PriorityKey(tcbs), IndexOf(mx.waiting, t) + 1))
    else mx
  }

  /** A task stored once in a sequence is at no other index. */
  lemma OnlyIndex(s: seq<TaskId>, i: nat, j: nat)
    requires i < |s| && j < |s| && i != j && multiset(s)[s[i]] <= 1
    ensures s[j] != s[i]
  {
    var lo := if i < j then i else j;
    var hi := if i < j then j else i;
    assert s == s[..hi] + [s[hi]] + s[hi + 1..];
    assert s[lo] in multiset(s[..hi]);
    assert multiset(s)[s[hi]] >= multiset(s[..hi])[s[hi]] + 1;
  }

  /** Re-sifting a mutex for a task whose priority was raised keeps it valid
      and keeps its waiters, owner and counters. */
  lemma ResiftSpec(mx: Mutex, tcbs: seq<Tcb>, t: TaskId, level: nat)
    requires MutexValid(mx, tcbs) && t < |tcbs| && level <= tcbs[t].priority
    requires multiset(mx.waiting)[t] <= 1
    ensures var tcbs' := tcbs[t := tcbs[t].(priority := level)];
            var mx' := Resift(mx, tcbs', t);
            && MutexValid(mx', tcbs')
            && multiset(mx'.waiting) == multiset(mx.waiting)
            && mx'.owner == mx.owner && mx'.acquireCounter == mx.acquireCounter
            && mx'.notificationCounter == mx.notificationCounter
  {
    var tcbs' := tcbs[t := tcbs[t].(priority := level)];
    var w := mx.waiting;
    var k1 := PriorityKey(tcbs);
    var k2 := PriorityKey(tcbs');
    if t in w {
      var c := IndexOf(w, t);
      forall j | 0 <= j < |w| && j != c ensures w[j] != w[c] && k2(w[j]) == k1(w[j]) {
        OnlyIndex(w, c, j);
      }
      Heaps.DecreaseKey(w, k1, k2, c);
    } else {
      assert forall x :: x in w ==> k1(x) == k2(x);
      Heaps.OrderedSameKeys(w, k1, k2);
    }
  }

  lemma MutexQueuesUpdate(ms: seq<Mutex>, m: nat, mx: Mutex)
    requires m < |ms|
    ensures MutexQueues(ms[m := mx]) == MutexQueues(ms)[m := mx.waiting]
  {
  }

  lemma SemaphoreQueuesUpdate(ss: seq<Semaphore>, s: nat, sm: Semaphore)
    requires s < |ss|
    ensures SemaphoreQueues(ss[s := sm]) == SemaphoreQueues(ss)[s := sm.waiting]
  {
  }

  /** Adding one occurrence of `t` leaves the membership of the others. */
  lemma GrowMembership(a: seq<TaskId>, b: seq<TaskId>, t: TaskId)
    requires multiset(b) == multiset(a) + multiset{t}
    ensures t in b
    ensures forall u :: u != t ==> (u in b <==> u in a)
    ensures forall u :: u in a ==> u in b
    ensures forall u :: multiset(b)[u] == multiset(a)[u] + (if u == t then 1 else 0)
  {
    assert t in multiset(b);
    forall u | u != t ensures u in b <==> u in a {
      assert multiset(b)[u] == multiset(a)[u];
    }
  }

  // Each part of `WellFormed` depends on a few fields only.

  lemma RingsFrame(k: Kernel, k': Kernel)
    requires RingsAtLevel(k) && LevelsInRange(k) && k'.rings == k.rings && k'.tcbs == k.tcbs
    ensures RingsAtLevel(k') && LevelsInRange(k')
  {
  }

  lemma SleepFrame(k: Kernel, k': Kernel)
    requires SleepingHeap(k) && k'.sleeping == k.sleeping && k'.sleepCapacity == k.sleepCapacity && k'.tcbs == k.tcbs
    ensures SleepingHeap(k')
  {
  }

  lemma MutexFrame(k: Kernel, k': Kernel)
    requires MutexesValid(k) && k'.mutexes == k.mutexes && k'.tcbs == k.tcbs
    ensures MutexesValid(k')
  {
  }

  lemma IdsFrame(k: Kernel, k': Kernel)
    requires IdsInRange(k) && |k'.tcbs| == |k.tcbs|
    requires forall t :: t in k'.sleeping ==> t in k.sleeping
    requires forall t :: t in k'.pending ==> t in k.pending
    requires k'.mutexes == k.mutexes && k'.semaphores == k.semaphores
    ensures IdsInRange(k')
  {
  }

  /** Ring `p` changes from `k.rings[p]` to `r'`; nothing else changes. */
  lemma RingUpdate(k: Kernel, p: nat, r': seq<TaskId>, t: TaskId)
    requires WellFormed(k) && p < |k.rings| && AtLevel(r', k.tcbs, p)
    requires multiset(r') == multiset(k.rings[p]) + multiset{t}
          || multiset(k.rings[p]) == multiset(r') + multiset{t}
    ensures var k' := k.(rings := k.rings[p := r']);
            && WellFormed(k')
            && (forall u :: Occurrences(k', u) + multiset(k.rings[p])[u] == Occurrences(k, u) + multiset(r')[u])
            && OthersStay(k, k', t)
  {
    var k' := k.(rings := k.rings[p := r']);
    if multiset(r') == multiset(k.rings[p]) + multiset{t} {
      GrowMembership(k.rings[p], r', t);
    } else {
      GrowMembership(r', k.rings[p], t);
    }
    forall u ensures Occurrences(k', u) + multiset(k.rings[p])[u] == Occurrences(k, u) + multiset(r')[u] {
      CountUpdate(k.rings, p, r', u);
    }
    assert RingsAtLevel(k') by {
      forall i | 0 <= i < |k'.rings| ensures AtLevel(k'.rings[i], k'.tcbs, i) {
        assert AtLevel(k.rings[i], k.tcbs, i);
      }
    }
    IdsFrame(k, k');
    SleepFrame(k, k');
    MutexFrame(k, k');
    forall u | u != t ensures SameMembership(k, k', u) {
      forall i | 0 <= i < |k.rings| ensures u in k'.rings[i] <==> u in k.rings[i] {
      }
    }
  }

  /** Reordering one ring keeps every task where it is. */
  lemma RingReorderSpec(k: Kernel, p: nat, r': seq<TaskId>)
    requires WellFormed(k) && p < |k.rings| && multiset(r') == multiset(k.rings[p])
    ensures var k' := k.(rings := k.rings[p := r']);
            && WellFormed(k')
            && SameOccurrences(k, k')
            && (forall u :: SameMembership(k, k', u))
  {
    var k' := k.(rings := k.rings[p := r']);
    forall u ensures Occurrences(k', u) == Occurrences(k, u) {
      CountUpdate(k.rings, p, r', u);
    }
    assert forall u :: u in r' <==> u in k.rings[p] by {
      forall u ensures u in r' <==> u in k.rings[p] {
        assert u in multiset(r') <==> u in multiset(k.rings[p]);
      }
    }
    assert RingsAtLevel(k') by {
      forall i | 0 <= i < |k'.rings| ensures AtLevel(k'.rings[i], k'.tcbs, i) {
        assert AtLevel(k.rings[i], k.tcbs, i);
      }
    }
    IdsFrame(k, k');
    SleepFrame(k, k');
    MutexFrame(k, k');
    forall u ensures SameMembership(k, k', u) {
      forall i | 0 <= i < |k.rings| ensures u in k'.rings[i] <==> u in k.rings[i] {
      }
    }
  }

  lemma RingRemoveSpec(k: Kernel, t: TaskId)
    requires WellFormed(k) && InRing(k, t)
    ensures WellFormed(RingRemove(k, t))
    ensures OneMore(RingRemove(k, t), k, t)
    ensures OthersStay(k, RingRemove(k, t), t)
  {
    var p := k.tcbs[t].priority;
    var r' := Rings.Remove(k.rings[p], t);
    assert AtLevel(k.rings[p], k.tcbs, p);
    GrowMembership(r', k.rings[p], t);
    RingUpdate(k, p, r', t);
  }

  lemma RingAddSpec(k: Kernel, t: TaskId)
    requires WellFormed(k) && t < |k.tcbs|
    ensures k.tcbs[t].priority < |k.rings|
    ensures WellFormed(RingAdd(k, t))
    ensures OneMore(k, RingAdd(k, t), t)
    ensures OthersStay(k, RingAdd(k, t), t)
    ensures RingAdd(k, t).rings[k.tcbs[t].priority] == k.rings[k.tcbs[t].priority] + [t]
  {
    var p := k.tcbs[t].priority;
    var r' := Rings.Add(k.rings[p], t);
    assert AtLevel(k.rings[p], k.tcbs, p);
    GrowMembership(k.rings[p], r', t);
    RingUpdate(k, p, r', t);
  }

  lemma PendingPushSpec(k: Kernel, t: TaskId)
    requires WellFormed(k) && t < |k.tcbs|
    ensures WellFormed(PendingPush(k, t))
    ensures OneMore(k, PendingPush(k, t), t)
    ensures OthersStay(k, PendingPush(k, t), t)
    ensures PendingPush(k, t).pending == [t] + k.pending
  {
    var k' := k.(pending := [t] + k.pending);
    assert PendingPush(k, t) == k';
    assert multiset(k'.pending) == multiset(k.pending) + multiset{t};
    GrowMembership(k.pending, k'.pending, t);
    RingsFrame(k, k');
    SleepFrame(k, k');
    MutexFrame(k, k');
    forall u | u != t ensures SameMembership(k, k', u) {
    }
  }

  /** Taking the head of the pending list. */
  lemma PendingPopSpec(k: Kernel)
    requires WellFormed(k) && k.pending != []
    ensures WellFormed(k.(pending := k.pending[1..]))
    ensures OneMore(k.(pending := k.pending[1..]), k, k.pending[0])
    ensures OthersStay(k, k.(pending := k.pending[1..]), k.pending[0])
  {
    var t := k.pending[0];
    var k' := k.(pending := k.pending[1..]);
    assert k.pending == [t] + k'.pending;
    assert multiset(k.pending) == multiset(k'.pending) + multiset{t};
    GrowMembership(k'.pending, k.pending, t);
    RingsFrame(k, k');
    SleepFrame(k, k');
    MutexFrame(k, k');
    IdsFrame(k, k');
    forall u | u != t ensures SameMembership(k, k', u) {
    }
  }

  lemma SleepInsertSpec(k: Kernel, t: TaskId)
    requires WellFormed(k) && t < |k.tcbs| && |k.sleeping| < k.sleepCapacity
    ensures WellFormed(SleepInsert(k, t))
    ensures OneMore(k, SleepInsert(k, t), t)
    ensures OthersStay(k, SleepInsert(k, t), t)
    ensures t in SleepInsert(k, t).sleeping
  {
    var s' := Heaps.Insert(k.sleeping, WakeKey(k.tcbs), t);
    var k' := k.(sleeping := s');
    assert SleepInsert(k, t) == k';
    GrowMembership(k.sleeping, s', t);
    RingsFrame(k, k');
    MutexFrame(k, k');
    forall u | u != t ensures SameMembership(k, k', u) {
    }
  }

  /** Extracting the root of a non-empty sleeping heap. */
  lemma SleepExtractSpec(k: Kernel)
    requires WellFormed(k) && k.sleeping != []
    ensures var k' := k.(sleeping := Heaps.Extract(k.sleeping, WakeKey(k.tcbs)).1);
            && WellFormed(k')
            && OneMore(k', k, k.sleeping[0])
            && OthersStay(k, k', k.sleeping[0])
  {
    var t := k.sleeping[0];
    var s' := Heaps.Extract(k.sleeping, WakeKey(k.tcbs)).1;
    var k' := k.(sleeping := s');
    GrowMembership(s', k.sleeping, t);
    RingsFrame(k, k');
    MutexFrame(k, k');
    IdsFrame(k, k');
    forall u | u != t ensures SameMembership(k, k', u) {
    }
  }

  /** Only mutex `m`'s waiters change, to `w'`, by one occurrence of `t`. */
  lemma MutexWaitingUpdate(k: Kernel, m: nat, w': seq<TaskId>, t: TaskId)
    requires WellFormed(k) && m < |k.mutexes|
    requires Heaps.HeapOrdered(w', PriorityKey(k.tcbs)) && |w'| <= MUTEX_WAITINGHEAP_SIZE
    requires forall u :: u in w' ==> u < |k.tcbs|
    requires multiset(w') == multiset(k.mutexes[m].waiting) + multiset{t}
          || multiset(k.mutexes[m].waiting) == multiset(w') + multiset{t}
    ensures var k' := k.(mutexes := k.mutexes[m := k.mutexes[m].(waiting := w')]);
            && WellFormed(k')
            && (forall u :: Occurrences(k', u) + multiset(k.mutexes[m].waiting)[u] == Occurrences(k, u) + multiset(w')[u])
            && OthersStay(k, k', t)
  {
    var mx := k.mutexes[m];
    var k' := k.(mutexes := k.mutexes[m := mx.(waiting := w')]);
    if multiset(w') == multiset(mx.waiting) + multiset{t} {
      GrowMembership(mx.waiting, w', t);
    } else {
      GrowMembership(w', mx.waiting, t);
    }
    MutexQueuesUpdate(k.mutexes, m, mx.(waiting := w'));
    forall u ensures Occurrences(k', u) + multiset(mx.waiting)[u] == Occurrences(k, u) + multiset(w')[u] {
      CountUpdate(MutexQueues(k.mutexes), m, w', u);
    }
    assert IdsInRange(k') by {
      forall j: nat, u: TaskId | j < |k'.mutexes| && u in k'.mutexes[j].waiting ensures u < |k'.tcbs| {
        if j != m { assert u in k.mutexes[j].waiting; }
      }
    }
    assert MutexesValid(k') by {
      forall j | 0 <= j < |k'.mutexes| ensures MutexValid(k'.mutexes[j], k'.tcbs) {
        assert MutexValid(k.mutexes[j], k.tcbs);
      }
    }
    RingsFrame(k, k');
    SleepFrame(k, k');
    forall u | u != t ensures SameMembership(k, k', u) {
      forall j | 0 <= j < |k.mutexes| ensures u in k'.mutexes[j].waiting <==> u in k.mutexes[j].waiting {
      }
    }
  }

  lemma MutexInsertSpec(k: Kernel, m: nat, t: TaskId)
    requires WellFormed(k) && m < |k.mutexes| && t < |k.tcbs|
    requires |k.mutexes[m].waiting| < MUTEX_WAITINGHEAP_SIZE
    ensures WellFormed(MutexInsert(k, m, t))
    ensures OneMore(k, MutexInsert(k, m, t), t)
    ensures OthersStay(k, MutexInsert(k, m, t), t)
    ensures t in MutexInsert(k, m, t).mutexes[m].waiting
    ensures forall j :: 0 <= j < |k.mutexes| ==>
              MutexInsert(k, m, t).mutexes[j].owner == k.mutexes[j].owner
              && MutexInsert(k, m, t).mutexes[j].acquireCounter == k.mutexes[j].acquireCounter
              && MutexInsert(k, m, t).mutexes[j].notificationCounter == k.mutexes[j].notificationCounter
  {
    var mx := k.mutexes[m];
    var w' := Heaps.Insert(mx.waiting, PriorityKey(k.tcbs), t);
    assert MutexValid(mx, k.tcbs);
    GrowMembership(mx.waiting, w', t);
    MutexWaitingUpdate(k, m, w', t);
  }

  lemma MutexExtractSpec(k: Kernel, m: nat)
    requires WellFormed(k) && m < |k.mutexes| && k.mutexes[m].waiting != []
    ensures var t := k.mutexes[m].waiting[0];
            var k' := MutexExtract(k, m);
            && WellFormed(k')
            && OneMore(k', k, t)
            && OthersStay(k, k', t)
            && (forall j :: 0 <= j < |k.mutexes| ==>
                  k'.mutexes[j].owner == k.mutexes[j].owner
                  && k'.mutexes[j].acquireCounter == k.mutexes[j].acquireCounter
                  && k'.mutexes[j].notificationCounter == k.mutexes[j].notificationCounter)
  {
    var mx := k.mutexes[m];
    var t := mx.waiting[0];
    var w' := Heaps.Extract(mx.waiting, PriorityKey(k.tcbs)).1;
    assert MutexValid(mx, k.tcbs);
    GrowMembership(w', mx.waiting, t);
    MutexWaitingUpdate(k, m, w', t);
  }

  /** Only semaphore `s`'s waiters change, to `w'`, by one occurrence of `t`. */
  lemma SemaphoreWaitingUpdate(k: Kernel, s: nat, w': seq<TaskId>, t: TaskId)
    requires WellFormed(k) && s < |k.semaphores|
    requires forall u :: u in w' ==> u < |k.tcbs|
    requires multiset(w') == multiset(k.semaphores[s].waiting) + multiset{t}
          || multiset(k.semaphores[s].waiting) == multiset(w') + multiset{t}
    ensures var k' := k.(semaphores := k.semaphores[s := k.semaphores[s].(waiting := w')]);
            && WellFormed(k')
            && (forall u :: Occurrences(k', u) + multiset(k.semaphores[s].waiting)[u] == Occurrences(k, u) + multiset(w')[u])
            && OthersStay(k, k', t)
  {
    var sm := k.semaphores[s];
    var k' := k.(semaphores := k.semaphores[s := sm.(waiting := w')]);
    if multiset(w') == multiset(sm.waiting) + multiset{t} {
      GrowMembership(sm.waiting, w', t);
    } else {
      GrowMembership(w', sm.waiting, t);
    }
    SemaphoreQueuesUpdate(k.semaphores, s, sm.(waiting := w'));
    forall u ensures Occurrences(k', u) + multiset(sm.waiting)[u] == Occurrences(k, u) + multiset(w')[u] {
      CountUpdate(SemaphoreQueues(k.semaphores), s, w', u);
    }
    assert IdsInRange(k') by {
      forall j: nat, u: TaskId | j < |k'.semaphores| && u in k'.semaphores[j].waiting ensures u < |k'.tcbs| {
        if j != s { assert u in k.semaphores[j].waiting; }
      }
    }
    RingsFrame(k, k');
    SleepFrame(k, k');
    MutexFrame(k, k');
    forall u | u != t ensures SameMembership(k, k', u) {
      forall j | 0 <= j < |k.semaphores| ensures u in k'.semaphores[j].waiting <==> u in k.semaphores[j].waiting {
      }
    }
  }

  lemma SemaphorePushSpec(k: Kernel, s: nat, t: TaskId)
    requires WellFormed(k) && s < |k.semaphores| && t < |k.tcbs|
    ensures WellFormed(SemaphorePush(k, s, t))
    ensures OneMore(k, SemaphorePush(k, s, t), t)
    ensures OthersStay(k, SemaphorePush(k, s, t), t)
    ensures SemaphorePush(k, s, t).semaphores[s].waiting == [t] + k.semaphores[s].waiting
    ensures forall j :: 0 <= j < |k.semaphores| ==>
              SemaphorePush(k, s, t).semaphores[j].tokenCounter == k.semaphores[j].tokenCounter
              && SemaphorePush(k, s, t).semaphores[j].notificationCounter == k.semaphores[j].notificationCounter
  {
    var sm := k.semaphores[s];
    var w' := [t] + sm.waiting;
    assert multiset(w') == multiset(sm.waiting) + multiset{t};
    GrowMembership(sm.waiting, w', t);
    SemaphoreWaitingUpdate(k, s, w', t);
  }

  lemma SemaphorePopTailSpec(k: Kernel, s: nat)
    requires WellFormed(k) && s < |k.semaphores| && k.semaphores[s].waiting != []
    ensures var w := k.semaphores[s].waiting;
            var t := w[|w| - 1];
            var k' := SemaphorePopTail(k, s);
            && WellFormed(k')
            && OneMore(k', k, t)
            && OthersStay(k, k', t)
            && k'.semaphores[s].waiting == w[..|w| - 1]
            && (forall j :: 0 <= j < |k.semaphores| ==>
                  k'.semaphores[j].tokenCounter == k.semaphores[j].tokenCounter
                  && k'.semaphores[j].notificationCounter == k.semaphores[j].notificationCounter)
  {
    var sm := k.semaphores[s];
    var w := sm.waiting;
    var t := w[|w| - 1];
    var w' := w[..|w| - 1];
    assert w == w' + [t];
    assert multiset(w) == multiset(w') + multiset{t};
    GrowMembership(w', w, t);
    SemaphoreWaitingUpdate(k, s, w', t);
  }

  /** Changing one TCB keeps the structure intact when the task is queued
      nowhere, or when neither its priority nor its wake time changes. */
  lemma SetTcbSpec(k: Kernel, t: TaskId, tcb: Tcb)
    requires WellFormed(k) && t < |k.tcbs|
    requires tcb.priority < |k.rings| && tcb.originalPriority < |k.rings|
    requires Occurrences(k, t) == 0 || (tcb.priority == k.tcbs[t].priority && tcb.data == k.tcbs[t].data)
    ensures WellFormed(SetTcb(k, t, tcb))
    ensures SameOccurrences(k, SetTcb(k, t, tcb))
    ensures forall u :: PlaceOf(SetTcb(k, t, tcb), u) == PlaceOf(k, u)
    ensures OthersStay(k, SetTcb(k, t, tcb), t)
  {
    var k' := k.(tcbs := k.tcbs[t := tcb]);
    assert SetTcb(k, t, tcb) == k';
    if Occurrences(k, t) == 0 {
      Unqueued(k, t);
    }
    assert RingsAtLevel(k') by {
      forall i | 0 <= i < |k'.rings| ensures AtLevel(k'.rings[i], k'.tcbs, i) {
        assert AtLevel(k.rings[i], k.tcbs, i);
        forall u | u in k.rings[i] ensures k'.tcbs[u].priority == i {
          if u == t { assert Occurrences(k, t) > 0 by { CountPart(k.rings, i, t); } }
        }
      }
    }
    assert LevelsInRange(k') by {
      forall u | 0 <= u < |k'.tcbs| ensures k'.tcbs[u].priority < |k'.rings| && k'.tcbs[u].originalPriority < |k'.rings| {
        if u != t { assert k'.tcbs[u] == k.tcbs[u]; }
      }
    }
    assert forall x :: x in k.sleeping ==> WakeKey(k.tcbs)(x) == WakeKey(k'.tcbs)(x);
    Heaps.OrderedSameKeys(k.sleeping, WakeKey(k.tcbs), WakeKey(k'.tcbs));
    forall m | 0 <= m < |k.mutexes| ensures MutexValid(k'.mutexes[m], k'.tcbs) {
      var w := k.mutexes[m].waiting;
      assert MutexValid(k.mutexes[m], k.tcbs);
      assert forall x :: x in w ==> PriorityKey(k.tcbs)(x) == PriorityKey(k'.tcbs)(x);
      Heaps.OrderedSameKeys(w, PriorityKey(k.tcbs), PriorityKey(k'.tcbs));
    }
    assert IdsInRange(k') && SleepingHeap(k');
  }

  /** Raising the priority of a task that is not in its ring moves no task
      and keeps the invariant: no ring holds it, the sleeping heap is keyed
      by wake time, and a mutex heap holding it is re-sifted. */
  lemma RaisePrioritySpec(k: Kernel, t: TaskId, level: nat)
    requires Valid(k) && t < |k.tcbs| && !InRing(k, t) && level <= k.tcbs[t].priority
    ensures var k' := RaisePriority(k, t, level);
            && Valid(k')
            && k'.tcbs[t] == k.tcbs[t].(priority := level)
            && SameOccurrences(k, k')
            && (forall u :: SameMembership(k, k', u) && PlaceOf(k', u) == PlaceOf(k, u))
            && OthersStay(k, k', t)
            && k'.rings == k.rings && k'.sleeping == k.sleeping && k'.pending == k.pending
            && k'.semaphores == k.semaphores
            && |k'.mutexes| == |k.mutexes|
            && (forall j :: 0 <= j < |k.mutexes| ==>
                  && multiset(k'.mutexes[j].waiting) == multiset(k.mutexes[j].waiting)
                  && k'.mutexes[j].owner == k.mutexes[j].owner
                  && k'.mutexes[j].acquireCounter == k.mutexes[j].acquireCounter
                  && k'.mutexes[j].notificationCounter == k.mutexes[j].notificationCounter)
  {
    var tcbs' := k.tcbs[t := k.tcbs[t].(priority := level)];
    var k' := RaisePriority(k, t, level);
    assert Occurrences(k, t) <= 1;
    forall i | 0 <= i < |k.rings| ensures t !in k.rings[i] {
      assert AtLevel(k.rings[i], k.tcbs, i);
    }
    forall j | 0 <= j < |k.mutexes|
      ensures MutexValid(k'.mutexes[j], k'.tcbs)
      ensures multiset(k'.mutexes[j].waiting) == multiset(k.mutexes[j].waiting)
      ensures k'.mutexes[j].owner == k.mutexes[j].owner
      ensures k'.mutexes[j].acquireCounter == k.mutexes[j].acquireCounter
      ensures k'.mutexes[j].notificationCounter == k.mutexes[j].notificationCounter
    {
      CountPart(MutexQueues(k.mutexes), j, t);
      assert MutexValid(k.mutexes[j], k.tcbs);
      ResiftSpec(k.mutexes[j], k.tcbs, t, level);
      assert k'.mutexes[j] == Resift(k.mutexes[j], tcbs', t);
    }
    forall u ensures Occurrences(k', u) == Occurrences(k, u) {
      CountSame(MutexQueues(k.mutexes), MutexQueues(k'.mutexes), u);
    }
    forall u ensures SameMembership(k, k', u) && PlaceOf(k', u) == PlaceOf(k, u) {
      forall j | 0 <= j < |k.mutexes| ensures u in k'.mutexes[j].waiting <==> u in k.mutexes[j].waiting {
        assert u in k'.mutexes[j].waiting <==> u in multiset(k'.mutexes[j].waiting);
      }
      SamePlace(k, k', u);
    }
    assert RingsAtLevel(k') by {
      forall i | 0 <= i < |k'.rings| ensures AtLevel(k'.rings[i], k'.tcbs, i) {
        assert AtLevel(k.rings[i], k.tcbs, i);
      }
    }
    assert LevelsInRange(k') by {
      forall u | 0 <= u < |k'.tcbs| ensures k'.tcbs[u].priority < |k'.rings| && k'.tcbs[u].originalPriority < |k'.rings| {
        assert k.tcbs[u].priority < |k.rings|;
      }
    }
    assert forall x :: x in k.sleeping ==> WakeKey(k.tcbs)(x) == WakeKey(k'.tcbs)(x);
    Heaps.OrderedSameKeys(k.sleeping, WakeKey(k.tcbs), WakeKey(k'.tcbs));
    assert IdsInRange(k') by {
      forall j: nat, u: TaskId | j < |k'.mutexes| && u in k'.mutexes[j].waiting ensures u < |k'.tcbs| {
        assert u in multiset(k'.mutexes[j].waiting);
        assert u in k.mutexes[j].waiting;
      }
    }
    assert SleepingHeap(k') && MutexesValid(k');
  }

  /** A new owner or counter for a mutex moves no task, and keeps the
      invariant as long as the owner and the count agree. */
  lemma SetMutexSpec(k: Kernel, m: nat, mx: Mutex)
    requires WellFormed(k) && m < |k.mutexes| && mx.waiting == k.mutexes[m].waiting
    requires mx.owner.None? <==> mx.acquireCounter == 0
    requires mx.owner.Some? ==> mx.owner.value < |k.tcbs|
    ensures WellFormed(SetMutex(k, m, mx))
    ensures SameOccurrences(k, SetMutex(k, m, mx))
    ensures forall u :: SameMembership(k, SetMutex(k, m, mx), u) && PlaceOf(SetMutex(k, m, mx), u) == PlaceOf(k, u)
  {
    var k' := SetMutex(k, m, mx);
    MutexQueuesUpdate(k.mutexes, m, mx);
    assert MutexQueues(k'.mutexes) == MutexQueues(k.mutexes);
    assert MutexValid(k.mutexes[m], k.tcbs);
    assert MutexesValid(k') by {
      forall j | 0 <= j < |k'.mutexes| ensures MutexValid(k'.mutexes[j], k'.tcbs) {
        assert MutexValid(k.mutexes[j], k.tcbs);
      }
    }
    assert IdsInRange(k') by {
      forall j: nat, u: TaskId | j < |k'.mutexes| && u in k'.mutexes[j].waiting ensures u < |k'.tcbs| {
        assert u in k.mutexes[j].waiting;
      }
    }
    RingsFrame(k, k');
    SleepFrame(k, k');
    forall u ensures SameMembership(k, k', u) && PlaceOf(k', u) == PlaceOf(k, u) {
      forall j | 0 <= j < |k.mutexes| ensures u in k'.mutexes[j].waiting <==> u in k.mutexes[j].waiting {
      }
      SamePlace(k, k', u);
    }
  }

  /** A new token or notification count for a semaphore moves no task and
      keeps the invariant. */
  lemma SetSemaphoreSpec(k: Kernel, s: nat, sm: Semaphore)
    requires WellFormed(k) && s < |k.semaphores| && sm.waiting == k.semaphores[s].waiting
    ensures WellFormed(SetSemaphore(k, s, sm))
    ensures SameOccurrences(k, SetSemaphore(k, s, sm))
    ensures forall u :: SameMembership(k, SetSemaphore(k, s, sm), u) && PlaceOf(SetSemaphore(k, s, sm), u) == PlaceOf(k, u)
  {
    var k' := SetSemaphore(k, s, sm);
    SemaphoreQueuesUpdate(k.semaphores, s, sm);
    assert SemaphoreQueues(k'.semaphores) == SemaphoreQueues(k.semaphores);
    assert IdsInRange(k') by {
      forall j: nat, u: TaskId | j < |k'.semaphores| && u in k'.semaphores[j].waiting ensures u < |k'.tcbs| {
        assert u in k.semaphores[j].waiting;
      }
    }
    RingsFrame(k, k');
    SleepFrame(k, k');
    MutexFrame(k, k');
    forall u ensures SameMembership(k, k', u) && PlaceOf(k', u) == PlaceOf(k, u) {
      forall j | 0 <= j < |k.semaphores| ensures u in k'.semaphores[j].waiting <==> u in k.semaphores[j].waiting {
      }
      SamePlace(k, k', u);
    }
  }
}
