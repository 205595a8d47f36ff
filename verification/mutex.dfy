/** The recursive mutex of `mutex.c`: an owner, a nesting count, a
    notification counter that acquirers snapshot before deciding to wait,
    and a heap of waiters ordered by priority number (smaller first, which
    is `PriorityKey`, the model of `heapComparator`).

    The record-level functions `Claim` and `Unclaim` are the counting logic
    of acquire and release; `Acquire`, `Release` and `Notify` lift them to
    the kernel, where release also restores the owner's priority and hands
    the mutex's most urgent waiter to the pending list. */
module Mutexes {
  import opened Common
  import opened KernelState
  import Heaps
  import Scheduler

  /** `OS_mutex_initialise`: no owner, both counters zero, no waiters. */
  function Initialise(): (mx: Mutex)
    ensures forall tcbs :: MutexValid(mx, tcbs)
    ensures mx.owner.None? && mx.waiting == []
  {
    Mutex(None, 0, 0, [])
  }

  // ---------------------------------------------------------------------
  // The counting logic.

  /** What a pass of `OS_mutex_acquire`'s loop does to the record: a free
      mutex becomes the caller's, a mutex the caller owns is entered once
      more, and `None` means another task owns it. The count is incremented
      after the loop, as a `uint32_t`. */
  function Claim(mx: Mutex, cur: TaskId): (r: Option<Mutex>)
    ensures r.None? <==> mx.owner.Some? && mx.owner.value != cur
    ensures r.Some? ==> r.value.owner == Some(cur) && r.value.waiting == mx.waiting
                        && r.value.notificationCounter == mx.notificationCounter
  {
    if mx.owner.Some? && mx.owner.value != cur then None
    else Some(mx.(owner := Some(cur), acquireCounter := Inc32(mx.acquireCounter)))
  }

  /** What `OS_mutex_release` does to the record; the flag says whether this
      was the last release, after which the owner is cleared. */
  function Unclaim(mx: Mutex, cur: TaskId): (r: (Mutex, bool))
    ensures r.0.waiting == mx.waiting && r.0.notificationCounter == mx.notificationCounter
  {
    if mx.owner != Some(cur) then (mx, false)
    else
      var c := Dec32(mx.acquireCounter);
      if c == 0 then (mx.(owner := None, acquireCounter := c), true)
      else (mx.(acquireCounter := c), false)
  }

  /** Claiming keeps `owner == null` exactly when the count is zero, as
      long as the count does not wrap: a free mutex is taken with count 1,
      and an owned one is entered with its count one higher. */
  lemma ClaimSpec(mx: Mutex, cur: TaskId, tcbs: seq<Tcb>)
    requires MutexValid(mx, tcbs) && cur < |tcbs|
    requires mx.acquireCounter < WORD_MODULUS - 1
    ensures Claim(mx, cur).Some? ==> MutexValid(Claim(mx, cur).value, tcbs)
    ensures mx.owner.None? ==> Claim(mx, cur).Some? && Claim(mx, cur).value.acquireCounter == 1
    ensures mx.owner == Some(cur) ==> Claim(mx, cur).Some? && Claim(mx, cur).value.acquireCounter == mx.acquireCounter + 1
  {
  }

  /** A release by a task that does not own the mutex changes nothing; the
      owner's release lowers the count by one and is the last release
      exactly when the count was one, which clears the owner. */
  lemma UnclaimSpec(mx: Mutex, cur: TaskId, tcbs: seq<Tcb>)
    requires MutexValid(mx, tcbs)
    ensures MutexValid(Unclaim(mx, cur).0, tcbs)
    ensures mx.owner != Some(cur) ==> Unclaim(mx, cur) == (mx, false)
    ensures mx.owner == Some(cur) ==>
              && Unclaim(mx, cur).0.acquireCounter == mx.acquireCounter - 1
              && (Unclaim(mx, cur).1 <==> mx.acquireCounter == 1)
              && (Unclaim(mx, cur).1 ==> Unclaim(mx, cur).0.owner.None?)
              && (!Unclaim(mx, cur).1 ==> Unclaim(mx, cur).0.owner == Some(cur))
  {
  }

  /** `n` acquires by the same task in a row. */
  function ClaimTimes(mx: Mutex, cur: TaskId, n: nat): Mutex
    requires mx.owner.None? || mx.owner == Some(cur)
    decreases n
  {
    if n == 0 then mx else ClaimTimes(Claim(mx, cur).value, cur, n - 1)
  }

  /** `n` releases by the same task in a row. */
  function UnclaimTimes(mx: Mutex, cur: TaskId, n: nat): Mutex
    decreases n
  {
    if n == 0 then mx else UnclaimTimes(Unclaim(mx, cur).0, cur, n - 1)
  }

  lemma {:induction false} ClaimTimesCount(mx: Mutex, cur: TaskId, n: nat)
    requires (mx.owner.None? && mx.acquireCounter == 0) || mx.owner == Some(cur)
    requires mx.acquireCounter + n < WORD_MODULUS
    ensures ClaimTimes(mx, cur, n).acquireCounter == mx.acquireCounter + n
    ensures n > 0 ==> ClaimTimes(mx, cur, n).owner == Some(cur)
    ensures n == 0 ==> ClaimTimes(mx, cur, n) == mx
    ensures ClaimTimes(mx, cur, n).waiting == mx.waiting
    ensures ClaimTimes(mx, cur, n).notificationCounter == mx.notificationCounter
    decreases n
  {
    if n > 0 {
      ClaimTimesCount(Claim(mx, cur).value, cur, n - 1);
    }
  }

  lemma {:induction false} UnclaimTimesCount(mx: Mutex, cur: TaskId, j: nat)
    requires mx.owner == Some(cur) && j < mx.acquireCounter
    ensures UnclaimTimes(mx, cur, j) == mx.(acquireCounter := mx.acquireCounter - j)
    decreases j
  {
    if j > 0 {
      UnclaimTimesCount(Unclaim(mx, cur).0, cur, j - 1);
    }
  }

  /** Nesting: `n` acquires of a free mutex by one task need exactly `n`
      releases to free it again, and the mutex comes back as it was. */
  lemma NestedAcquireRelease(mx: Mutex, cur: TaskId, n: nat)
    requires mx.owner.None? && mx.acquireCounter == 0
    requires 1 <= n < WORD_MODULUS
    ensures ClaimTimes(mx, cur, n).owner == Some(cur)
    ensures ClaimTimes(mx, cur, n).acquireCounter == n
    ensures forall j :: 0 <= j < n ==> UnclaimTimes(ClaimTimes(mx, cur, n), cur, j).owner == Some(cur)
    ensures UnclaimTimes(ClaimTimes(mx, cur, n), cur, n) == mx
  {
    var a := ClaimTimes(mx, cur, n);
    ClaimTimesCount(mx, cur, n);
    forall j | 0 <= j < n ensures UnclaimTimes(a, cur, j).owner == Some(cur) {
      UnclaimTimesCount(a, cur, j);
    }
    var b := UnclaimTimes(a, cur, n - 1);
    UnclaimTimesCount(a, cur, n - 1);
    assert UnclaimTimes(a, cur, n) == UnclaimTimes(Unclaim(a, cur).0, cur, n - 1);
    UnclaimAfterUnclaim(a, cur, n - 1);
  }

  /** Releasing `j + 1` times is releasing `j` times, then once more. */
  lemma {:induction false} UnclaimAfterUnclaim(mx: Mutex, cur: TaskId, j: nat)
    ensures UnclaimTimes(mx, cur, j + 1) == Unclaim(UnclaimTimes(mx, cur, j), cur).0
    decreases j
  {
    if j > 0 {
      UnclaimAfterUnclaim(Unclaim(mx, cur).0, cur, j - 1);
    }
  }

  // ---------------------------------------------------------------------
  // The kernel operations.

  /** One pass of `OS_mutex_acquire`'s loop, with the exclusive store taken
      to succeed: the notification counter is read first, then the mutex is
      claimed, or the caller must wait with the value it read. */
  function Acquire(k: Kernel, m: nat, cur: TaskId): (r: Attempt)
    requires m < |k.mutexes|
  {
    var checkCode := k.mutexes[m].notificationCounter;
    match Claim(k.mutexes[m], cur)
    case Some(mx) => Acquired(SetMutex(k, m, mx))
    case None => MustWait(checkCode)
  }

  lemma AcquireSpec(k: Kernel, m: nat, cur: TaskId)
    requires Valid(k) && m < |k.mutexes| && cur < |k.tcbs|
    requires k.mutexes[m].acquireCounter < WORD_MODULUS - 1
    ensures Acquire(k, m, cur).MustWait? <==> k.mutexes[m].owner.Some? && k.mutexes[m].owner.value != cur
    ensures Acquire(k, m, cur).MustWait? ==> Acquire(k, m, cur).checkCode == k.mutexes[m].notificationCounter
    ensures Acquire(k, m, cur).Acquired? ==>
              var k' := Acquire(k, m, cur).k;
              && Valid(k')
              && k'.mutexes[m].owner == Some(cur)
              && k'.mutexes[m].acquireCounter == k.mutexes[m].acquireCounter + 1
              && k'.mutexes[m].notificationCounter == k.mutexes[m].notificationCounter
              && k'.tcbs == k.tcbs
              && (forall u :: SameMembership(k, k', u) && PlaceOf(k', u) == PlaceOf(k, u))
  {
    assert MutexValid(k.mutexes[m], k.tcbs);
    ClaimSpec(k.mutexes[m], cur, k.tcbs);
    if Claim(k.mutexes[m], cur).Some? {
      SetMutexSpec(k, m, Claim(k.mutexes[m], cur).value);
    }
  }

  /** When acquire must wait, the wait request it issues with its own
      snapshot takes effect: the caller ends up on the mutex's heap. */
  lemma AcquireThenWait(k: Kernel, m: nat, cur: TaskId)
    requires Valid(k) && m < |k.mutexes| && Acquire(k, m, cur).MustWait?
    requires Scheduler.MutexWaitReady(k, cur, m)
    ensures Valid(Scheduler.MutexWaitDelegate(k, cur, m, Acquire(k, m, cur).checkCode))
    ensures PlaceOf(Scheduler.MutexWaitDelegate(k, cur, m, Acquire(k, m, cur).checkCode), cur) == OnMutex(m)
  {
    Scheduler.MutexWaitDelegateSpec(k, cur, m, Acquire(k, m, cur).checkCode);
  }

  /** `_OS_mutex_notify_delegate`: the notification counter goes up by one
      and, if anyone waits, the root of the heap is extracted and pushed on
      the pending list. */
  function Notify(k: Kernel, m: nat): (k': Kernel)
    requires m < |k.mutexes|
  {
    var mx := k.mutexes[m];
    var k1 := SetMutex(k, m, mx.(notificationCounter := Inc32(mx.notificationCounter)));
    if Heaps.IsEmpty(mx.waiting) then k1
    else PendingPush(MutexExtract(k1, m), mx.waiting[0])
  }

  /** With waiters, notifying moves the root of the heap, a waiter with
      the smallest priority number, to the pending list. */
  lemma NotifyHandsOver(k: Kernel, m: nat)
    requires Valid(k) && m < |k.mutexes| && k.mutexes[m].waiting != []
    ensures var k' := Notify(k, m);
            var t := k.mutexes[m].waiting[0];
            && Valid(k')
            && k'.mutexes[m].notificationCounter == Inc32(k.mutexes[m].notificationCounter)
            && k'.mutexes[m].owner == k.mutexes[m].owner
            && k'.mutexes[m].acquireCounter == k.mutexes[m].acquireCounter
            && PlaceOf(k', t) == Pending
            && (forall u :: u in k.mutexes[m].waiting ==> k.tcbs[t].priority <= k.tcbs[u].priority)
            && OthersStay(k, k', t)
  {
    var mx := k.mutexes[m];
    assert MutexValid(mx, k.tcbs);
    var mx1 := mx.(notificationCounter := Inc32(mx.notificationCounter));
    var k1 := SetMutex(k, m, mx1);
    SetMutexSpec(k, m, mx1);
    var t := mx.waiting[0];
    assert t in mx.waiting;
    var k2 := MutexExtract(k1, m);
    MutexExtractSpec(k1, m);
    UniqueAfterRemove(k1, k2, t);
    var k3 := PendingPush(k2, t);
    PendingPushSpec(k2, t);
    UniqueAfterAdd(k2, k3, t);
    PlaceOfQueued(k3, t);
    assert Notify(k, m) == k3;
    forall u | u in mx.waiting ensures k.tcbs[t].priority <= k.tcbs[u].priority {
      var j :| 0 <= j < |mx.waiting| && mx.waiting[j] == u;
      Heaps.RootIsMinimum(mx.waiting, PriorityKey(k.tcbs), j);
    }
    assert OthersStay(k, k1, t);
    OthersStayTrans(k, k1, k2, t);
    OthersStayTrans(k, k2, k3, t);
  }

  /** Notifying moves exactly one waiter, one with the smallest priority
      number, to the pending list; with no waiters only the counter moves. */
  lemma NotifySpec(k: Kernel, m: nat)
    requires Valid(k) && m < |k.mutexes|
    ensures var k' := Notify(k, m);
            && Valid(k')
            && k'.mutexes[m].notificationCounter == Inc32(k.mutexes[m].notificationCounter)
            && k'.mutexes[m].owner == k.mutexes[m].owner
            && k'.mutexes[m].acquireCounter == k.mutexes[m].acquireCounter
    ensures k.mutexes[m].waiting == [] ==>
              forall u :: SameMembership(k, Notify(k, m), u) && PlaceOf(Notify(k, m), u) == PlaceOf(k, u)
    ensures k.mutexes[m].waiting != [] ==>
              var t := k.mutexes[m].waiting[0];
              && PlaceOf(Notify(k, m), t) == Pending
              && (forall u :: u in k.mutexes[m].waiting ==> k.tcbs[t].priority <= k.tcbs[u].priority)
              && OthersStay(k, Notify(k, m), t)
  {
    var mx := k.mutexes[m];
    if mx.waiting == [] {
      assert MutexValid(mx, k.tcbs);
      SetMutexSpec(k, m, mx.(notificationCounter := Inc32(mx.notificationCounter)));
    } else {
      NotifyHandsOver(k, m);
    }
  }

  /** What `OS_mutex_release` needs of the kernel: the releasing owner is
      the running task, which is in its ring. */
  predicate ReleaseReady(k: Kernel, m: nat, cur: TaskId)
    requires m < |k.mutexes|
  {
    k.mutexes[m].owner == Some(cur) ==> InRing(k, cur)
  }

  /** `OS_mutex_release`; the flag is the `OS_yield` the owner issues. On the
      last release the owner's priority is restored, the owner cleared and a
      waiter notified. (The decrement and the restore touch disjoint state,
      so the restore is applied first here.) */
  function Release(k: Kernel, m: nat, cur: TaskId): (res: (Kernel, bool))
    requires m < |k.mutexes| && ReleaseReady(k, m, cur)
  {
    var (mx, last) := Unclaim(k.mutexes[m], cur);
    if k.mutexes[m].owner != Some(cur) then (k, false)
    else if !last then (SetMutex(k, m, mx), true)
    else
      var k1 := Scheduler.PriorityRestoreDelegate(k, cur);
      (Notify(SetMutex(k1, m, mx), m), true)
  }

  lemma ReleaseSpec(k: Kernel, m: nat, cur: TaskId)
    requires Valid(k) && m < |k.mutexes| && ReleaseReady(k, m, cur)
    ensures Valid(Release(k, m, cur).0)
    ensures k.mutexes[m].owner != Some(cur) ==> Release(k, m, cur) == (k, false)
    ensures k.mutexes[m].owner == Some(cur) ==> Release(k, m, cur).1
    ensures k.mutexes[m].owner == Some(cur) && k.mutexes[m].acquireCounter > 1 ==>
              var k' := Release(k, m, cur).0;
              && k'.mutexes[m].owner == Some(cur)
              && k'.mutexes[m].acquireCounter == k.mutexes[m].acquireCounter - 1
              && k'.tcbs == k.tcbs
              && (forall u :: SameMembership(k, k', u))
    ensures k.mutexes[m].owner == Some(cur) && k.mutexes[m].acquireCounter == 1 ==>
              var k' := Release(k, m, cur).0;
              && k'.mutexes[m].owner.None?
              && k'.mutexes[m].acquireCounter == 0
              && k'.mutexes[m].notificationCounter == Inc32(k.mutexes[m].notificationCounter)
              && k'.tcbs[cur] == k.tcbs[cur].(priority := k.tcbs[cur].originalPriority)
              && (k.mutexes[m].waiting != [] ==> PlaceOf(k', k.mutexes[m].waiting[0]) == Pending)
  {
    var mx := k.mutexes[m];
    assert MutexValid(mx, k.tcbs);
    UnclaimSpec(mx, cur, k.tcbs);
    var mx' := Unclaim(mx, cur).0;
    if mx.owner == Some(cur) {
      if mx.acquireCounter > 1 {
        SetMutexSpec(k, m, mx');
      } else {
        var k1 := Scheduler.PriorityRestoreDelegate(k, cur);
        Scheduler.PriorityRestoreSpec(k, cur);
        var k2 := SetMutex(k1, m, mx');
        SetMutexSpec(k1, m, mx');
        NotifySpec(k2, m);
      }
    }
  }

  /** No lost wake-up: a release notification that lands between a waiter's
      snapshot and its wait request makes the request a no-op, so the waiter
      runs its acquire loop again instead of blocking. */
  lemma NotifyBeforeWait(k: Kernel, m: nat, cur: TaskId)
    requires m < |k.mutexes|
    ensures var k' := Notify(k, m);
            && m < |k'.mutexes|
            && k'.mutexes[m].notificationCounter != k.mutexes[m].notificationCounter
            && Scheduler.MutexWaitDelegate(k', cur, m, k.mutexes[m].notificationCounter) == k'
  {
  }
}
