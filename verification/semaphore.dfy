/** The counting semaphore of the final kernel: a token counter, a
    notification counter that acquirers snapshot before deciding to wait,
    and a waiting list that blocked tasks join at the head and leave from
    the tail, so they resume in the order they blocked. */
module Semaphores {
  import opened Common
  import opened KernelState
  import SlLists
  import Scheduler

  /** `OS_semaphore_initialise`. */
  function Initialise(totalTokens: U32): (sm: Semaphore)
    ensures sm.tokenCounter == totalTokens && sm.notificationCounter == 0 && sm.waiting == []
  {
    Semaphore(totalTokens, 0, [])
  }

  // ---------------------------------------------------------------------
  // The token logic.

  /** What a successful pass of `OS_semaphore_acquire`'s loop does to the
      record; `None` when no token is left. */
  function TakeToken(sm: Semaphore): (r: Option<Semaphore>)
    ensures r.None? <==> sm.tokenCounter == 0
    ensures r.Some? ==> r.value == sm.(tokenCounter := sm.tokenCounter - 1)
  {
    if sm.tokenCounter != 0 then Some(sm.(tokenCounter := sm.tokenCounter - 1)) else None
  }

  /** The token increment of `OS_semaphore_release`, as a `uint32_t`. */
  function GiveToken(sm: Semaphore): (r: Semaphore)
    ensures sm.tokenCounter < WORD_MODULUS - 1 ==> r.tokenCounter == sm.tokenCounter + 1
    ensures r.waiting == sm.waiting && r.notificationCounter == sm.notificationCounter
  {
    sm.(tokenCounter := Inc32(sm.tokenCounter))
  }

  /** A sequence of acquire attempts and releases by the tasks. */
  datatype Op = Take | Give

  function Gives(ops: seq<Op>): nat {
    if ops == [] then 0 else (if ops[0] == Give then 1 else 0) + Gives(ops[1..])
  }

  /** Runs the operations in order; a `Take` with no token left fails and
      changes nothing. The second component counts the successful takes. */
  function Run(sm: Semaphore, ops: seq<Op>): (r: (Semaphore, nat))
    decreases |ops|
  {
    if ops == [] then (sm, 0)
    else if ops[0] == Give then Run(GiveToken(sm), ops[1..])
    else match TakeToken(sm)
      case Some(sm') => var r := Run(sm', ops[1..]); (r.0, r.1 + 1)
      case None => Run(sm, ops[1..])
  }

  /** Token conservation: without wrap-around, the tokens left are the
      initial total minus the successful acquires plus the releases. */
  lemma {:induction false} TokenConservation(sm: Semaphore, ops: seq<Op>)
    requires sm.tokenCounter + Gives(ops) < WORD_MODULUS
    ensures Run(sm, ops).0.tokenCounter + Run(sm, ops).1 == sm.tokenCounter + Gives(ops)
    ensures Run(sm, ops).1 <= sm.tokenCounter + Gives(ops)
    decreases |ops|
  {
    if ops != [] {
      if ops[0] == Give {
        TokenConservation(GiveToken(sm), ops[1..]);
      } else if sm.tokenCounter != 0 {
        TokenConservation(TakeToken(sm).value, ops[1..]);
      } else {
        TokenConservation(sm, ops[1..]);
      }
    }
  }

  // ---------------------------------------------------------------------
  // The kernel operations.

  /** One pass of `OS_semaphore_acquire`'s loop, with the exclusive store
      taken to succeed: the notification counter is read first, then a
      token is taken, or the caller must wait with the value it read. */
  function Acquire(k: Kernel, s: nat): (r: Attempt)
    requires s < |k.semaphores|
  {
    var checkCode := k.semaphores[s].notificationCounter;
    match TakeToken(k.semaphores[s])
    case Some(sm) => Acquired(SetSemaphore(k, s, sm))
    case None => MustWait(checkCode)
  }

  lemma AcquireSpec(k: Kernel, s: nat)
    requires Valid(k) && s < |k.semaphores|
    ensures Acquire(k, s).MustWait? <==> k.semaphores[s].tokenCounter == 0
    ensures Acquire(k, s).MustWait? ==> Acquire(k, s).checkCode == k.semaphores[s].notificationCounter
    ensures Acquire(k, s).Acquired? ==>
              var k' := Acquire(k, s).k;
              && Valid(k')
              && k'.semaphores[s].tokenCounter == k.semaphores[s].tokenCounter - 1
              && k'.semaphores[s].notificationCounter == k.semaphores[s].notificationCounter
              && k'.tcbs == k.tcbs
              && (forall u :: SameMembership(k, k', u) && PlaceOf(k', u) == PlaceOf(k, u))
  {
    if k.semaphores[s].tokenCounter != 0 {
      SetSemaphoreSpec(k, s, TakeToken(k.semaphores[s]).value);
    }
  }

  /** When acquire must wait, the wait request it issues with its own
      snapshot puts the caller on the semaphore's list. */
  lemma AcquireThenWait(k: Kernel, s: nat, cur: TaskId)
    requires Valid(k) && s < |k.semaphores| && Acquire(k, s).MustWait? && InRing(k, cur)
    ensures Valid(Scheduler.SemaphoreWaitDelegate(k, cur, s, Acquire(k, s).checkCode))
    ensures PlaceOf(Scheduler.SemaphoreWaitDelegate(k, cur, s, Acquire(k, s).checkCode), cur) == OnSemaphore(s)
  {
    Scheduler.SemaphoreWaitDelegateSpec(k, cur, s, Acquire(k, s).checkCode);
  }

  /** `_OS_semaphore_notify`: the notification counter goes up by one, and
      the tail of the waiting list, if any, is pushed on the pending list. */
  function Notify(k: Kernel, s: nat): (k': Kernel)
    requires s < |k.semaphores|
  {
    var sm := k.semaphores[s];
    var k1 := SetSemaphore(k, s, sm.(notificationCounter := Inc32(sm.notificationCounter)));
    match SlLists.PopTail(sm.waiting).0
    case None => k1
    case Some(t) => PendingPush(SemaphorePopTail(k1, s), t)
  }

  /** With waiters, notifying moves the tail of the list, the oldest
      waiter, to the pending list. */
  lemma NotifyHandsOver(k: Kernel, s: nat)
    requires Valid(k) && s < |k.semaphores| && k.semaphores[s].waiting != []
    ensures var k' := Notify(k, s);
            var w := k.semaphores[s].waiting;
            && Valid(k')
            && k'.semaphores[s].notificationCounter == Inc32(k.semaphores[s].notificationCounter)
            && k'.semaphores[s].tokenCounter == k.semaphores[s].tokenCounter
            && PlaceOf(k', w[|w| - 1]) == Pending
            && k'.semaphores[s].waiting == w[..|w| - 1]
            && OthersStay(k, k', w[|w| - 1])
  {
    var sm := k.semaphores[s];
    var sm1 := sm.(notificationCounter := Inc32(sm.notificationCounter));
    var k1 := SetSemaphore(k, s, sm1);
    SetSemaphoreSpec(k, s, sm1);
    var w := sm.waiting;
    var t := w[|w| - 1];
    assert t in w;
    var k2 := SemaphorePopTail(k1, s);
    SemaphorePopTailSpec(k1, s);
    UniqueAfterRemove(k1, k2, t);
    var k3 := PendingPush(k2, t);
    PendingPushSpec(k2, t);
    UniqueAfterAdd(k2, k3, t);
    PlaceOfQueued(k3, t);
    assert Notify(k, s) == k3;
    assert OthersStay(k, k1, t);
    OthersStayTrans(k, k1, k2, t);
    OthersStayTrans(k, k2, k3, t);
  }

  /** Notifying moves exactly the oldest waiter to the pending list; with
      no waiters only the counter moves. */
  lemma NotifySpec(k: Kernel, s: nat)
    requires Valid(k) && s < |k.semaphores|
    ensures var k' := Notify(k, s);
            && Valid(k')
            && k'.tcbs == k.tcbs
            && k'.semaphores[s].notificationCounter == Inc32(k.semaphores[s].notificationCounter)
            && k'.semaphores[s].tokenCounter == k.semaphores[s].tokenCounter
    ensures k.semaphores[s].waiting == [] ==>
              forall u :: SameMembership(k, Notify(k, s), u) && PlaceOf(Notify(k, s), u) == PlaceOf(k, u)
    ensures k.semaphores[s].waiting != [] ==>
              var w := k.semaphores[s].waiting;
              && PlaceOf(Notify(k, s), w[|w| - 1]) == Pending
              && Notify(k, s).semaphores[s].waiting == w[..|w| - 1]
              && OthersStay(k, Notify(k, s), w[|w| - 1])
  {
    var sm := k.semaphores[s];
    if sm.waiting == [] {
      SetSemaphoreSpec(k, s, sm.(notificationCounter := Inc32(sm.notificationCounter)));
    } else {
      NotifyHandsOver(k, s);
    }
  }

  /** `OS_semaphore_release` without the context-switch request: one more
      token, then a notification. */
  function Release(k: Kernel, s: nat): (k': Kernel)
    requires s < |k.semaphores|
  {
    Notify(SetSemaphore(k, s, GiveToken(k.semaphores[s])), s)
  }

  lemma ReleaseSpec(k: Kernel, s: nat)
    requires Valid(k) && s < |k.semaphores|
    ensures var k' := Release(k, s);
            && Valid(k')
            && k'.semaphores[s].tokenCounter == Inc32(k.semaphores[s].tokenCounter)
            && k'.semaphores[s].notificationCounter == Inc32(k.semaphores[s].notificationCounter)
            && k'.tcbs == k.tcbs
    ensures var w := k.semaphores[s].waiting;
            w != [] ==> PlaceOf(Release(k, s), w[|w| - 1]) == Pending && OthersStay(k, Release(k, s), w[|w| - 1])
    ensures k.semaphores[s].waiting == [] ==> forall u :: SameMembership(k, Release(k, s), u)
  {
    var k1 := SetSemaphore(k, s, GiveToken(k.semaphores[s]));
    SetSemaphoreSpec(k, s, GiveToken(k.semaphores[s]));
    NotifySpec(k1, s);
    var k' := Release(k, s);
    var w := k.semaphores[s].waiting;
    if w != [] {
      assert OthersStay(k, k1, w[|w| - 1]);
      OthersStayTrans(k, k1, k', w[|w| - 1]);
    } else {
      forall u ensures SameMembership(k, k', u) {
        SameMembershipTrans(k, k1, k', u);
      }
    }
  }

  /** Tasks `ts`, each running when its turn comes, wait on semaphore `s`
      one after another, each with the notification count it has just read. */
  function WaitInTurn(k: Kernel, s: nat, ts: seq<TaskId>): (k': Kernel)
    requires Valid(k) && s < |k.semaphores|
    requires forall i :: 0 <= i < |ts| ==> InRing(k, ts[i])
    requires forall i, j :: 0 <= i < j < |ts| ==> ts[i] != ts[j]
    ensures Valid(k') && s < |k'.semaphores|
    ensures k'.semaphores[s].waiting == SlLists.PushAll(k.semaphores[s].waiting, ts)
    ensures k'.pending == k.pending
    decreases |ts|
  {
    if ts == [] then k
    else
      var k1 := WaitOnce(k, s, ts[0]);
      WaitOnceSpec(k, s, ts[0]);
      forall i | 0 <= i < |ts[1..]| ensures InRing(k1, ts[1..][i]) {
        var u := ts[1..][i];
        assert u == ts[i + 1] && u != ts[0] && InRing(k, ts[i + 1]);
        assert SameMembership(k, k1, u);
      }
      WaitInTurn(k1, s, ts[1..])
  }

  /** A running task waits on semaphore `s` with the current notification count. */
  function WaitOnce(k: Kernel, s: nat, t: TaskId): Kernel
    requires s < |k.semaphores| && InRing(k, t)
  {
    Scheduler.SemaphoreWaitDelegate(k, t, s, k.semaphores[s].notificationCounter)
  }

  lemma WaitOnceSpec(k: Kernel, s: nat, t: TaskId)
    requires Valid(k) && s < |k.semaphores| && InRing(k, t)
    ensures var k' := WaitOnce(k, s, t);
            && Valid(k') && s < |k'.semaphores|
            && k'.semaphores[s].waiting == SlLists.Push(k.semaphores[s].waiting, t)
            && k'.pending == k.pending
            && k'.tcbs == k.tcbs
            && OthersStay(k, k', t)
  {
    Scheduler.SemaphoreWaitDelegateSpec(k, t, s, k.semaphores[s].notificationCounter);
  }

  /** `n` notifications of semaphore `s` in a row. */
  function NotifyTimes(k: Kernel, s: nat, n: nat): (k': Kernel)
    requires s < |k.semaphores|
    ensures |k'.semaphores| == |k.semaphores|
    decreases n
  {
    if n == 0 then k else NotifyTimes(Notify(k, s), s, n - 1)
  }

  /** With the waiters `ts` on the list, the oldest at the tail, as many
      notifications hand them to the pending list oldest first. */
  lemma {:induction false} NotifyInOrder(k: Kernel, s: nat, ts: seq<TaskId>)
    requires Valid(k) && s < |k.semaphores| && k.semaphores[s].waiting == SlLists.Reverse(ts)
    ensures var k' := NotifyTimes(k, s, |ts|);
            && Valid(k')
            && k'.pending == SlLists.PushAll(k.pending, ts)
            && k'.semaphores[s].waiting == []
    decreases |ts|
  {
    if ts != [] {
      var w := k.semaphores[s].waiting;
      assert w[|w| - 1] == ts[0];
      NotifyHandsOver(k, s);
      var k1 := Notify(k, s);
      assert k1.pending == SlLists.Push(k.pending, ts[0]);
      assert w[..|w| - 1] == SlLists.Reverse(ts[1..]);
      NotifyInOrder(k1, s, ts[1..]);
    }
  }

  /** Waiters resume in the order they blocked: when tasks wait on a
      semaphore with no waiters one after another, in the order `ts`, the
      next `|ts|` notifications move them to the pending list in that same
      order and leave the waiting list empty. */
  lemma WaitersResumeInOrder(k: Kernel, s: nat, ts: seq<TaskId>)
    requires Valid(k) && s < |k.semaphores| && k.semaphores[s].waiting == []
    requires forall i :: 0 <= i < |ts| ==> InRing(k, ts[i])
    requires forall i, j :: 0 <= i < j < |ts| ==> ts[i] != ts[j]
    ensures var k' := NotifyTimes(WaitInTurn(k, s, ts), s, |ts|);
            && Valid(k')
            && k'.pending == SlLists.PushAll(k.pending, ts)
            && k'.semaphores[s].waiting == []
  {
    SlLists.PushAllReverses([], ts);
    assert SlLists.Reverse(ts) + [] == SlLists.Reverse(ts);
    NotifyInOrder(WaitInTurn(k, s, ts), s, ts);
  }

  /** No lost wake-up: a release that lands between a waiter's snapshot and
      its wait request makes the request a no-op, so the waiter runs its
      acquire loop again instead of blocking. */
  lemma NotifyBeforeWait(k: Kernel, s: nat, cur: TaskId)
    requires s < |k.semaphores|
    ensures var k' := Notify(k, s);
            && s < |k'.semaphores|
            && k'.semaphores[s].notificationCounter != k.semaphores[s].notificationCounter
            && Scheduler.SemaphoreWaitDelegate(k', cur, s, k.semaphores[s].notificationCounter) == k'
  {
  }
}
