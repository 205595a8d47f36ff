# DocetOS kernel bookkeeping, modelled in Dafny

DocetOS is a small pre-emptive kernel for a Cortex-M microcontroller, written
as a course assignment, together with a handful of standalone exercises. This
project models the kernel's bookkeeping and the exercises' algorithms as pure
state transitions and proves what each one promises.

- **Heap** (`Heaps`): the array-backed binary min-heap used for the sleeping
  tasks and for each mutex's waiters. It models sift-up, sift-down, insert,
  extract, peek and isEmpty. The comparator is abstracted to an integer key
  per item (see "Left out"). The `DocetOS_sleep_wait` copy of `heap.c` is the
  same algorithm with the same contracts, so the same module stands for both.
- **Task lists** (`Rings`, `SlLists`):
  - The circular doubly-linked ready rings are modelled as sequences in
    rotation order, head first. The `next`/`prev` pointer operations are also
    modelled statement by statement and proved to refine the sequence
    operations.
  - The singly-linked pending and waiting lists are modelled the same way,
    head first.
- **Priority kernel** (`KernelState`, `Scheduler`, `Mutexes`, `Semaphores`):
  - The state is a TCB arena, one ready ring per priority level, a sleeping
    heap, a pending list, and the mutexes and semaphores in use.
  - The operations are `_OS_schedule`, `OS_initialiseTCB` (priority mapping),
    `OS_addTask`, the sleep, wait and priority-restore delegates, mutex
    acquire/release/notify with priority inheritance, and semaphore
    acquire/release/notify.
  - The kernel invariant says:
    - no task is queued twice, within one structure or across two;
    - a ready task sits in the ring of its priority;
    - the heaps are ordered;
    - a mutex has an owner exactly when its nesting count is non-zero.
- **Single-ring `sleep_wait` kernel** (`SingleRing`): one round-robin ring, a
  sleeping heap of 20, one global wait list woken by `OS_notifyAll`, and a
  pending list.
- **Scanning `sleep_wait` kernel** (`ScanScheduler`): the earlier variant
  without a sleeping heap. Its scheduler scans the ring for the first task
  that is not asleep with a future wake time.
- **Word count** (`WordCount`): three ways to count words. All three are
  proved equal to one reference count, and the sample text holds 15 words.
- **Static allocator** (`StaticAlloc`): a 16 KiB pool handed out top-down on
  8-byte boundaries.
- **Block pool** (`Mempool`): a free list of fixed-size blocks, carved out of
  the static allocator by `pool_init`.
- **Array stack** (`Stack`): `push` and `pop` on an array of `int32_t`.

Conventions:
- Task ids index the TCB arena.
- `None` stands for `NULL` and for the idle TCB.
- 32-bit counters and wake times are `U32`, with wrap-around written out
  (`Add32`, `Inc32`).
- The tick counter is the parameter `now`, and the running task is the
  parameter `cur`.
- Each `LDREX`/`STREX` retry loop is one atomic step that succeeds.
- A notification that lands between a waiter's counter snapshot and its wait
  request is modelled as a separate step. The `NotifyBeforeWait` lemmas show
  that such a wait does nothing.

## Model

| member | source | states |
|---|---|---|
| Heaps.Swap | DocetOS_assignment/DocetOS/src/OS/heap.c:15-17 | exchanging two cells keeps the length and the multiset of items and changes no other cell |
| Heaps.UpSwap | DocetOS_assignment/DocetOS/src/OS/heap.c:11-18 | one round of `_heap_up` keeps the items and moves the only possible order violation from the child up to its parent |
| Heaps.SiftUp | DocetOS_assignment/DocetOS/src/OS/heap.c:6-22 | sift-up keeps the multiset of items and, when the only possible order violation is between the new item and its parent, leaves the store heap-ordered |
| Heaps.SmallerChild | DocetOS_assignment/DocetOS/src/OS/heap.c:35-45 | the child `_heap_down` descends to is a child of the node whose key is no greater than any sibling's |
| Heaps.DownSwap | DocetOS_assignment/DocetOS/src/OS/heap.c:35-51 | one round of `_heap_down` keeps the items and moves the only possible order violation down to the chosen child |
| Heaps.SiftDown | DocetOS_assignment/DocetOS/src/OS/heap.c:25-57 | sift-down keeps the multiset of items and restores heap order when only the root may be out of place |
| Heaps.RootIsMinimum | DocetOS_assignment/DocetOS/src/OS/heap.c:78-88 | in a heap-ordered store the root's key is no greater than any item's key |
| Heaps.IsEmpty | DocetOS_assignment/DocetOS/src/OS/heap.c:62-64 | true exactly when the heap holds no item |
| Heaps.Insert | DocetOS_assignment/DocetOS/src/OS/heap.c:68-72 | insert grows the size by one, adds exactly the new item to the multiset, and keeps a heap-ordered store heap-ordered |
| Heaps.Extract | DocetOS_assignment/DocetOS/src/OS/heap.c:78-93 | on an empty heap: NULL and no change; otherwise the old root, a minimum, is returned and removed, the size drops by one and order is kept |
| Heaps.Peek | DocetOS_assignment/DocetOS/src/OS/heap.c:99-110 | NULL exactly when empty, otherwise an item that is a minimum of a heap-ordered store |
| Heaps.PeekThenExtract | DocetOS_assignment/DocetOS/src/OS/heap.c:78-110 | peek names exactly the item a following extract returns |
| Heaps.DecreaseKey | DocetOS_assignment/DocetOS/src/OS/heap.c:6-22 | the `_heap_up` loop, started at a node whose key was just lowered, restores heap order; the corrected promotion uses it to re-sort a mutex heap |
| Heaps.OrderedSameKeys | DocetOS_assignment/DocetOS/src/OS/heap.c:13 | heap order depends only on the keys the comparator sees |
| Rings.Add | DocetOS_assignment/DocetOS/src/OS/scheduler.c:47-66 | `_list_add` adds exactly the task to the ring's multiset and membership |
| Rings.AddPlacesLast | DocetOS_assignment/DocetOS/src/OS/scheduler.c:47-66 | the added task goes last in rotation order, the others keep their order, and a non-empty ring keeps its head |
| Rings.AddRefines | DocetOS_assignment/DocetOS/src/OS/scheduler.c:47-66 | the pointer-level `_list_add`, statement by statement, turns links describing ring `r` into links describing `r + [t]`, including the self-linked singleton |
| Rings.AddNoDup | DocetOS_assignment/DocetOS/src/OS/scheduler.c:47-66 | adding a task not in the ring keeps the ring free of duplicates |
| Rings.Remove | DocetOS_assignment/DocetOS/src/OS/scheduler.c:70-86 | `_list_remove` shrinks the ring by one, removes exactly that task from the multiset and leaves every other member in |
| Rings.RemoveHeadCases | DocetOS_assignment/DocetOS/src/OS/scheduler.c:70-86 | removing a singleton empties the ring, removing the head makes its successor the head, and removing another task keeps the head |
| Rings.RemoveRefines | DocetOS_assignment/DocetOS/src/OS/scheduler.c:70-86 | the pointer-level `_list_remove` turns links describing `r` into links describing `r` without the task, and an emptied ring has a NULL head |
| Rings.SelfLinkedIffAlone | DocetOS_assignment/DocetOS/src/OS/scheduler.c:72-75 | in a well-linked ring a task is its own successor exactly when it is alone, which is the test `_list_remove` uses |
| Rings.RemoveNoDup | DocetOS_assignment/DocetOS/src/OS/scheduler.c:70-86 | removing a member keeps the ring free of duplicates |
| Rings.Advance | DocetOS_assignment/DocetOS/src/OS/scheduler.c:198 | moving the head on by one keeps the ring's length and members |
| Rings.AdvanceRefines | DocetOS_assignment/DocetOS/src/OS/scheduler.c:198 | `head = head->next` on the links describes the rotated ring |
| Rings.AdvanceNoDup | DocetOS_assignment/DocetOS/src/OS/scheduler.c:198 | rotating keeps the ring free of duplicates |
| SlLists.Push | DocetOS_assignment/DocetOS/src/OS/scheduler.c:89-111 | `list_push_sl` makes the task the head, with the old list after it |
| SlLists.PopHead | DocetOS_assignment/DocetOS/src/OS/scheduler.c:114-132 | `list_pop_head_sl`: NULL on an empty list, otherwise the head, and the rest of the list stays in order |
| SlLists.PopTail | DocetOS_assignment/DocetOS/src/OS/scheduler.c:135-177 | `list_pop_tail_sl`: NULL on an empty list, otherwise the last node, and the rest stays in order |
| SlLists.PushPopHead | DocetOS_assignment/DocetOS/src/OS/scheduler.c:89-132 | a pop from the head right after a push returns the pushed task and restores the list |
| SlLists.PushThenPopTail | DocetOS_assignment/DocetOS/src/OS/scheduler.c:89-177 | a push does not change which task a pop from the tail of a non-empty list returns |
| SlLists.PushAllReverses | DocetOS_assignment/DocetOS/src/OS/scheduler.c:89-111 | pushes lay the tasks on the list last-pushed first |
| SlLists.FifoOrder | DocetOS_assignment/DocetOS/src/OS/scheduler.c:89-177 | tasks pushed in some order come out of the tail in the same order |
| SlLists.LifoOrder | DocetOS_assignment/DocetOS/src/OS/scheduler.c:89-132 | tasks pushed in some order come out of the head in reverse order |
| SlLists.LinkPushRefines | DocetOS_assignment/DocetOS/src/OS/scheduler.c:89-111 | the pointer-level push turns links describing `s` into links describing `[t] + s` |
| SlLists.LinkPopHeadRefines | DocetOS_assignment/DocetOS/src/OS/scheduler.c:114-132 | the pointer-level pop from the head returns the sequence's head and leaves links describing its rest |
| SlLists.LinkPopHeadClearRefines | DocetOS/DocetOS_sleep_wait/src/OS/scheduler.c:76-98 | the older `list_pop_sl` does the same and also clears the popped node's `next` |
| SlLists.LinkPopTail | DocetOS_assignment/DocetOS/src/OS/scheduler.c:135-177 | the pointer-level walk to the last node returns the sequence's last task and leaves links describing the rest, a one-node list becoming empty |
| SlLists.PushNoDup | DocetOS_assignment/DocetOS/src/OS/scheduler.c:89-111 | pushing a task not on the list keeps it free of duplicates |
| Scheduler.InitialiseTcb | DocetOS_assignment/DocetOS/src/OS/scheduler.c:211-224 | the mapped priority is a valid ring and equals `originalPriority`, and the state is cleared |
| Scheduler.InitialisePriorityRoundTrip | DocetOS_assignment/DocetOS/src/OS/scheduler.c:219-222 | the 1-based priority `level + 1` selects ring `level`, so every ring is reachable |
| Scheduler.InitialiseInvalidIsLeastUrgent | DocetOS_assignment/DocetOS/src/OS/scheduler.c:215-218 | priority 0 or one above the level count maps to the least urgent ring |
| Scheduler.AddTaskSpec | DocetOS_assignment/DocetOS/src/OS/scheduler.c:250-252 | an unqueued task becomes the last entry of the ring of its priority, the invariant holds and no other task moves |
| Scheduler.SleepersNotDue | DocetOS_assignment/DocetOS/src/OS/scheduler.c:182 | when the heap's root is not due, no sleeper is, which justifies the wake loop stopping at the root |
| Scheduler.WakeOne | DocetOS_assignment/DocetOS/src/OS/scheduler.c:183-184 | one round of the wake loop keeps the kernel well formed |
| Scheduler.WakeOneSpec | DocetOS_assignment/DocetOS/src/OS/scheduler.c:183-184 | one round moves the heap's root into the ring of its priority, and only it |
| Scheduler.Wake | DocetOS_assignment/DocetOS/src/OS/scheduler.c:182-185 | the wake loop keeps the kernel well formed and leaves no sleeper due |
| Scheduler.WakeSpec | DocetOS_assignment/DocetOS/src/OS/scheduler.c:182-185 | the wake loop moves exactly the due sleepers to their rings and keeps the invariant |
| Scheduler.DrainOne | DocetOS_assignment/DocetOS/src/OS/scheduler.c:190-191 | one round of the pending loop keeps the kernel well formed |
| Scheduler.DrainOneSpec | DocetOS_assignment/DocetOS/src/OS/scheduler.c:190-191 | one round moves the pending list's head into the ring of its priority, and only it |
| Scheduler.Drain | DocetOS_assignment/DocetOS/src/OS/scheduler.c:187-192 | the pending loop empties the pending list |
| Scheduler.DrainSpec | DocetOS_assignment/DocetOS/src/OS/scheduler.c:187-192 | the pending loop makes every pending task ready at its priority, moves nothing else and keeps the invariant |
| Scheduler.FirstNonEmpty | DocetOS_assignment/DocetOS/src/OS/scheduler.c:194-196 | the chosen level is the lowest-numbered non-empty ring, and none exists exactly when all rings are empty |
| Scheduler.ClearRunBits | DocetOS_assignment/DocetOS/src/OS/scheduler.c:200 | the sleep and yield bits are cleared and every other state bit is kept |
| Scheduler.Pick | DocetOS_assignment/DocetOS/src/OS/scheduler.c:194-207 | idle is returned exactly when all rings are empty, and the pending list, the sleeping heap and every wake time are untouched |
| Scheduler.PickSpec | DocetOS_assignment/DocetOS/src/OS/scheduler.c:194-207 | the task picked heads the most urgent non-empty ring, all more urgent rings are empty, and only that ring's rotation and the task's two bits change |
| Scheduler.Schedule | DocetOS_assignment/DocetOS/src/OS/scheduler.c:180-208 | afterwards the pending list is empty and no sleeper left in the heap is due |
| Scheduler.WakeDrainSpec | DocetOS_assignment/DocetOS/src/OS/scheduler.c:182-192 | after both loops every due sleeper and every pending task is ready, and every other task is where it was |
| Scheduler.ScheduleSpec | DocetOS_assignment/DocetOS/src/OS/scheduler.c:180-208 | after `_OS_schedule` the invariant holds, no task is lost or duplicated, due sleepers and pending tasks are ready, and every other task keeps its place |
| Scheduler.ReadyStaysReady | DocetOS_assignment/DocetOS/src/OS/scheduler.c:182-192 | a kernel with a ready task still has a non-empty ring after the two loops |
| Scheduler.IdleWhenNothingToRun | DocetOS_assignment/DocetOS/src/OS/scheduler.c:194-207 | with nothing ready, pending or due, all rings are still empty after the two loops, so the idle TCB runs |
| Scheduler.RunnableWhenSomethingToRun | DocetOS_assignment/DocetOS/src/OS/scheduler.c:194-202 | with anything ready, pending or due, some ring is non-empty after the two loops, so a task runs |
| Scheduler.ScheduleIdleSpec | DocetOS_assignment/DocetOS/src/OS/scheduler.c:180-208 | idle is returned exactly when no task is ready, pending or due to wake |
| Scheduler.SleepDelegateSpec | DocetOS_assignment/DocetOS/src/OS/scheduler.c:339-356 | the wake time `now + duration` mod 2^32 and the sleep bit are set, and the running task moves from its ring into the sleeping heap and is nowhere else |
| Scheduler.RequeueSpec | DocetOS_assignment/DocetOS/src/OS/scheduler.c:293-300 | a ready task leaves its ring and is pending at the new priority, queued once, the invariant kept and no other task moved |
| Scheduler.PromoteSpec | DocetOS_assignment/DocetOS/src/OS/scheduler.c:293-300 | corrected promotion: the owner runs at the waiter's priority, is pending if it was ready and otherwise stays where it was, is queued as often as before, and the invariant holds |
| KernelState.RaisePrioritySpec | DocetOS_assignment/DocetOS/src/OS/scheduler.c:293-300 | corrected promotion of an owner that is not ready: only its priority changes, every task keeps its place, and the mutex heaps stay ordered |
| KernelState.ResiftSpec | DocetOS_assignment/DocetOS/src/OS/scheduler.c:293-300 | a mutex heap that holds the promoted owner is re-sorted after its key drops, keeping the same waiters |
| Scheduler.MutexWaitAsWrittenQueuesTwice | DocetOS_assignment/DocetOS/src/OS/scheduler.c:281-300 | as written, an owner that is asleep, pending or waiting when a more urgent task waits is queued twice: it stays where it was and is also pushed on the pending list |
| Scheduler.OwnerOnSemaphoreQueuedTwice | DocetOS_assignment/DocetOS/src/OS/scheduler.c:281-300 | an owner blocked on a semaphore ends up on both the semaphore's list and the pending list as written, and on the semaphore's list alone, promoted, with the correction |
| Scheduler.MutexEnqueueSpec | DocetOS_assignment/DocetOS/src/OS/scheduler.c:283-289 | the waiting caller leaves its ring for the mutex's heap, and no mutex's owner or counters change |
| Scheduler.MutexWaitPromotes | DocetOS_assignment/DocetOS/src/OS/scheduler.c:281-303 | a waiter more urgent than the owner ends up on the mutex while the owner runs at the waiter's priority, pending if it was ready and where it was otherwise |
| Scheduler.MutexWaitKeepsOwner | DocetOS_assignment/DocetOS/src/OS/scheduler.c:281-303 | an owner at least as urgent as the waiter is left where it was, and only the waiter moves |
| Scheduler.MutexWaitDelegateSpec | DocetOS_assignment/DocetOS/src/OS/scheduler.c:271-304 | a stale check code changes nothing; otherwise the caller waits on the mutex, the owner runs at the more urgent of the two priorities, and a promoted ready owner is pending |
| Scheduler.SemaphoreWaitDelegateSpec | DocetOS_assignment/DocetOS/src/OS/scheduler.c:312-332 | a stale check code changes nothing; otherwise the caller moves from its ring to the head of the semaphore's list and nothing else changes |
| Scheduler.PriorityRestoreSpec | DocetOS_assignment/DocetOS/src/OS/scheduler.c:364-376 | the task gets `originalPriority` back, which is a no-op when unchanged, and a changed task is requeued through the pending list |
| Scheduler.PriorityRestoreIdempotent | DocetOS_assignment/DocetOS/src/OS/scheduler.c:364-376 | restoring twice is restoring once |
| Scheduler.PromoteThenRestore | DocetOS_assignment/DocetOS/src/OS/scheduler.c:290-376 | a promoted owner runs at the waiter's priority; one that was ready or pending is ready after the pending loop and has exactly its old TCB back once restored |
| Mutexes.Initialise | DocetOS_assignment/DocetOS_sleep_wait/src/OS/mutex.c:18-25 | a new mutex has no owner, zero counters and no waiters, and satisfies the mutex invariant |
| Mutexes.Claim | DocetOS_assignment/DocetOS_sleep_wait/src/OS/mutex.c:30-52 | the caller must wait exactly when another task owns the mutex; otherwise the caller becomes the owner |
| Mutexes.ClaimSpec | DocetOS_assignment/DocetOS_sleep_wait/src/OS/mutex.c:36-52 | a free mutex is taken with count 1, the owner's re-entry adds one, and `owner == NULL` iff count 0 is kept |
| Mutexes.UnclaimSpec | DocetOS_assignment/DocetOS_sleep_wait/src/OS/mutex.c:55-66 | a non-owner's release changes nothing; the owner's lowers the count and clears the owner exactly when the count was 1 |
| Mutexes.ClaimTimesCount | DocetOS_assignment/DocetOS_sleep_wait/src/OS/mutex.c:46-52 | n acquires by the owner, or of a free mutex, raise the count by n |
| Mutexes.UnclaimTimesCount | DocetOS_assignment/DocetOS_sleep_wait/src/OS/mutex.c:57-61 | fewer releases than the count lower it by their number and keep the owner |
| Mutexes.NestedAcquireRelease | DocetOS_assignment/DocetOS_sleep_wait/src/OS/mutex.c:46-66 | n nested acquires need exactly n releases before the owner is cleared, and the mutex comes back as it was |
| Mutexes.UnclaimAfterUnclaim | DocetOS_assignment/DocetOS_sleep_wait/src/OS/mutex.c:55-66 | j + 1 releases are j releases and then one more |
| Mutexes.AcquireSpec | DocetOS_assignment/DocetOS_sleep_wait/src/OS/mutex.c:27-53 | acquire waits exactly when another task owns the mutex, carrying the counter snapshot; otherwise it claims the mutex and moves no task |
| Mutexes.AcquireThenWait | DocetOS_assignment/DocetOS_sleep_wait/src/OS/mutex.c:30-45 | the wait acquire issues with its own snapshot puts the caller on the mutex's heap |
| Mutexes.NotifyHandsOver | DocetOS_assignment/DocetOS_sleep_wait/src/OS/mutex.c:80-91 | with waiters, notify raises the counter and moves a waiter with the smallest priority number to the pending list, and nothing else |
| Mutexes.NotifySpec | DocetOS_assignment/DocetOS_sleep_wait/src/OS/mutex.c:80-91 | notify keeps the invariant, raises the counter by one, and moves exactly one most-urgent waiter or, with none, no task |
| Mutexes.ReleaseSpec | DocetOS_assignment/DocetOS_sleep_wait/src/OS/mutex.c:55-73 | a non-owner's release changes nothing; the owner's lowers the count; the last release restores priority, clears the owner, notifies, and the owner always yields |
| Mutexes.NotifyBeforeWait | DocetOS_assignment/DocetOS_sleep_wait/src/OS/mutex.c:30-45 | a notification between the snapshot and the wait request makes the wait a no-op, so no wake-up is lost |
| Semaphores.Initialise | DocetOS_assignment/DocetOS/src/OS/semaphore.c:7-11 | tokens are the given total, the counter is 0 and no task waits |
| Semaphores.TakeToken | DocetOS_assignment/DocetOS/src/OS/semaphore.c:23-29 | a token is taken exactly when one is left, lowering the count by exactly one |
| Semaphores.GiveToken | DocetOS_assignment/DocetOS/src/OS/semaphore.c:43-51 | release raises the tokens by one, with no upper bound |
| Semaphores.TokenConservation | DocetOS_assignment/DocetOS/src/OS/semaphore.c:8-47 | the tokens left are the initial total minus the successful acquires plus the releases |
| Semaphores.AcquireSpec | DocetOS_assignment/DocetOS/src/OS/semaphore.c:18-37 | acquire waits exactly when no token is left, carrying the counter snapshot; otherwise it takes one token and moves no task |
| Semaphores.AcquireThenWait | DocetOS_assignment/DocetOS/src/OS/semaphore.c:19-36 | the wait acquire issues with its own snapshot puts the caller on the semaphore's list |
| Semaphores.NotifyHandsOver | DocetOS_assignment/DocetOS/src/OS/semaphore.c:74-91 | with waiters, notify moves the oldest waiter (the tail) to the pending list and raises the counter |
| Semaphores.NotifySpec | DocetOS_assignment/DocetOS/src/OS/semaphore.c:74-91 | notify keeps the invariant and the tokens, raises the counter by one, and moves at most the oldest waiter |
| Semaphores.ReleaseSpec | DocetOS_assignment/DocetOS/src/OS/semaphore.c:42-54 | release raises tokens and counter by one each and hands the oldest waiter, if any, to the pending list |
| Semaphores.WaitOnceSpec | DocetOS_assignment/DocetOS/src/OS/scheduler.c:322-328 | a running task that waits with the current count is pushed at the head of the semaphore's list, the pending list unchanged |
| Semaphores.WaitInTurn | DocetOS_assignment/DocetOS/src/OS/scheduler.c:312-332 | tasks waiting one after another are pushed on the semaphore's list in that order and the invariant holds |
| Semaphores.NotifyInOrder | DocetOS_assignment/DocetOS/src/OS/semaphore.c:84-90 | notifications pop the waiters from the tail and push them on the pending list oldest first, emptying the list |
| Semaphores.WaitersResumeInOrder | DocetOS_assignment/DocetOS/src/OS/semaphore.c:74-91 | tasks that wait on a semaphore in some order reach the pending list in that order after as many notifications |
| Semaphores.NotifyBeforeWait | DocetOS_assignment/DocetOS/src/OS/semaphore.c:19-36 | a notification between the snapshot and the wait request makes the wait a no-op |
| SingleRing.NotificationCount | DocetOS_assignment/DocetOS_sleep_wait/src/OS/scheduler.c:51-53 | the getter returns the counter and changes nothing |
| SingleRing.MoveWaiters | DocetOS_assignment/DocetOS_sleep_wait/src/OS/scheduler.c:138-142 | the notify loop lays the waiters, reversed, in front of the pending tasks |
| SingleRing.NotifyAllSpec | DocetOS_assignment/DocetOS_sleep_wait/src/OS/scheduler.c:131-143 | the counter goes up by one, every waiter becomes pending, the wait list empties and no task is lost or duplicated |
| SingleRing.NotifyBeforeWait | DocetOS_assignment/DocetOS_sleep_wait/src/OS/scheduler.c:216-234 | a notification after the counter was read makes the wait a no-op |
| SingleRing.WakeOne | DocetOS_assignment/DocetOS_sleep_wait/src/OS/scheduler.c:148-151 | one wake round moves the heap's root to the end of the ring and keeps the heap ordered and every task queued |
| SingleRing.Wake | DocetOS_assignment/DocetOS_sleep_wait/src/OS/scheduler.c:148-151 | the wake loop keeps every task queued and leaves no sleeper due |
| SingleRing.WakeSpec | DocetOS_assignment/DocetOS_sleep_wait/src/OS/scheduler.c:148-151 | exactly the due sleepers move from the heap into the ring |
| SingleRing.DrainInto | DocetOS_assignment/DocetOS_sleep_wait/src/OS/scheduler.c:153-157 | the pending loop appends the pending tasks to the ring in list order |
| SingleRing.Drain | DocetOS_assignment/DocetOS_sleep_wait/src/OS/scheduler.c:153-157 | the pending list empties into the ring, and no task is lost |
| SingleRing.Pick | DocetOS_assignment/DocetOS_sleep_wait/src/OS/scheduler.c:158-167 | an empty ring gives idle and no change; otherwise the ring advances and its new head runs with sleep and yield cleared |
| SingleRing.PickSpec | DocetOS_assignment/DocetOS_sleep_wait/src/OS/scheduler.c:158-167 | picking keeps the kernel well formed and every task queued |
| SingleRing.PickKeepsReady | DocetOS_assignment/DocetOS_sleep_wait/src/OS/scheduler.c:161 | picking only rotates the ring |
| SingleRing.ScheduleSpec | DocetOS_assignment/DocetOS_sleep_wait/src/OS/scheduler.c:146-168 | due sleepers and pending tasks become ready and ready tasks stay; the next task runs with its bits cleared, and idle is returned exactly when nothing is ready, pending or due |
| SingleRing.WaitDelegateSpec | DocetOS_assignment/DocetOS_sleep_wait/src/OS/scheduler.c:216-234 | a stale check code changes nothing; otherwise the ring's head moves to the head of the wait list |
| SingleRing.SleepDelegateSpec | DocetOS_assignment/DocetOS_sleep_wait/src/OS/scheduler.c:241-258 | the wake time and sleep bit are set, and the task moves from the ring into the heap, queued once |
| SingleRing.SleepHeapOrdered | DocetOS_assignment/DocetOS_sleep_wait/src/OS/scheduler.c:247-255 | setting the sleeper's wake time and inserting it keeps the heap ordered |
| SingleRing.SleepDelegateKeepsOthers | DocetOS_assignment/DocetOS_sleep_wait/src/OS/scheduler.c:241-258 | sleeping moves no task but the running one |
| SingleRing.WaitersRejoinInOrder | DocetOS_assignment/DocetOS_sleep_wait/src/OS/scheduler.c:131-168 | tasks that waited in some order rejoin the ring in that order after a notify and a reschedule |
| ScanScheduler.Schedule | DocetOS/DocetOS_sleep_wait/src/OS/scheduler.c:101-124 | the first runnable task after the entry head becomes head, with its bits cleared; idle with the ring unchanged exactly when none is runnable |
| ScanScheduler.RotateFacts | DocetOS/DocetOS_sleep_wait/src/OS/scheduler.c:108 | each `head = head->next` rotates the ring one further |
| ScanScheduler.OffsetAt | DocetOS/DocetOS_sleep_wait/src/OS/scheduler.c:105-118 | in a duplicate-free ring the entry head comes back only after a full rotation |
| ScanScheduler.WaitDelegateSpec | DocetOS/DocetOS_sleep_wait/src/OS/scheduler.c:172-181 | the ring's head leaves the ring and heads the wait list, keeping both duplicate-free and disjoint |
| ScanScheduler.WaitDelegateKeepsOthers | DocetOS/DocetOS_sleep_wait/src/OS/scheduler.c:172-181 | no task but the running one moves |
| ScanScheduler.AddTaskSpec | DocetOS/DocetOS_sleep_wait/src/OS/scheduler.c:156-158 | an unqueued task joins the ring last and is reached only after every other task |
| WordCount.WordcountNext | Programming/wordcount/src/main.c:9-20 | counting letters followed by a non-letter or the terminator gives the number of words, at most the length |
| WordCount.WordcountNextInv | Programming/wordcount/src/main.c:22-33 | counting non-letters followed by a letter misses only a word at the very start |
| WordCount.WordcountFlag | Programming/wordcount/src/main.c:35-50 | the in-word flag count is the number of maximal alphanumeric runs |
| WordCount.EndsAreWords | Programming/wordcount/src/main.c:9-20 | word ends and word starts are equally many |
| WordCount.GapsAreWords | Programming/wordcount/src/main.c:22-33 | gaps are word starts minus a word at position 0 |
| WordCount.WordsBound | Programming/wordcount/src/main.c:11-50 | no string holds more words than characters |
| WordCount.WordsAppend | Programming/wordcount/src/main.c:35-50 | a text continuing with a separator holds the words of both parts |
| WordCount.SampleCounts | Programming/wordcount/src/main.c:57-62 | all three functions count 15 words in the sample text |
| StaticAlloc.Initial | Allocation/static/src/static_alloc.c:5-11 | the index starts at 16384, the pool size |
| StaticAlloc.RoundDown | Allocation/static/src/static_alloc.c:16 | masking with `~7` gives the largest multiple of 8 not above the value |
| StaticAlloc.Alloc | Allocation/static/src/static_alloc.c:13-21 | succeeds iff the index exceeds the request; the block is the new, 8-aligned index and fits below the old one; failure changes nothing |
| StaticAlloc.AllocAllDisjoint | Allocation/static/src/static_alloc.c:13-21 | every block of any run of requests is aligned, below the start index, and wholly below every earlier block |
| Mempool.Allocate | Allocation/mempool/src/mempool.c:8-17 | an empty pool gives NULL and stays empty; otherwise the head is returned and its successor becomes the head |
| Mempool.Deallocate | Allocation/mempool/src/mempool.c:19-26 | the block becomes the head, linked to the old head |
| Mempool.DeallocateThenAllocate | Allocation/mempool/src/mempool.c:8-26 | a freed block is the next one allocated, and the pool is restored |
| Mempool.AllocateThenDeallocate | Allocation/mempool/src/mempool.c:8-26 | freeing the block just allocated restores the pool |
| Mempool.DeallocateAllStacks | Allocation/mempool/src/mempool.c:19-26 | blocks freed in turn sit on the free list last first |
| Mempool.LastFreedFirstAllocated | Allocation/mempool/src/mempool.c:8-26 | as many allocations as frees return the freed blocks in reverse and restore the pool |
| Mempool.AlignUpSpec | Allocation/mempool/src/mempool.c:30 | the aligned size is the smallest multiple of 8 that holds a block |
| Mempool.AddBlocks | Allocation/mempool/src/mempool.c:37-39 | the loop puts block `i` at `storage` plus `i * aligned` mod 2^32 in front of the list, last block first |
| Mempool.InitAsWrittenOverflows | Allocation/mempool/src/mempool.c:30-32 | as written, 65536 blocks of 65536 bytes request 0 bytes, which is granted, and all 65536 blocks lie beyond the 16 KiB pool |
| Mempool.InitAsWrittenDuplicates | Allocation/mempool/src/mempool.c:37-39 | as written, 4 blocks of 2 GiB wrap their offsets to two addresses, so the free list holds each block twice and two allocations return the same block |
| Mempool.InitSpec | Allocation/mempool/src/mempool.c:28-44 | with the size checked, init adds `blocks` aligned, disjoint blocks inside the granted storage exactly when the size fits in 32 bits and below the allocator's index, and otherwise empties the pool and leaves the allocator alone |
| Mempool.AddBlocksCarved | Allocation/mempool/src/mempool.c:34-39 | the blocks added lie inside the granted storage, are 8-aligned and do not overlap |
| Stack.Push | Storage/stack/src/stack.c:3-6 | the value goes on top, the pointer moves up by one, and no other cell changes |
| Stack.Pop | Storage/stack/src/stack.c:8-11 | the pointer moves down by one and the top value is returned, with the cells unchanged |
| Stack.PopAfterPush | Storage/stack/src/stack.c:3-11 | pop after push returns the pushed value and restores the pointer and contents |
| Stack.PushAll | Storage/stack/src/stack.c:3-6 | pushes in turn append the values to the contents |
| Stack.PopNTakesTop | Storage/stack/src/stack.c:8-11 | popping as many values as lie on top returns them last first and leaves what lay below |
| Stack.LastInFirstOut | Storage/stack/src/stack.c:3-11 | pushing values and popping as many returns them reversed and restores the stack |

## Left out

- Context switching and trap plumbing are not modelled: SVC entry, PendSV and `SCB->ICSR` writes, `_task_switch`, and the initial stack frame built by `OS_initialiseTCB`. A "reschedule" is at most a flag, such as the yield flag of `Mutexes.Release`.
- The handler-mode test in `OS_semaphore_release` (semaphore.c:62-69) only selects how the reschedule is requested, so it is not modelled.
- `LDREX`/`STREX` retry loops are single atomic steps that succeed, so interrupt interleavings are not explored beyond the "notification first" step.
  - Two retry paths are therefore absent: the final `list_pop_tail_sl` retry through a NULL `prev`, and the older `list_pop_sl` retry that re-reads a `next` it already cleared.
- The comparators' `int_fast8_t` cast of a difference is not modelled. The heap orders by an integer key (wake time, priority number), so wake times more than 127 ticks apart, which the cast can misorder, are ordered correctly here.
- Wrap-around of the tick counter in comparisons is not modelled: wake times are compared as plain unsigned values, as the code does. Only the addition `now + duration` wraps.
- `_OS_taskExit_delegate`, `sleep.c`, `Storage/heap`, the `main.c` drivers other than the word-count sample, the mode utilities and the teaching demos are not part of this model.
- `pool_add`, which `pool_init` calls, is not part of this model. It is taken to push the block on the free list, exactly as `pool_deallocate` does.
- The final kernel's number of priority levels and sleeping-heap size are not given in its sources. They are parameters: the length of the `rings` sequence and `sleepCapacity`.
- `static_alloc` returns a pointer into `static_pool`. The model returns the offset, so offset 0 is a real block and not NULL.
- Mutexes.ClaimSpec: requires the nesting count to be below 2^32 − 1, so a count that wraps to 0 while the owner is set is not covered.
- Mutexes.AcquireSpec: requires the nesting count to be below 2^32 − 1, for the same reason.
- Mutexes.ClaimTimesCount: requires the count to stay below 2^32.
- Mutexes.NestedAcquireRelease: covers up to 2^32 − 1 nested acquires, for the same reason.
- Mutexes.Release: applies the priority restore before the count decrement. The two touch disjoint state, so the result is the same as the source's order.
- Semaphores.TokenConservation: requires that the tokens never wrap past 2^32 − 1, because the release has no upper-bound check.
- Scheduler.SleepDelegateSpec: requires room in the sleeping heap. `OS_heap_insert` does not check capacity, and writing past the store is undefined.
- Scheduler.MutexEnqueueSpec: requires room in the mutex's heap of 10, for the same reason.
- Scheduler.MutexWaitDelegateSpec: requires room in the mutex's heap of 10 (through `MutexWaitReady`), for the same reason.
- Scheduler.MutexWaitPromotes: requires room in the mutex's heap, for the same reason.
- Scheduler.MutexWaitKeepsOwner: requires room in the mutex's heap, for the same reason.
- Scheduler.MutexWaitAsWrittenQueuesTwice: requires room in the mutex's heap, for the same reason.
- Scheduler.PromoteThenRestore: requires room in the mutex's heap, for the same reason.
- Mutexes.AcquireThenWait: requires room in the mutex's heap, for the same reason.
- Scheduler.MutexWaitDelegateSpec: requires the mutex to have an owner (through `MutexWaitReady`). `OS_mutex_release` clears the owner (mutex.c:65 of the `sleep_wait` kernel) before its notify call raises the counter (mutex.c:67, 84). A waiter whose wait request lands in that window passes the check-code test, and scheduler.c:285-293 then reads the priority of a null owner. The model runs a release as one step, so it cannot reach that window, and none of the mutex-wait lemmas covers a null owner.
- Scheduler.MutexWaitPromotes: requires the mutex to have an owner, for the same reason.
- Scheduler.MutexWaitKeepsOwner: requires the mutex to have an owner, for the same reason.
- Scheduler.MutexWaitAsWrittenQueuesTwice: requires the mutex to have an owner, for the same reason.
- Scheduler.PromoteThenRestore: requires the mutex to have an owner, for the same reason.
- Mutexes.AcquireThenWait: requires the mutex to have an owner, for the same reason.
- WordCount.WordcountNext: `s` is the text before the terminating NUL. The C loop stops at the first `'\0'`, while an `s` that contains one is counted to its end here.
- WordCount.WordcountNextInv: `s` is the text before the terminating NUL, for the same reason.
- WordCount.WordcountFlag: `s` is the text before the terminating NUL, for the same reason.
- Scheduler.PromoteAsWritten: `_list_remove` on an owner that is in no ring follows stale `next`/`prev` links and corrupts whatever they point at. That write is not modelled; the rings are left as they are and only the double queueing is shown.
- The tick counter is sampled once per `_OS_schedule` (the parameter `now`), where the source re-reads `OS_elapsedTicks()` on every test of the wake loop (scheduler.c:182, and scheduler.c:148 of the `sleep_wait` kernel). A tick arriving during the loop can wake one more sleeper in the source than in the model.
- `pool_init` adds each block offset to the storage pointer; that pointer sum is not wrapped, only the 32-bit product `i * blocksizeAligned` is.
- SingleRing.SleepDelegateSpec: requires fewer than 20 sleepers, because `OS_heap_insert` does not check capacity.
- Scheduler.AddTaskSpec: requires the task to be queued nowhere. Adding a task twice corrupts the rings in the source too.
- ScanScheduler.AddTaskSpec: requires the task to be queued nowhere, for the same reason.
- ScanScheduler.Schedule: requires a duplicate-free ring. The loop's exit test compares against the entry head, which ends the scan after one full rotation only when the head occurs once.
- ScanScheduler.WaitDelegateSpec: requires a non-empty ring. The source dereferences the head, which always exists while a task is running.
- Stack.Push: requires a free cell and Stack.Pop a non-empty stack. The source checks neither bound.
- Mempool.AlignUpSpec: holds only when `blocksize + 7` does not wrap. A wrapped value rounds to a tiny size, which `Mempool.Init` refuses.
- Scheduler.InitialiseTcb: takes the priority as an unbounded number, where the source's parameter is `uint_fast8_t`.

## Findings

| source | as written | input that shows it | evidently intended | confidence | as-written member | corrected member |
|---|---|---|---|---|---|---|
| DocetOS_assignment/DocetOS/src/OS/scheduler.c:293-299 | a less urgent mutex owner is unlinked from its ring and pushed on the pending list wherever it is, even when it is asleep, pending or waiting on a semaphore or another mutex | task A owns `consoleOutMutex` and blocks on `readTempSemaphore` (main.c:37-39 of the kernel demo); a more urgent task B then waits for `consoleOutMutex`: A is on the semaphore's list and on the pending list at once | a ready owner is requeued as written; any other owner keeps its place and has its priority raised in place | not executed | Scheduler.MutexWaitAsWrittenQueuesTwice | Scheduler.PromoteSpec |
| Allocation/mempool/src/mempool.c:37-39 | each block offset `i*blocksizeAligned` is computed in 32-bit `size_t` and wraps | `pool_init(pool, 0x80000000, 4)` on a fresh allocator: the request wraps to 0 bytes and is granted, and the offsets 0, 2^31, 2^32, 3·2^31 wrap to two addresses, each on the free list twice | the storage and every offset fit in 32 bits, or the request is refused | not executed | Mempool.InitAsWrittenDuplicates | Mempool.InitSpec |
| Allocation/mempool/src/mempool.c:30-32 | the storage size `blocksizeAligned*blocks` is computed in 32-bit `size_t` and wraps, and so does `blocksize + 7` | `pool_init(pool, 65536, 65536)` on a fresh allocator: the request is 0 bytes, which `static_alloc` grants, and the 65536 blocks start at offset 16384 and beyond, outside the pool | a block size or total that does not fit in 32 bits is refused, like any request the allocator cannot meet | not executed | Mempool.InitAsWrittenOverflows | Mempool.InitSpec |
