# Verified model of the OnePlus 2 device code

This project models the algorithmic parts of the device tree and proves what they do for all inputs,
all runs and all interleavings:

- **Modem search** (`BoyerMoore.dfy`): the Boyer-Moore search that finds the baseband version in the
  modem partition. Its good-suffix table is not the textbook one. The search finds the leftmost
  occurrence in every text if and only if no entry of that table overshoots, a condition on the pattern
  alone; for a C string it says that the pattern has no proper border or is one byte repeated. The
  updater's own pattern has no border.
- **Pointer heap** (`HeapTree.dfy`, `LocHeap.dfy`): nodes that swap data in place, proved against
  functions on trees, for any ranking that is a total preorder.
- **Timer service** (`TimerTime.dfy`, `TimerContainer.dfy`, `TimerProtocol.dfy`, `TimerStarts.dfy`, `TimerLifetime.dfy`,
  `TimerLedger.dfy`, `TimerExpiry.dfy`, `TimerTheorems.dfy`, `TimerDelivery.dfy`, `LocSharedLock.dfy`): the time arithmetic, the container of
  timers over the heap as a class, and the whole service as a state machine over client threads, the
  epoll thread and the message thread. A step that handles a push or a remove message changes the
  abstract container by the function that specifies the class's handler. An expire message is handled
  in steps: a pop with the read of the timer's client, the stop() that follows, and the end.
  `TimerExpiry` proves that these steps, however they interleave with the other threads, pop and leave
  what the handler's function says; `TimerDelivery` that the service can always deliver what is due.
- **Threads** (`LocThread.dfy`): the reference-counted thread delegate, one step for each access.
- **Message queue** (`LinkedList.dfy`, `MsgQ.dfy`): the doubly linked list relinked in place, the
  mutex-protected regions on it, and the threads that wait and signal.
- **Proximity sensor** (`InputEventReader.dfy`, `Binary32.dfy`, `ProximitySensor.dfy`): the
  double-length circular buffer, the conversion of measured values to floats, and the assembly of
  sensor reports.
- **Preview frames** (`PreviewCallback.dfy`): the copy that removes strides, against the zero-copy path.
- **Adapter table** (`LocApiBase.dfy`): the hole-free table of location adapters.

In the two state machines of the timer service and of the message queue, and in that of the thread
delegate, an action that is not enabled leaves the state as it is. Every sequence of actions is then a
run, and a property of `After(run)` for all `run` is a property of every reachable state.

## Where the code differs from its documentation

The code is followed in each case.

- recovery/recovery_updater.cpp:82 speaks of the suffix before position p; the code compares the suffix
  from p on and stores p + 1, which is one place too far for some bordered patterns
  (`BoyerMoore.MissedOccurrence`; exactly when: `BoyerMoore.SearchIsCompleteIff`).
- gps/utils/LocTimer.h:55 calls the argument of `start` the delay of the timer; a callback can run
  before that delay is over, because the first pop of an expire message does not look at the time
  (`TimerTheorems.EarlyCallbackIsReachable`), or because `expire` reads its client before it calls
  `stop`, and the client has restarted its timer in between
  (`TimerTheorems.RestartedCallbackIsReachable`). These are the only two ways
  (`TimerExpiry.EarlyCallbackIff`).
- gps/utils/LocTimer.cpp:288-294 announces that the kernel timer is disarmed when the tree gets empty;
  no handler takes that branch (`TimerTheorems.EmptyButArmedIsReachable`; exactly when the timer is
  disarmed: `TimerContainer.EmptiedIsDisarmedIff`).
- gps/utils/LocHeap.h:84-86 says that `remove` finds a node that ranks the same; it finds the object
  itself, by address (`TimerContainer.SameTimeIsNotRemoved`; exactly when it does as said:
  `HeapTree.RemoveFindsRankIff`).
- gps/utils/LocThread.h:75-77 says that the runnable is deleted exactly when `start` returned true; the
  two can differ in both directions (`LocThread.RunnableMayLeak`,
  `LocThread.RunnableMayBeDeletedOnFailure`; exactly when it is deleted: `LocThread.RunnableDeletedIff`;
  for which clients always: `LocThread.NeverLeaksIff`; for which clients never after a failed start:
  `LocThread.FailureLeavesRunnableIff`).
- gps/utils/msg_q.h:184-187 says that waiters woken by unblocking likely receive nothing, and that the
  queue can no longer be used. No message is accepted any more
  (`MsgQ.NothingAcceptedAfterUnblock`), but a waiter that has been woken does receive a message that is
  still queued (`MsgQ.ReceptionAfterUnblockIsReachable`; exactly when: `MsgQ.ReceivesAfterUnblockIff`
  for a step, `MsgQ.ReceptionAfterUnblockIff` for a run).

## Model

| member | source | states |
|---|---|---|
| BoyerMoore.MaxSuffixLen | recovery/recovery_updater.cpp:52-60 | the length up to which the suffixes ending at p and at the end agree, maximal within the first p bytes |
| BoyerMoore.Strncmp | recovery/recovery_updater.cpp:83 | strncmp of the suffix with the pattern, ending early at a common NUL |
| BoyerMoore.StrncmpIs | recovery/recovery_updater.cpp:83 | the comparison succeeds exactly when both strings agree up to the end of the pattern or up to a NUL in both |
| BoyerMoore.BorderIsDetected | recovery/recovery_updater.cpp:82-85 | a suffix that is also a prefix is always detected, whatever the pattern |
| BoyerMoore.DetectedIsBorder | recovery/recovery_updater.cpp:82-85 | on a NUL-free pattern nothing else is detected |
| BoyerMoore.Delta1 | recovery/recovery_updater.cpp:62-74 | an entry below the pattern length is the distance to an occurrence of that byte |
| BoyerMoore.Delta1Bound | recovery/recovery_updater.cpp:70-73 | no occurrence before the last byte is closer to the end than the entry, so the entry is that of the rightmost one |
| BoyerMoore.MakeDelta1 | recovery/recovery_updater.cpp:65-74 | the array is the bad-character table for all 256 bytes |
| BoyerMoore.WriterIsReoccurrence | recovery/recovery_updater.cpp:89-95 | position p of the second loop writes an entry exactly when p ends the re-occurrence of that entry's suffix after a different byte |
| BoyerMoore.Reoccurrence | recovery/recovery_updater.cpp:89-95 | the smallest shift at which a suffix re-occurs after a different byte, or proof that there is none |
| BoyerMoore.Delta2 | recovery/recovery_updater.cpp:77-96 | every entry moves the alignment on by at least one and at most by twice the length |
| BoyerMoore.MakeDelta2 | recovery/recovery_updater.cpp:77-96 | after both loops each entry is the smallest re-occurrence shift, or the prefix shift when there is none, although later positions overwrite earlier ones |
| BoyerMoore.LastPrefixAtMost | recovery/recovery_updater.cpp:79-87 | every position that passes the strncmp test bounds the prefix shift of all positions up to it |
| BoyerMoore.LastPrefixIs | recovery/recovery_updater.cpp:79-87 | what the first loop stores is one more than the first position from there on that passes the test, and its initial value when none does |
| BoyerMoore.SkipIsSafe | recovery/recovery_updater.cpp:121 | when no table entry overshoots, the larger of the two entries never jumps over an occurrence |
| BoyerMoore.SkipIsLarger | recovery/recovery_updater.cpp:121 | the search moves on by the larger of the two entries, no less |
| BoyerMoore.ScanStep | recovery/recovery_updater.cpp:112-122 | a failed comparison strictly advances the alignment end, for every non-empty pattern |
| BoyerMoore.ScanIsSound | recovery/recovery_updater.cpp:112-122 | whatever is returned is an occurrence, for every non-empty pattern, bordered or not |
| BoyerMoore.Search | recovery/recovery_updater.cpp:98-125 | the search loop stays in bounds and within C ints, and computes the result that the lemmas are about |
| BoyerMoore.ScanFindsLeftmost | recovery/recovery_updater.cpp:98-125 | on such a pattern: the leftmost occurrence, and none exactly when there is none |
| BoyerMoore.MissedOccurrence | recovery/recovery_updater.cpp:98-125 | for each entry that overshoots, a text that contains the pattern and in which the search finds nothing |
| BoyerMoore.SearchIsCompleteIff | recovery/recovery_updater.cpp:98-125 | any pattern, with or without NUL bytes, is found leftmost in every text if and only if there are no position q and border s after it such that q's suffix does not re-occur and no position from q up to s passes the strncmp test |
| BoyerMoore.OvershootAtOne | recovery/recovery_updater.cpp:77-96 | on a C string that is bordered and not constant, the entry of position 1 is one place beyond the first border |
| BoyerMoore.SimplePatternsNeverOvershoot | recovery/recovery_updater.cpp:77-96 | border-free and constant patterns are safe, NUL bytes or not |
| BoyerMoore.CStringSearchIsCompleteIff | recovery/recovery_updater.cpp:98-125 | a NUL-free pattern is found leftmost in every text if and only if it is border-free or constant |
| BoyerMoore.NulMayHelp | recovery/recovery_updater.cpp:83-86 | a bordered pattern that is searched for exactly because a common NUL ends strncmp early |
| BoyerMoore.BasebandSearchIsExact | recovery/recovery_updater.cpp:45-46 | the updater's 32-byte pattern is searched for exactly, in every partition image |
| HeapTree.Push | gps/utils/LocHeap.cpp:101-124 | the top changes only to a new element that strictly outranks it, and the size grows by one |
| HeapTree.PushRefines | gps/utils/LocHeap.cpp:101-124 | push keeps order and sizes and adds exactly its argument |
| HeapTree.PushFillsSmaller | gps/utils/LocHeap.cpp:113-122 | the new element goes to the smaller subtree, to the left one on a tie, and the other stays |
| HeapTree.PopRefines | gps/utils/LocHeap.cpp:126-164 | pop keeps order and sizes, takes out exactly the top, and nothing outranked it |
| HeapTree.PopPromotesHigher | gps/utils/LocHeap.cpp:144-160 | the higher of the two children comes up, the right one if they rank the same, and the other subtree stays |
| HeapTree.RemoveFinds | gps/utils/LocHeap.cpp:166-193 | despite the pruning by rank, remove finds its argument if and only if it is in the heap |
| HeapTree.RemoveFindsRankIff | gps/utils/LocHeap.h:84-88 | remove finds a node of its argument's rank, as documented, exactly when the argument itself is there or nothing of its rank is |
| HeapTree.RemoveRefines | gps/utils/LocHeap.cpp:166-193 | remove keeps order and sizes and takes out exactly its argument |
| HeapTree.RemoveFromOneSide | gps/utils/LocHeap.cpp:178-190 | below the top only the subtree in which the object is found changes, the left one first |
| HeapTree.RemoveKeepsRoot | gps/utils/LocHeap.cpp:166-193 | removing anything but the top leaves the top in place |
| HeapTree.RunConserves | gps/utils/LocHeap.h:53-58 | after any sequence of pushes, pops and removes: a heap, holding what was put in and not taken out |
| HeapTree.RunSize | gps/utils/LocHeap.cpp:273-275 | after any such sequence the size kept at the top is the number put in less the number taken out |
| HeapTree.DrainKeeps | gps/utils/LocHeap.h:77-82 | popping until empty delivers everything |
| HeapTree.DrainSorts | gps/utils/LocHeap.h:77-82 | and delivers it in rank order |
| HeapTree.PushBalanced | gps/utils/LocHeap.cpp:113-122 | a push keeps left minus right size in {0, 1} at every node |
| HeapTree.PushesBuildLow | gps/utils/LocHeap.h:56-58 | a heap of n elements built by pushes has height h with 2^(h-1) <= n < 2^h |
| LocHeap.LocHeapNode.Swap | gps/utils/LocHeap.cpp:87-92 | data change places and no link changes |
| LocHeap.LocHeapNode.Push | gps/utils/LocHeap.cpp:107-124 | the in-place push takes in exactly the new node and yields the tree that push specifies |
| LocHeap.LocHeapNode.Pop | gps/utils/LocHeap.cpp:134-164 | the detached node is a childless node of the tree carrying the old top's data; the rest is the specified tree |
| LocHeap.LocHeapNode.Remove | gps/utils/LocHeap.cpp:170-193 | either nothing changes, or a childless node with the sought data is detached and the rest is as specified |
| LocHeap.LocHeapNode.CheckNodes | gps/utils/LocHeap.cpp:195-220 | true if and only if every size is exact and no child outranks its parent |
| LocHeap.LocHeap.Push | gps/utils/LocHeap.cpp:228-235 | the heap object becomes the specified tree, from empty too |
| LocHeap.LocHeap.Peek | gps/utils/LocHeap.cpp:237-243 | the top, or nothing when empty |
| LocHeap.LocHeap.Pop | gps/utils/LocHeap.cpp:245-254 | the top and the specified rest, or nothing when empty |
| LocHeap.LocHeap.Remove | gps/utils/LocHeap.cpp:256-267 | the object and the specified rest, or nothing and no change |
| TimerTime.FutureTime | gps/utils/LocTimer.cpp:551-558 | normalised, and exactly the given number of milliseconds after now |
| TimerTime.ComputeFutureTime | gps/utils/LocTimer.cpp:551-558 | the statements of start compute that time for every 32-bit timeout |
| TimerTime.StartsInOrder | gps/utils/LocTimer.cpp:551-558 | of two starts, at any times and with any timeouts, the one whose delay ends sooner gets the earlier time |
| TimerTime.SoonerEndOutRanks | gps/utils/LocTimer.cpp:503-517 | and its delegate outranks the other in the heap |
| TimerTime.RankIsReversedOrder | gps/utils/LocTimer.cpp:503-517 | the sign of ranks is the reversed time order when the seconds differ by an int |
| TimerTime.RankExactlyOnShortRanges | gps/utils/LocTimer.cpp:509-513 | the truncation to int is harmless on a range of seconds if and only if it is shorter than 2^31 |
| TimerTime.RanksIsTotalPreorder | gps/utils/LocTimer.cpp:503-517 | timers of a boot clock below 2^31 s meet what the heap requires of a ranking |
| TimerContainer.PopDueInOrder | gps/utils/LocTimer.cpp:367-372 | after the first, timers are popped in non-decreasing time order |
| TimerContainer.PopExpiredIsExact | gps/utils/LocTimer.cpp:360-390 | an expire message pops in time order the previous top and all due timers, leaves only later ones, and loses none |
| TimerContainer.EarlyPopIff | gps/utils/LocTimer.cpp:367 | the handler pops a timer before its time if and only if the heap is not empty and nothing in it is due |
| TimerContainer.PushKeepsArmed | gps/utils/LocTimer.cpp:317-321 | a push leaves the kernel timer polled and set for the top |
| TimerContainer.RemoveKeepsArmed | gps/utils/LocTimer.cpp:334-343 | so does a remove |
| TimerContainer.OnlyNewTopIsSet | gps/utils/LocTimer.cpp:317-343 | a push or a remove leaves the kernel timer alone unless another timer is the soonest afterwards, and then sets it for that |
| TimerContainer.ExpireRearms | gps/utils/LocTimer.cpp:360-374 | an expire message establishes that from any state |
| TimerContainer.EmptyingLeavesKernelTimer | gps/utils/LocTimer.cpp:281-306 | a handler that empties the heap leaves the kernel timer and the poll set as they were |
| TimerContainer.EmptiedIsDisarmedIff | gps/utils/LocTimer.cpp:288-294 | when a handler empties the heap, the kernel timer is disarmed if and only if it was before; if it followed the top, it stays polled and set for the timer just removed |
| TimerContainer.SameTimeIsNotRemoved | gps/utils/LocHeap.h:84-88 | a heap with a timer due at the same time as another, which remove does not find |
| TimerContainer.LocTimerContainer.UpdateSoonest | gps/utils/LocTimer.cpp:281-306 | the new abstract container, for every prior top |
| TimerContainer.SoonestTimeIs | gps/utils/LocTimer.cpp:281-306 | for every tree and prior top when the kernel timer is set, disarmed or left alone, the branch for an emptied tree included |
| TimerContainer.LocTimerContainer.HandlePush | gps/utils/LocTimer.cpp:317-321 | the handler's effect on heap, kernel timer and poll set |
| TimerContainer.LocTimerContainer.HandleRemove | gps/utils/LocTimer.cpp:334-343 | the same for a remove, including one of a timer that is not there |
| TimerContainer.LocTimerContainer.PopIfOutRanks | gps/utils/LocTimer.cpp:383-390 | pops exactly when the top is not later than now |
| TimerContainer.LocTimerContainer.HandleExpire | gps/utils/LocTimer.cpp:360-374 | the timers expired, in order, and the container left |
| TimerProtocol.ReceiveKeepsAttended | gps/utils/LocTimer.cpp:308-375 | no message handled can lose the wake-up of either container |
| TimerProtocol.NextKeepsAttended | gps/utils/LocTimer.cpp:281-381 | nor can any other step of any thread |
| TimerProtocol.NoLostWakeUp | gps/utils/LocTimer.cpp:281-381 | in every reachable state the timerfd is set for the top and polled, or the epoll thread is inside expire(), or an expire message is queued or being handled |
| TimerProtocol.DueTimerWakesPoll | gps/utils/LocTimer.cpp:446-466 | with nothing under way, epoll_wait returns a container if and only if its soonest timer is due |
| TimerProtocol.WakesOnlyWhenFired | gps/utils/LocTimer.cpp:446-461 | epoll_wait returns only containers in the epoll set whose kernel timer has gone off, and changes nothing else |
| TimerProtocol.PollStepIs | gps/utils/LocTimer.cpp:377-380 | expire() disarms the kernel timer, then leaves the epoll set, then sends its message, one at a time and for one container |
| TimerStarts.StartMakes | gps/utils/LocTimer.cpp:547-565 | a start makes one running delegate for its client and kind whose time is exactly the delay in nanoseconds after the clock, and sends its push |
| TimerStarts.StartWhileRunning | gps/utils/LocTimer.cpp:550 | a start of a running timer changes nothing |
| TimerStarts.NextKeepsTimers | gps/utils/LocTimer.cpp:474-580 | no other step of any thread makes a delegate or changes the client, kind or time of one |
| TimerStarts.EveryDelegateWasStarted | gps/utils/LocTimer.cpp:474-482 | in every run each delegate comes from one step that started it |
| TimerStarts.DelegateIsItsStart | gps/utils/LocTimer.cpp:547-565 | in every run a delegate has the client and kind of its start, and its time is the clock at that step plus the delay given there |
| TimerLifetime.DeleteKeepsQueue | gps/utils/LocTimer.cpp:334-346 | when a delegate is deleted no message left in the queue is about it |
| TimerLifetime.NextKeepsLife | gps/utils/LocTimer.cpp:308-580 | every step keeps the links between timers and delegates, the order push before remove, one remove per stopped delegate, heap entries that are undeleted and unique, and a place for each running timer |
| TimerLifetime.LifeAlways | gps/utils/LocTimer.cpp:308-580 | all of that in every reachable state, over heaps that are heaps |
| TimerLedger.LedgerAlways | gps/utils/LocTimer.cpp:474-580 | in every reachable state, also between the stop() and the drop() of a destructor: mRef is one for a LocTimer that still holds its lock plus its undeleted delegates, and the logs of endings, deletions and destroyed locks have no repetition and no gap |
| TimerLedger.DeadDropKeepsRefs | gps/utils/LocTimer.cpp:539-545 | a destructor drops a lock that still exists and keeps the count exact |
| TimerLedger.DeletedDropKeepsRefs | gps/utils/LocTimer.cpp:184 | so does the deletion of a delegate |
| TimerTheorems.DeletedOnceAndForgotten | gps/utils/LocTimer.cpp:344-345 | a delegate is deleted at most once, and then neither queue, heap nor LocTimer refers to it |
| TimerTheorems.DrainedMeansRunning | gps/utils/LocTimer.cpp:484-501 | with the queue drained, every undeleted delegate is a running timer in its heap, or the one that the message thread has just popped and is about to stop |
| TimerTheorems.LockLivesWithItsHolders | gps/utils/LocSharedLock.h:36-41 | the lock exists exactly as long as its LocTimer or one of its delegates, and is destroyed at most once |
| TimerTheorems.DestructorSteps | gps/utils/LocTimer.cpp:539-540 | a LocTimer being deleted stops its timer, keeps its lock so far, and is used no more |
| TimerTheorems.DestructorEnds | gps/utils/LocTimer.cpp:541-544 | and then gives up exactly one share of the lock, once |
| TimerTheorems.EndingIsFinal | gps/utils/LocTimer.cpp:519-532 | each start ends at most once: no second callback for it, and no callback for it after a stop that returned true, however the run goes on, also between the read of mClient and the stop() in expire() |
| TimerTheorems.EarlyCallbackIsReachable | gps/utils/LocTimer.cpp:367-373 | a run in which a callback comes ten seconds early |
| TimerTheorems.RestartedCallbackIsReachable | gps/utils/LocTimer.cpp:519-532 | a run in which expire() calls back, ten seconds early, the timer that the client started after its own stop() had returned true |
| TimerTheorems.EmptyButArmedIsReachable | gps/utils/LocTimer.cpp:288-294 | a run after which nothing is under way and no timer is left, and the kernel timer is still set |
| TimerExpiry.HandlingPops | gps/utils/LocTimer.cpp:360-374 | however the steps of an expire message interleave with those of other threads, they pop in order what is still to be popped, and end with the kernel timer set for the top |
| TimerExpiry.PopRemembers | gps/utils/LocTimer.cpp:519-526 | the client of a popped timer is remembered exactly when mClient has not been reset |
| TimerExpiry.ExpireMessageIsExact | gps/utils/LocTimer.cpp:352-375 | in every run, an expire message pops in time order the previous top and exactly the other timers due at the sampled time, and leaves only later ones |
| TimerExpiry.HandlingCompletes | gps/utils/LocTimer.cpp:367-372 | from any state of its handling, the message thread alone can bring it to its end |
| TimerExpiry.CallsBackIff | gps/utils/LocTimer.cpp:519-532 | a step of the loop calls a timer back if and only if it is the stop() after a pop and that is the timer which the client read before is running by then |
| TimerExpiry.StepIsEarlyIff | gps/utils/LocTimer.cpp:367-372 | at the sampled time or any later one: the step calls back a timer that is not yet due if and only if the timer popped is still running, was popped first and is not due, or its client has replaced it by another one that is not due |
| TimerExpiry.EarlyCallbackIff | gps/utils/LocTimer.cpp:367-373 | for every step of every thread in every run: a callback comes before the delay is over with which its timer was started exactly in those two cases |
| TimerDelivery.DrainQueue | gps/utils/LocTimer.cpp:308-390 | from every state that keeps the invariants (every reachable one does) the message thread alone can empty its queue, although handling a message may send others |
| TimerDelivery.DueAtRestIsReady | gps/utils/LocTimer.cpp:446-466 | when nothing is under way, a running timer that is due makes epoll_wait return its container |
| TimerDelivery.DueTimerIsCalledBack | gps/utils/LocTimer.cpp:281-532 | from every reachable state, the epoll and message threads alone can bring about the callback of every running timer whose delay is over |
| LocSharedLock.LocSharedLock.Share | gps/utils/LocSharedLock.h:49-50 | one more holder, counted as the state machine of the timer service counts it |
| LocSharedLock.LocSharedLock.Drop | gps/utils/LocSharedLock.h:51-52 | the lock deletes itself exactly when its last holder drops it, by the same function of the count |
| LocThread.CountedAlways | gps/utils/LocThread.cpp:65-200 | in every interleaving the count is the number of threads that still hold the delegate |
| LocThread.DeletedExactlyOnce | gps/utils/LocThread.cpp:151-171 | the delegate is never deleted twice, never touched afterwards, and deleted once both threads are done |
| LocThread.DeletionIsTheEnd | gps/utils/LocThread.cpp:151-171 | the delegate is deleted exactly when both threads are done with it, and no step follows |
| LocThread.AccessIsRecorded | gps/utils/LocThread.cpp:109-200 | every step that uses the delegate counts as an access to it |
| LocThread.AtMostOneTurn | gps/utils/LocThread.cpp:184 | after stop() or the release of a joinable thread the loop makes at most one more turn, whatever run() returns |
| LocThread.JoinReturns | gps/utils/LocThread.cpp:138-141 | from every reachable state in pthread_join the thread on its own takes at most seven steps, whatever run() returns, and can take one until it has exited |
| LocThread.StopWaitsForExit | gps/utils/LocThread.cpp:128-144 | the stop() of a joinable thread goes on only when the thread has exited |
| LocThread.SomeoneCanStep | gps/utils/LocThread.cpp:123-144 | before the end some thread can always step, except that a client may keep its thread |
| LocThread.RunnableDeletedIff | gps/utils/LocThread.cpp:128-197 | in every run the runnable is deleted, and then once, if and only if the thread's first read of mRunnable comes before every reset of it by stop() or by the release of a joinable thread |
| LocThread.DeletedAfterFailureIff | gps/utils/LocThread.cpp:110-121 | after a failed start: if and only if a thread was created |
| LocThread.FailureLeavesRunnableIff | gps/utils/LocThread.h:75-77 | after a failed start the runnable is left to the client in every finished run if and only if its run() never returns false |
| LocThread.DetachedAlwaysDeletes | gps/utils/LocThread.cpp:173-197 | a detached thread that is never stopped deletes its runnable once, in every interleaving |
| LocThread.LeakingRun | gps/utils/LocThread.cpp:128-144 | for every other client, joinable or stopping or both, a finished run that leaks the runnable |
| LocThread.NeverLeaksIff | gps/utils/LocThread.h:75-77 | the runnable of a created thread is deleted in every finished run if and only if the thread is detached and its client never calls stop() |
| LocThread.RunnableMayLeak | gps/utils/LocThread.h:75-77 | a run in which start returned true and the runnable is never deleted |
| LocThread.RunnableMayBeDeletedOnFailure | gps/utils/LocThread.h:75-77 | a run in which start returned false and the runnable is already deleted |
| LinkedList.FirstMatch | gps/utils/linked_list.c:291-324 | the first match from the head, or proof that there is none |
| LinkedList.ListElement.Deref | gps/utils/linked_list.c:145-326 | every access to an element through a pointer is to one that has not been freed |
| LinkedList.List.Add | gps/utils/linked_list.c:110-155 | a new head, with all links kept; error codes for a NULL object and for failed allocation |
| LinkedList.List.Remove | gps/utils/linked_list.c:162-204 | the oldest element leaves from the tail and is freed, with all links kept |
| LinkedList.List.Empty | gps/utils/linked_list.c:211-223 | true exactly for the empty list |
| LinkedList.List.Flush | gps/utils/linked_list.c:230-260 | every element is freed once and every object with a dealloc function is discharged once, newest first |
| LinkedList.WithDeallocIs | gps/utils/linked_list.c:245-249 | the objects discharged are those with a dealloc function, item by item in list order |
| LinkedList.List.Search | gps/utils/linked_list.c:267-327 | the first match is reported, and unlinked, freed and discharged exactly as the arguments ask; otherwise nothing changes |
| LinkedList.List.Unlink | gps/utils/linked_list.c:298-317 | an element leaves from any place and the rest stays doubly linked |
| MsgQ.Queue.Snd | gps/utils/msg_q.c:185-221 | the message becomes the newest one, or is refused with the right error |
| MsgQ.Queue.Rcv | gps/utils/msg_q.c:228-269 | one pass through the wait loop: the oldest message, an error, or a wait |
| MsgQ.Queue.Flush | gps/utils/msg_q.c:276-299 | the queue is emptied and its messages discharged |
| MsgQ.Queue.Unblock | gps/utils/msg_q.c:306-336 | the flag is set once; a second call reports an error |
| MsgQ.SendResult | gps/utils/msg_q.c:193-211 | a send is accepted as the newest message or refused, with the error that says why and without a change |
| MsgQ.UnblockResult | gps/utils/msg_q.c:317-326 | only the first unblock succeeds, and the messages stay |
| MsgQ.NothingMeansWaiting | gps/utils/msg_q.c:256-260 | a receiver that finds the queue empty and not unblocked waits, however it was woken |
| MsgQ.ReturnsIff | gps/utils/msg_q.c:249-262 | a receiver returns if and only if there is a message or the queue is unblocked, with the oldest message or the error for an unblocked queue |
| MsgQ.ErrorOnlyAfterUnblock | gps/utils/msg_q.c:249-262 | in every run a receiver returns the oldest accepted message that is not gone, or somebody has unblocked the queue |
| MsgQ.SendWakesOne | gps/utils/msg_q.c:211-214 | a send wakes at most the one receiver signalled, also when the message could not be stored; a refused one wakes nobody |
| MsgQ.OtherWakeUps | gps/utils/msg_q.c:257-329 | a spurious wake-up wakes that one receiver, unblocking all of them |
| MsgQ.WaitersStay | gps/utils/msg_q.c:257-260 | only its own return ends the call of a waiting receiver |
| MsgQ.FlushTakesAll | gps/utils/msg_q.c:291-292 | a flush takes out every queued message and hands none to a receiver |
| MsgQ.ReverseTaken | gps/utils/linked_list.c:183-198 | taking the list's tail is taking the queue's oldest message |
| MsgQ.QueueIsFifo | gps/utils/msg_q.c:185-299 | in every run the accepted messages are, in this order, those received or flushed once and those still queued |
| MsgQ.ReceiverGetsOldest | gps/utils/msg_q.c:256-262 | a receiver returns the oldest accepted message not yet gone, or takes nothing |
| MsgQ.NoLostSignals | gps/utils/msg_q.c:213-260 | in every run, while a receiver sleeps there is a woken one for each queued message |
| MsgQ.SleepersAreServed | gps/utils/msg_q.c:256-260 | with a message queued some receiver is awake or none waits; after unblocking none sleeps |
| MsgQ.NothingAcceptedAfterUnblock | gps/utils/msg_q.c:204-209 | once unblocked, no message is accepted in any continuation |
| MsgQ.ReceivesAfterUnblockIff | gps/utils/msg_q.c:247-264 | after unblocking, a step hands out a message if and only if a receiver woken from its wait returns while a message is queued |
| MsgQ.ReceptionAfterUnblockIff | gps/utils/msg_q.c:247-264 | after unblocking, some continuation still hands out a message if and only if a message is queued and a woken receiver is on its way |
| MsgQ.AtMostOneEach | gps/utils/msg_q.c:257-262 | and no continuation hands out more messages than there are woken receivers |
| MsgQ.ReceptionAfterUnblockIsReachable | gps/utils/msg_q.c:257-262 | a run in which a waiter receives a message after the queue has been unblocked |
| InputEventReader.RingUntouched | camera/proximity/InputEventReader.cpp:54 | a read into the free slots overwrites no unread event |
| InputEventReader.RingFilled | camera/proximity/InputEventReader.cpp:60-68 | storing past the logical end and copying back extends the unread events by those read |
| InputEventReader.InputEventCircularReader.Fill | camera/proximity/InputEventReader.cpp:50-73 | for every capacity: the events read are appended, nothing is lost on an error or a torn read, and every write is inside the buffer |
| InputEventReader.InputEventCircularReader.ReadEvent | camera/proximity/InputEventReader.cpp:75-80 | the oldest unread event, if any |
| InputEventReader.InputEventCircularReader.Next | camera/proximity/InputEventReader.cpp:82-89 | exactly the oldest event is consumed |
| Binary32.FloatIsNearest | camera/proximity/ProximitySensor.cpp:216-275 | a measured int is stored as a float that no other float is nearer to, and exactly up to 2^24 |
| Binary32.FloatTiesToEven | camera/proximity/ProximitySensor.cpp:216-275 | half way between two floats the one with the even last bit is stored |
| ProximitySensor.ConsumedIsMaximal | camera/proximity/ProximitySensor.cpp:215 | a call stops exactly when everything is consumed or count reports are delivered: not before, and not one event later |
| ProximitySensor.SlotsOfCodes | camera/proximity/ProximitySensor.cpp:216-275 | ABS_DISTANCE other than -1 sets data[0], ABS_HAT0X to ABS_HAT3Y set data[1] to data[8] one by one, and everything else leaves all nine alone |
| ProximitySensor.PendingIsLatest | camera/proximity/ProximitySensor.cpp:216-275 | each of the nine slots, code by code, holds the latest value the stream gave for its code; the number of reports is the number of sync events |
| ProximitySensor.ReportOfSync | camera/proximity/ProximitySensor.cpp:277-285 | each sync event of an enabled sensor gives one report, in order, with its time as seconds * 10^9 + microseconds * 1000 and the latest distance and axis values in their slots |
| ProximitySensor.CallsAreOneFold | camera/proximity/ProximitySensor.cpp:187-312 | over any calls, the reports are those of one pass over the events consumed, and the rest is unread |
| ProximitySensor.ChunkIndependence | camera/proximity/ProximitySensor.cpp:187-312 | two ways of reading the same stream to its end deliver the same reports |
| ProximitySensor.Sensor.Handle | camera/proximity/ProximitySensor.cpp:216-289 | the branches on one event absorb it and store a report exactly for a sync event while enabled |
| ProximitySensor.Sensor.Deliver | camera/proximity/ProximitySensor.cpp:215-291 | the loop consumes a maximal prefix and stores its reports |
| ProximitySensor.Sensor.ReadEvents | camera/proximity/ProximitySensor.cpp:187-312 | a successful call is one step of a session; exactly when it fails and with which error, and then nothing changes |
| PreviewCallback.RowsAt | camera/QCamera2/HAL/QCamera2HWICallbacks.cpp:729-748 | byte x of packed row i is byte x of the row that starts i strides into the plane |
| PreviewCallback.PackedIsImage | camera/QCamera2/HAL/QCamera2HWICallbacks.cpp:729-748 | byte i*width + x is byte i*yStride + x of the frame, byte width*height + i*width + x is byte yStride*yScanline + i*uvStride + x, and there are no other bytes |
| PreviewCallback.CopyRows | camera/QCamera2/HAL/QCamera2HWICallbacks.cpp:729-748 | a copy loop fills exactly its part of the destination with the packed rows, at offsets that are C ints |
| PreviewCallback.RemoveStrides | camera/QCamera2/HAL/QCamera2HWICallbacks.cpp:721-749 | the destination is the image by position, Y rows and then UV rows, with nothing left over |
| PreviewCallback.EqualSizesMeanSameBytes | camera/QCamera2/HAL/QCamera2HWICallbacks.cpp:706-720 | for images of any size, empty ones too: if the two computed sizes agree, the frame buffer already is the packed image |
| PreviewCallback.SendPreview | camera/QCamera2/HAL/QCamera2HWICallbacks.cpp:681-769 | on either path an NV12 or NV21 application gets the image by position, by a copy exactly when the two sizes differ; YV12 gets the frame itself, other formats nothing |
| LocApiBase.AddedIs | gps/core/LocApiBase.cpp:159-169 | adding keeps the table free of duplicates, appends at most its argument, and leaves the others in place |
| LocApiBase.RemovedIs | gps/core/LocApiBase.cpp:171-205 | removing takes out exactly its argument |
| LocApiBase.RemovedAt | gps/core/LocApiBase.cpp:184-194 | the last adapter takes the place of the one removed, and the others stay where they are |
| LocApiBase.UnionIs | gps/core/LocApiBase.cpp:137-144 | an event is asked for exactly when some registered adapter asks for it |
| LocApiBase.TableStaysDistinct | gps/core/LocApiBase.cpp:159-205 | over any run the table holds no adapter twice, by reference, and at most ten |
| LocApiBase.LocApi.GetEvtMask | gps/core/LocApiBase.cpp:137-144 | the union of all masks without the excluded events |
| LocApiBase.LocApi.UpdateEvtMask | gps/core/LocApiBase.cpp:207-210 | the modem API is opened with that mask |
| LocApiBase.Adapter.UpdateEvtMask | gps/core/LocAdapterBase.h:72-79 | a registered adapter changes its own mask, stays in the table, and the modem API is opened with the new union |
| LocApiBase.LocApi.Broadcast | gps/core/LocApiBase.h:48-51 | the loop visits every registered adapter once, in table order |
| LocApiBase.LocApi.AddAdapter | gps/core/LocApiBase.cpp:159-169 | the array stays a hole-free prefix; the modem API is opened exactly when the table changes |
| LocApiBase.LocApi.RemoveAdapter | gps/core/LocApiBase.cpp:171-205 | the adapter is found by reference, whatever its mask is by now; the array stays a hole-free prefix; close exactly when the table becomes empty, otherwise open with the new mask |

## Left out

- BoyerMoore.Search: needs a non-empty pattern, because the tables are filled before the source tests the length, and text and pattern lengths whose sum fits an int.
- TimerProtocol.NoLostWakeUp: assumes a boot clock that runs for less than 2^31 seconds minus the longest delay, as `ranks` needs.
- TimerTheorems.EndingIsFinal: a LocTimer is not deleted between the read of mClient in expire() and the callback; the source does not guard against it.
- TimerExpiry.EarlyCallbackIff: the same, and the callback runs in one step with the stop() before it.
- TimerProtocol.DueTimerWakesPoll: says that a step is enabled, not that the scheduler takes it.
- TimerDelivery.DueTimerIsCalledBack: says that the two threads can get there, not that the scheduler lets them before a client interferes.
- LocThread.SomeoneCanStep: says that a step is enabled, not that the scheduler takes it; prerun() and postrun(), and a second start() of the same LocThread, are left out; a runnable whose run() never returns keeps its thread in the loop.
- LinkedList.List.Add: NULL list handles, and the log output, are not modelled; neither are linked_list_init and linked_list_destroy.
- MsgQ.Queue.Rcv: an error leaves the caller's message pointer unset in the source and yields NULL here.
- ProximitySensor.Sensor.ReadEvents: setInitialState, enable, batch and setDelay are left out.
- PreviewCallback.SendPreview: NULL streams, release callbacks and the notification itself are left out.
- LocApiBase.LocApi.GetEvtMask: a mask is the set of its bits rather than a machine word.
- LocTimer and LocTimerDelegate objects appear as values in the state machine, not as classes: their fields are shared by three threads, which a state machine over steps captures and a sequential class does not.
- The two timer containers always exist: lazy creation and failing timerfd_create are left out, as are the destruction of the poll task and allocation failures.
- clock_gettime, read, epoll_wait, timerfd_settime and the condition variable appear only as parameters or abstract state.
- LocTimerWrapper and the C timer functions, with their narrowing of 64-bit timeouts.
- The mapping of the modem partition and the edify function around the search.
- The other broadcasts, session queries and context creation of the location API: loops of the same two shapes.
- The rest of the camera HAL, and the fingerprint, light, touch, init, bluetooth and radio code.
