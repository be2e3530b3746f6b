# A verified model of the uevent library and what it stands on

This project models, in Dafny, the parts of the repository whose correctness is hard to see from any one
function: the worker pool, the reference-counted events and timers of the event loop, the two timer heaps,
the linked hash map with its hash functions, and two byte formats.

| file | models |
|---|---|
| `Common.dfy` | an optional value, bytes, machine words and powers of two, shared by the others |
| `WorkerPool.dfy` | `uevent/uevent_worker.c` as a transition system, one step per lock, unlock, wait, signal, broadcast or atomic operation, with any number of workers, inserters, waiters and stopping threads; spurious wakeups included |
| `WorkerPoolInvariants.dfy`, `WorkerPoolIdle.dfy` | the parts of its inductive invariant: mutex ownership, counters, wakeups, idle broadcasts, where each task is |
| `WorkerPoolTheorems.dfy` | what the invariant gives over all interleavings |
| `WorkerPoolCalls.dfy` | what each call and each task has gone through when it ends, over all interleavings |
| `Refcount.dfy` | one event slot's reference count, one step per atomic operation, with the references as tokens that threads hold |
| `EventBase.dfy`, `EventSteps.dfy` | the event base as a value; each API call and each turn of the expiry loop is one step; what every run keeps |
| `EventLoop.dfy` | the same base updated in place: arrays for the slots and the free stack, every method equal to its step |
| `TimerPass.dfy` | one pass of the expiry loop over the timer heap, and how often each timer expires in it |
| `HeapOrder.dfy` | heap order on sequences of keys, for both arities |
| `ArrayHeap.dfy` | `minheap/minheap.c`: the 4-ary array heap with back-indices in the nodes |
| `LinkedHeap.dfy` | `minheap/heap-inl.h`: the binary heap linked by pointers |
| `HeapRuns.dfy` | both heaps against one multiset of keys |
| `Hashing.dfy` | the fast hash forms against the simple ones |
| `AssocArray.dfy` | `hashtable-linux-kernel/assoc_array.c`: hash chains and insertion list over the same entries, by their pointers |
| `NetlinkAttr.dfy` | the attribute writer and parser of `netlink_getlink/libnl_getlink.c` (layout: section 2.2 of RFC 3549) |
| `TzFile.dfy` | the TZif parser of `timeutil/timeutil.c` against an encoder (sections 3.1 to 3.3 of RFC 8536) |

`dafny verify dfyconfig.toml` checks everything.

Conventions. Atomics are sequentially consistent. The clock, epoll's answers and the answer of the modification
lock are parameters of the steps that ask them. Machine integers wrap where the source's do and that is reachable;
where a bound is needed instead, the contract says so. A ghost field or ghost parameter carries what a proof needs
to name and the program does not store, such as the insertion order of the map's entries.

## Where the code and its purpose part

Each of these is proved in the form stated; the code is modelled as it is.

- `uevent_try_ref` counts up, looks at `pending_free`, and on finding it set counts down again without testing for
  zero (uevent/uevent.c:1202, 1208). When its transient reference is the last one, the slot is never destroyed and
  never free again. `Refcount.LostWhen` says exactly when, `Refcount.SlotLost` gives an interleaving, and
  `Refcount.LostForGood` says it is for ever. Where each API call is one step it cannot happen
  (`EventSteps.FreedComesBack`).
- A turn of the expiry loop drops the timer's reference and goes on if that was not the last one (uevent/uevent.c:895);
  re-arming then counts up without a test (uevent/uevent.c:839, 693) though the loop holds no reference. When the last
  one goes in between, that count-up meets a count of zero. Over whole runs the count is the number of references, and
  all that follows from it holds, if and only if no count-up meets zero (`Refcount.InvIff`); `Refcount.RefFromZero` is a
  run in which one does. Where each turn is one step it cannot happen (`EventSteps.ExpireAchieves`).
- `uevent_handle_epoll` dereferences the event of every descriptor that polled, without asking whether it still lives
  (uevent/uevent.c:970-974). A registered event freed between the poll and its turn is still there if and only if a
  task or holder keeps it (`EventSteps.PolledThenFreed`); `EventSteps.TurnFindsNone` is a run after which the turn finds
  none.
- `uevent_worker_pool_insert` tests the event's flag and then sets it, in two atomic operations. An event gets a second
  task if and only if some inserter sets a flag that is set already (`WorkerPoolTheorems.OneTaskIffNoneLate`). That
  never happens with at most one inserter per event at a time (`WorkerPoolTheorems.OnePerEventNoneLate`) and can
  with two (`WorkerPoolTheorems.TwoInsertersRace`).
- `mh_insert` refuses an update, not only an insertion, when the heap is full; the node's key has then changed
  without being sifted. `HeapOrder.OverwrittenInOrderIff` says when the order survives that, `ArrayHeap.RefusedUpdate`
  shows a heap in which it does not. In the event loop the heap is never full (`EventSteps.InsertNeverRefused`).
- Back-indices are 16 bits wide and offset by one: they are right exactly below position 65535
  (`ArrayHeap.StoredIndexFaithful`), so the array heap is right while it holds at most 65535 nodes, a bound that nothing
  in the source enforces.
- Registering the wakeup event takes no reference but removing it drops one. Its removal destroys it if and only if it
  is registered and no task or holder keeps it (`EventSteps.WakeupDestroyedIff`); at deinit it is thus destroyed one
  `uevent_put` early, and the last `uevent_put` does nothing (`EventSteps.WakeupFreed`).
- `addattr_l` stores the attribute's length in 16 bits: it reads back exactly when the payload has at most 65531 bytes
  (`NetlinkAttr.ReadsBackIff`). It checks the new length in 32 bits: the check admits an append longer than `maxlen` if
  and only if the true length reaches 2^32 and its remainder is at most `maxlen` (`NetlinkAttr.AdmitsIff`).
- `calc_bkt` takes the low bits of a hash whose low bits the multiplication does not mix: in a table of up to 65536
  buckets, and in no larger one, every key's bucket is the plain sum of its blocks modulo the number of buckets
  (`Hashing.BucketIsSumIff`).
- `parse_tzdata` adds up the size of a block in 32 bits. When the sum wraps, the loop may read past the size of the file.
  `TzFile.UnaffectedIff` says exactly when no byte past the size can decide what a block gives: the block is refused, or
  the times and types that the loop may read end below the size. A sum that does not wrap is enough
  (`TzFile.NoWrapReadsBelow`). `TzFile.BeyondIrrelevant` carries this to the whole parse and `TzFile.BeyondCanMatter`
  gives two files alike below their size that parse differently.
- The variable `prev` of `uevent_handle_timers` (uevent/uevent.c:870, 877) is never assigned, so the check on it never
  fires and has no counterpart here.

## Model

| member | source | states |
|---|---|---|
| WorkerPoolTheorems.InvAlways | uevent/uevent_worker.c:55-440 | the whole invariant (mutex ownership, counters, wakeups, idle broadcasts, place of every task) holds after every prefix of every interleaving |
| WorkerPoolTheorems.InvStep | uevent/uevent_worker.c:55-440 | every step of every thread, and every entry of a new thread, keeps the whole invariant |
| WorkerPoolTheorems.NoLostWakeup | uevent/uevent_worker.c:55-85 | while a worker sleeps on task_cond, the queue is no longer than the workers awake in wait_and_pop_task plus the one insertion about to signal; so a queued task never meets only sleepers |
| WorkerPoolTheorems.NoSleepAfterStop | uevent/uevent_worker.c:298-308 | after a stop or destroy has broadcast, no worker sleeps on task_cond, then or in any later state |
| WorkerPoolTheorems.NoLostIdle | uevent/uevent_worker.c:373-406 | while the pool is idle and a thread sleeps in wait_for_idle or is bound to on a stale answer, some thread is between making the pool idle and its idle_cond broadcast |
| WorkerPoolTheorems.IdleMeansSettled | uevent/uevent_worker.c:373-388 | when is_idle has answered true, every task inserted before its read of the queue has been finalized or discarded |
| WorkerPoolTheorems.SettledOnce | uevent/uevent_worker.c:119-135 | a task that a step newly settles was queued or in one worker's hands before and is nowhere after |
| WorkerPoolTheorems.SettledFirst | uevent/uevent_worker.c:119-135 | whoever finalizes or discards a task is the first to do so: the task was not settled before, and exactly it is after |
| WorkerPoolTheorems.SettledForGood | uevent/uevent_worker.c:119-135 | in every later state a settled task is settled, neither queued nor held, and no later step settles it again |
| WorkerPoolTheorems.DestroyedMeansSettled | uevent/uevent_worker.c:350-366 | once destroy has emptied the queue, the settled tasks are exactly the tasks ever inserted |
| WorkerPoolTheorems.WorkersCounted | uevent/uevent_worker.c:169-207 | total_workers is the number of live workers plus those being created, and never passes eight times the core workers |
| WorkerPoolTheorems.PollEndsAlone | uevent/uevent_worker.c:334-342 | when destroy's poll finds total_workers at zero, no worker is left nor being created |
| WorkerPoolTheorems.OneTaskIffNoneLate | uevent/uevent_worker.c:262-296 | over any run with any number of inserters, no event ever has two tasks if and only if no inserter sets a flag that is set already |
| WorkerPoolIdle.ExclusiveStep | uevent/uevent_worker.c:268-281 | the same for one step: it gives some event a second task if and only if it is such a late store |
| WorkerPoolTheorems.OnePerEventNoneLate | uevent/uevent_worker.c:262-296 | with at most one inserter per event at a time, and any number for different events, no store is late |
| WorkerPoolTheorems.OneOutstandingTask | uevent/uevent_worker.c:262-296 | as long as no store was late, is_in_worker_pool is set exactly while a task of the event is outstanding, the event has at most one task, and at most one worker is in its callback |
| WorkerPoolTheorems.TwoInsertersRace | uevent/uevent_worker.c:262-296 | an interleaving of two inserters after which one event has two queued tasks |
| WorkerPoolTheorems.NoDeadlock | uevent/uevent_worker.c:55-440 | while some thread neither waits on a condition nor, in destroy, for others to be gone, some such thread can take a step |
| WorkerPoolTheorems.AllWaitMeansNoWorker | uevent/uevent_worker.c:390-406 | when every thread waits and one sleeps in wait_for_idle, a task is queued and no worker exists |
| WorkerPoolTheorems.NoStall | uevent/uevent_worker.c:390-406 | while the pool runs and a thread sleeps in wait_for_idle, some thread that does not wait can take a step |
| WorkerPoolCalls.CallbackRan | uevent/uevent_worker.c:88-135 | a task that a worker settles has been in its callback in that worker's hands, unless that worker was refused a reference to the event or found it being freed |
| WorkerPoolCalls.CallbackOnce | uevent/uevent_worker.c:88-117 | over any run no task's callback is entered twice, by one worker or by two |
| WorkerPoolCalls.StopReturns | uevent/uevent_worker.c:408-440 | when stop returns it has, in this order, cleared running, woken all workers and all waiters, then held task_mutex with the queue empty and every task inserted so far settled or in a worker's hands, then woken all waiters again |
| WorkerPoolCalls.DestroyReturns | uevent/uevent_worker.c:313-371 | when destroy returns it has cleared running and three times woken all workers and all waiters; nobody else is left, and every task ever inserted is settled |
| WorkerPoolCalls.JoinedMeansGone | uevent/uevent_worker.c:334-337 | from the join on no core worker exists |
| WorkerPoolCalls.InsertQueues | uevent/uevent_worker.c:262-296 | an insertion that goes past its test has found the flag clear, set it, appended one task of its event, and then signalled |
| WorkerPoolCalls.InsertRefuses | uevent/uevent_worker.c:268-277 | any other insertion changes nothing, and gives up for a set flag or for want of memory |
| WorkerPoolCalls.WaitReturns | uevent/uevent_worker.c:390-406 | when wait_for_idle returns, every task inserted before the call has been finalized or discarded |
| WorkerPoolCalls.NotIdleForReason | uevent/uevent_worker.c:373-388 | is_idle answers no only if during the call a task was queued or active |
| WorkerPoolCalls.StopDrivesOut | uevent/uevent_worker.c:55-207 | a worker of a stopped pool is gone after fewer than 23 steps of its own and two for every compare-exchange of its own that fails |
| WorkerPoolCalls.ExtraTakesHundred | uevent/uevent_worker.c:154-167 | an extra worker takes at most 100 tasks, and leaves a running pool only after just as many |
| WorkerPoolCalls.CoreLeavesStopped | uevent/uevent_worker.c:138-152 | a core worker leaves only a stopped pool |
| WorkerPoolCalls.NullMeansStopped | uevent/uevent_worker.c:55-67 | a worker gets no task from wait_and_pop_task only in a stopped pool |
| WorkerPoolCalls.AskedWhenBehind | uevent/uevent_worker.c:69-75 | wait_and_pop_task asks for an extra worker only after finding, under task_mutex, more tasks queued than workers |
| WorkerPoolCalls.BroadcastForLast | uevent/uevent_worker.c:129-134 | a worker broadcasts idle_cond only when it has itself taken active_tasks from one to zero |
| WorkerPoolIdle.AccountedKept | uevent/uevent_worker.c:262-296 | whatever a step does to a task (mark, push, pop, finalize, discard), each inserted task stays in exactly one place and none is lost |
| Refcount.InvIff | uevent/uevent.c:1167-1247 | over any interleaving of atomic operations, the reference-token invariant holds in every state up to one if and only if no plain uevent_ref up to it counted up from zero |
| Refcount.InvAlways | uevent/uevent.c:1167-1247 | the invariant holds in every state of a run in which no plain uevent_ref has counted up from zero; issuing a slot is three steps and uevent_ref asks for no reference of its own |
| Refcount.RefFromZero | uevent/uevent.c:829-842 | a run in which the last reference goes between the expiry loop's put and its count-up, which breaks the invariant |
| Refcount.EventMissing | uevent/uevent.c:1189-1214 | a run in which uevent_try_ref has counted up before the issuing thread stored the event, finds NULL and goes to its undo |
| Refcount.CountIsReferences | uevent/uevent.c:1173-1247 | in every such run the count is the number of outstanding references, try_ref's transient one included; counting down starts above zero |
| Refcount.ZeroIsAbsorbing | uevent/uevent.c:1173-1187 | in every such run only the store of the count for a new issue leads away from zero |
| Refcount.PendingSinceLinked | uevent/uevent.c:655-672 | a live event is pending free only through a uevent_free since it was put into the slot |
| Refcount.TryAnswers | uevent/uevent.c:1189-1214 | uevent_try_ref gives a reference only for an event it found in the slot and not pending free, and refuses, leaving no reference, only if during the call the count was zero, or there was no event, or it was pending free |
| Refcount.DestroyedOnce | uevent/uevent.c:200-216 | in every such run destruction is by one thread, once per issue, with no reference outstanding |
| Refcount.DestroyedUnlessUndone | uevent/uevent.c:1229-1247 | in every such run, with no reference left and the slot not free, some thread is issuing or destroying it if and only if it is not lost |
| Refcount.LostWhen | uevent/uevent.c:1189-1214 | a step loses the slot if and only if it is try_ref's undoing of the only reference |
| Refcount.LostForGood | uevent/uevent.c:1189-1214 | in every such run a lost slot is never destroyed, free or issued again |
| Refcount.SlotLost | uevent/uevent.c:1189-1214 | an interleaving of uevent_free's steps with uevent_try_ref that loses the slot |
| EventSteps.GoodAlways | uevent/uevent.c:283-1247 | in every state of every run of API calls and loop turns: counts, flags, heap, fd set, free stack and counters agree |
| EventSteps.GoodStep | uevent/uevent.c:283-1247 | every enabled step keeps that agreement |
| EventSteps.CountAccounted | uevent/uevent.c:1167-1247 | a live user event's count is 1 unless freed, plus 1 each for an armed timer, a registered descriptor and an outstanding task, plus the handles held; freed events are neither armed nor registered |
| EventSteps.FreedComesBack | uevent/uevent.c:1088-1105 | a freed event without task and handles has its slot back on the free stack |
| EventSteps.FreeStackExact | uevent/uevent.c:283-353 | the free stack holds exactly the slots of count zero, each once; free plus live is all; it never overflows |
| EventSteps.InsertNeverRefused | uevent/uevent.c:674-706 | the timer heap stays below max_events, so mh_insert's ignored result is never a refusal |
| EventSteps.CountersExact | uevent/uevent.c:276-280 | num_active_timers and num_active_fd are the numbers of armed and of registered user events |
| EventSteps.StopsOnlyWhenIdle | uevent/uevent.c:1030-1062 | the loop sees no events if and only if none is armed and no user descriptor registered |
| EventSteps.TimeoutRight | uevent/uevent.c:916-945 | the epoll timeout is in 0..60000, sleeps past no armed deadline, and below the cap is not shorter than the least deadline asks |
| EventSteps.WakeupDestroyedIff | uevent/uevent.c:754-768 | removing the wakeup event destroys it under its owner if and only if it is registered and no task or holder keeps it |
| EventSteps.WakeupFreed | uevent/uevent.c:1088-1105 | freeing it when registered: its slot goes back once, whether the last reference goes with the removal or after |
| EventSteps.CreateReuses | uevent/uevent.c:322-353 | the slot whose last reference was dropped most recently is the next one used, with one reference and none of its old flags |
| EventSteps.AddArms | uevent/uevent.c:674-706 | an add that arms sets the deadline to now plus the timeout, or to now itself for a timeout of zero or less |
| EventSteps.SetTimeoutAchieves | uevent/uevent.c:457-463 | a live event has the new timeout and nothing else changes |
| EventSteps.NewAchieves | uevent/uevent.c:421-455 | a new base is stopped, with nothing armed and every slot free but the wakeup event's, which is registered for good if epoll agreed |
| EventSteps.PutTells | uevent/uevent.c:1235-1247 | uevent_put says the event is gone exactly when its last reference went, and then the slot is on top of the stack |
| EventSteps.HoldThenRelease | uevent/uevent.c:1189-1247 | a reference taken and put again leaves the base as it was |
| EventSteps.AddAchieves | uevent/uevent.c:708-752 | when uevent_add refuses and with what status; otherwise what is registered and armed, and for which deadline; one reference per registration however often added |
| EventSteps.DelGood | uevent/uevent.c:792-827 | afterwards neither registered nor armed, alive, otherwise unchanged, all counts right |
| EventSteps.DelAchieves | uevent/uevent.c:792-827 | no other event changes; a dead or freed event is reported and left alone |
| EventSteps.FreeGood | uevent/uevent.c:1088-1105 | afterwards the event is alive exactly if a task or a holder keeps it, and is then pending_free, disarmed, unregistered |
| EventSteps.FreeAchieves | uevent/uevent.c:1088-1105 | no other event changes; a second uevent_free does nothing |
| EventSteps.ExpireAchieves | uevent/uevent.c:829-914 | one turn re-arms a persistent timer one timeout, or one millisecond if that is less, after its own deadline, disarms any other, queues a task unless one is outstanding, and touches no other event; after a stop in mid-pass it only disarms |
| EventSteps.FireAchieves | uevent/uevent.c:966-982 | one descriptor that polled: what is queued and, when not persistent, removed |
| EventSteps.PolledThenFreed | uevent/uevent.c:966-982 | for a registered user event whose turn is due, a uevent_free before the turn leaves an event to find if and only if a task or holder keeps it |
| EventSteps.TurnFindsNone | uevent/uevent.c:966-982 | a run of create, add and free after which the polled descriptor's event is gone |
| EventSteps.FinishAchieves | uevent/uevent_worker.c:119-135 | a task that ends clears its event's flag and gives back its reference; the last reference returns the slot to the top of the stack |
| EventSteps.LoopBreakAchieves | uevent/uevent.c:1064-1086 | afterwards the loop is stopped and no timer armed, each having given back one reference; every live event lives on and nothing else changes |
| EventSteps.StartThenBreak | uevent/uevent.c:1064-1086 | starting makes the loop run and changes nothing else; breaking then stops and disarms it |
| EventSteps.UnarmAllGood | uevent/uevent.c:1064-1086 | loopbreak's drain leaves no timer armed, each giving back one reference, nothing else changed |
| EventSteps.UnarmedFully | uevent/uevent.c:1064-1086 | the result does not depend on the order in which the heap hands the timers out |
| EventBase.TryRefGood | uevent/uevent.c:1189-1214 | a reference is given exactly for a live event that is not freed |
| EventBase.ReleaseGood | uevent/uevent.c:1235-1247 | dropping a reference keeps the agreement; the event goes exactly when it was the last |
| EventBase.HeapNeverFull | uevent/uevent.c:674-706 | since the wakeup event's slot is never armed the heap has room |
| EventLoop.Loop.constructor | uevent/uevent.c:421-455 | the base built in place is the initial base: stack 0..n-1 with the wakeup event on its top slot |
| EventLoop.Loop.CreateEvent | uevent/uevent.c:322-335 | pops the free stack and fills the slot, or finds none: the creation step |
| EventLoop.Loop.PutMethod | uevent/uevent.c:1235-1247 | counts down; at zero resets the slot and pushes its index: the put step |
| EventLoop.Loop.TryRefMethod | uevent/uevent.c:1189-1214 | the try_ref step, with its answer |
| EventLoop.Loop.InsertFdMethod | uevent/uevent.c:589-612 | the registration step, with epoll's refusal |
| EventLoop.Loop.InsertTimerMethod | uevent/uevent.c:674-706 | the arming step |
| EventLoop.Loop.RemoveFdMethod | uevent/uevent.c:754-768 | the unregistering step |
| EventLoop.Loop.RemoveTimerMethod | uevent/uevent.c:770-790 | the disarming step |
| EventLoop.Loop.AddMethod | uevent/uevent.c:732-752 | uevent_add in place is the add step, and keeps the agreement |
| EventLoop.Loop.DelMethod | uevent/uevent.c:792-827 | uevent_del in place is the del step, and keeps the agreement |
| EventLoop.Loop.FreeMethod | uevent/uevent.c:1088-1105 | uevent_free in place is the free step, and keeps the agreement |
| EventLoop.Loop.DispatchMethod | uevent/uevent.c:232-250 | the hand-over to the pool in place is the dispatch step |
| EventLoop.Loop.FinishMethod | uevent/uevent_worker.c:119-135 | the end of a task in place is the finish step |
| EventLoop.Loop.ExpireMethod | uevent/uevent.c:849-914 | one turn in place is the expiry step |
| EventLoop.Loop.HandleTimers | uevent/uevent.c:849-914 | nothing when stopped; else an expiry pass of at most 500 turns, and below 500 no timer is due afterwards |
| EventLoop.Loop.LoopBreakMethod | uevent/uevent.c:1064-1086 | loopbreak in place stops the loop and disarms every timer |
| EventLoop.PeriodsAre | uevent/uevent_internal.h:38-40 | the timers that re-arm are exactly the live persistent ones, each by its timeout, or by one millisecond if that is less |
| EventLoop.PassIsPass | uevent/uevent.c:849-914 | a pass over the base is a pass over its timer heap with the periods fixed at its start |
| TimerPass.InOrder | uevent/uevent.c:849-914 | expiries are in nondecreasing deadline order, none with a deadline after now |
| TimerPass.ExpiresExactly | uevent/uevent.c:829-841 | in a pass that ended of itself a persistent timer with deadline k and period t expires floor((now-k)/t)+1 times and is left at its first deadline after now; a due one-shot once; others not at all |
| TimerPass.BacklogFalls | uevent/uevent_internal.h:38-40 | each turn lowers the summed overdue time, as every period is at least 1; so the loop ends without its budget |
| HeapOrder.UpStep | minheap/minheap.c:124-148 | exchanging a slot with a larger parent leaves at most the parent's own pair out of order |
| HeapOrder.DownStep | minheap/minheap.c:150-199 | exchanging a slot with its least, smaller child moves the trouble to the child |
| HeapOrder.Overwrite | minheap/minheap.c:202-223 | any one key of an ordered heap may change: order is broken at most around that slot |
| HeapOrder.OverwrittenInOrderIff | minheap/minheap.c:202-206 | a changed key that is not sifted keeps the order if and only if it fits between its parent and its children |
| HeapOrder.RootIsLeast | minheap/minheap.c:261-266 | in an ordered heap no key is below the root's |
| ArrayHeap.StoredIndexFaithful | minheap/minheap_internal.h:14-32 | the stored back-index gives the position back if and only if it is below 65535 |
| ArrayHeap.MinHeap.SiftUp | minheap/minheap.c:124-148 | from a heap in order except around idx: same nodes, right back-indices, and in order except perhaps downward from where idx's node came to rest |
| ArrayHeap.MinHeap.SiftDown | minheap/minheap.c:150-199 | restores the order with the same nodes; on a heap in order it moves nothing, so the second sift is harmless |
| ArrayHeap.MinHeap.Insert | minheap/minheap.c:202-223 | a new node is sifted up from the last slot, which alone restores the order; a changed key is sifted up and then down; the same nodes, plus the new one; a full heap refuses both and stays as it is |
| ArrayHeap.RefusedUpdate | minheap/minheap.c:202-206 | a full heap whose update is refused and whose root is then no least node |
| ArrayHeap.MinHeap.GetMin | minheap/minheap.c:261-266 | a node with a least key, null exactly when empty |
| ArrayHeap.MinHeap.ExtractMin | minheap/minheap.c:225-252 | takes out a node with a least key, clears its back-index, keeps the others in order |
| ArrayHeap.MinHeap.Delete | minheap/minheap.c:276-302 | takes out any member, clears its back-index, keeps the others in order; a node not in the heap changes nothing |
| LinkedHeap.PathTo | minheap/heap-inl.h:106-147 | the bits of the count, reversed into a 32-bit path, lead from the root to exactly that place in level order |
| LinkedHeap.Heap.Follow | minheap/heap-inl.h:106-147 | following the path by pointers ends at the link that holds, or is to hold, the node of that place |
| LinkedHeap.Heap.NodeSwap | minheap/heap-inl.h:72-103 | exchanges parent and child in the tree and nothing else: all links of the complete tree stay inverse to each other |
| LinkedHeap.Heap.Attach | minheap/heap-inl.h:106-147 | the new node becomes the last place of the complete tree |
| LinkedHeap.Heap.Insert | minheap/heap-inl.h:106-147 | one node more, complete tree, heap order, for any strict weak ordering |
| LinkedHeap.Heap.Detach | minheap/heap-inl.h:150-214 | unlinks exactly the node of the last place |
| LinkedHeap.Heap.Replace | minheap/heap-inl.h:195-214 | the unlinked node takes another's place, all links with it |
| LinkedHeap.Heap.Remove | minheap/heap-inl.h:150-236 | any node can be removed: the others remain, complete tree, heap order |
| LinkedHeap.Heap.Min | minheap/heap-inl.h:67-69 | the root, a node with a least key, null exactly when empty |
| LinkedHeap.Heap.Dequeue | minheap/heap-inl.h:239-241 | removes that node |
| HeapRuns.RunArray | minheap/minheap.c:202-302 | any run, however long, of put, take, drop and key change on an array heap hands out what a multiset of keys would, the puts that find it full doing nothing |
| HeapRuns.RunLinked | minheap/heap-inl.h:106-241 | any run, however long, on a pointer heap whose count stays in 32 bits hands out what a multiset of keys would |
| HeapRuns.KeptWhole | minheap/minheap.c:202-206 | a run whose puts never find the array heap full is done whole, so on it both heaps hand out the same |
| HeapRuns.ArrayMove | minheap/minheap.c:202-223 | changing a live node's key in place and inserting it again replaces that key in the bag of keys |
| HeapRuns.Drain | minheap/minheap.c:225-252 | extracting until empty yields a sorted permutation of the contents |
| HeapRuns.ArrayTake | minheap/minheap.c:225-252 | extraction hands out the least key of the bag, or nothing from an empty one, and takes out exactly that key |
| Hashing.Mix64 | hashtable-linux-kernel/hash.h:38-63 | the shift-and-add mixing is multiplication by 0x9e37fffffffc0001 modulo 2^64, for every input |
| Hashing.Hash64 | hashtable-linux-kernel/hash.h:38-63 | that product divided by two to the power of 64 less the bits asked for |
| Hashing.ShiftedIs | hashtable-linux-kernel/hash.h:62 | shifting right by k divides by two to the k |
| Hashing.Hash32 | hashtable-linux-kernel/hash.h:65-72 | the product with 0x9e370001 in 32 bits, divided likewise |
| Hashing.TurnWraps | hashtable-linux-kernel/hash.h:264-271 | wrapping after each shift and addition keeps what one wrap of 33*h+c keeps |
| Hashing.HashTime33 | hashtable-linux-kernel/hash.h:259-287 | the unrolled loop with its fall-through tail is the plain fold h*33+c in 32 bits, for every length |
| Hashing.HashStr | hashtable-linux-kernel/hash.h:304-331 | the block loop sums every byte weighed by its place in its block, modulo 2^64, then hashes the sum |
| Hashing.MaskIsRemainder | hashtable-linux-kernel/hashtable.h:78-80 | calc_bkt's mask is the remainder modulo the number of buckets |
| Hashing.BucketIsSumIff | hashtable-linux-kernel/hashtable.h:78-80 | every key's bucket is its block sum modulo the number of buckets if and only if there are at most 65536 of them |
| AssocArray.AssocArray.constructor | hashtable-linux-kernel/assoc_array.c:68-96 | every bucket and the list are empty |
| AssocArray.AssocArray.ListAddTail | hashtable-linux-kernel/list.h:38-78 | the entry becomes the last of the list, all links inverse to each other |
| AssocArray.AssocArray.ListDel | hashtable-linux-kernel/list.h:87-110 | exactly that entry leaves the list |
| AssocArray.AssocArray.ChainAdd | hashtable-linux-kernel/list.h:650-658 | the entry becomes the first of its bucket's chain, no other bucket changes |
| AssocArray.AssocArray.ChainDel | hashtable-linux-kernel/list.h:625-640 | exactly that entry leaves its chain, through whichever pointer points to it |
| AssocArray.ChainFinds | hashtable-linux-kernel/assoc_array.c:98-116 | the first match in the chain of a key's bucket is the newest entry with that key in the whole array, and there is none if and only if the array has none |
| AssocArray.ChainWithout | hashtable-linux-kernel/assoc_array.c:141-152 | an entry's place in the list fixes its place in its chain, and removing it from both keeps them in step |
| AssocArray.AssocArray.Get | hashtable-linux-kernel/assoc_array.c:98-116 | returns the newest entry with the key, null exactly when there is none |
| AssocArray.AssocArray.Add | hashtable-linux-kernel/assoc_array.c:118-139 | one entry more at the tail of the list and the head of its chain; table and list still hold the same entries |
| AssocArray.AssocArray.Del | hashtable-linux-kernel/assoc_array.c:141-152 | removes the newest entry with the key from both, or answers 1 and changes nothing |
| AssocArray.AssocArray.AddReplace | hashtable-linux-kernel/assoc_array.c:154-159 | the contents without the newest entry of the key, then the new entry at the tail |
| AssocArray.AssocArray.GetEnd | hashtable-linux-kernel/assoc_array.c:173-188 | the oldest or newest entry, null exactly when empty |
| AssocArray.AssocArray.DelEnd | hashtable-linux-kernel/assoc_array.c:190-217 | removes the oldest or newest entry from both, -1 exactly when empty |
| AssocArray.AssocArray.CollisionPercent | hashtable-linux-kernel/assoc_array.c:219-242 | the percentage of entries beyond one per bucket in use |
| AssocArray.ExcessIsUnused | hashtable-linux-kernel/assoc_array.c:219-242 | the per-bucket excesses add up to entries less buckets in use |
| AssocArray.DelUndoesAdd | hashtable-linux-kernel/assoc_array.c:118-152 | deleting a key right after adding it restores the contents |
| AssocArray.OthersKept | hashtable-linux-kernel/assoc_array.c:118-152 | adding or deleting a key changes no other key's value |
| AssocArray.RunIsLastPuts | hashtable-linux-kernel/assoc_array.c:154-159 | any run of add_replace and del leaves, without repeated keys, the last put of each key not deleted since, oldest first |
| AssocArray.Replay | hashtable-linux-kernel/assoc_array.c:98-159 | the linked structure over such a run holds exactly that |
| NetlinkAttr.AttributesInside | netlink_getlink/libnl_getlink.c:61-72 | on any bytes, every attribute the parser meets lies wholly inside the bytes given and after the one before |
| NetlinkAttr.AttributesInRow | netlink_getlink/libnl_getlink.c:61-72 | on any bytes, the parser meets whole attributes one right behind the other until none follows, and the deficit is what remains |
| NetlinkAttr.FirstInIsFirst | netlink_getlink/libnl_getlink.c:61-72 | what the loop keeps for a type is the first attribute of that type in the list met |
| NetlinkAttr.ParseRtattr | netlink_getlink/libnl_getlink.c:61-78 | ends on any bytes; fills each empty entry 1..max with the first attribute of that type, which lies wholly inside the bytes, leaves the rest of the table alone, and is left with the deficit it logs |
| NetlinkAttr.ParseNlbuf | netlink_getlink/libnl_getlink.c:80-97 | -1 for a message too short for its headers, else its length, the attributes behind the headers parsed |
| NetlinkAttr.AddAttrL | netlink_getlink/libnl_getlink.c:99-115 | -1 and nothing written exactly when the aligned lengths, added in 32 bits, pass maxlen; else the attribute written at the aligned old length and then the sum stored over the length, even where the two overlap |
| NetlinkAttr.AdmitsIff | netlink_getlink/libnl_getlink.c:104-107 | the check admits an append that does not fit if and only if the sum of the aligned lengths reaches 2^32 and its remainder is at most maxlen |
| NetlinkAttr.AfterAddIs | netlink_getlink/libnl_getlink.c:99-115 | the new length, type, payload and 16-bit length read back; every other byte, padding included, is unchanged |
| NetlinkAttr.ReadsBackIff | netlink_getlink/libnl_getlink.c:109-112 | an attribute parses back to its payload if and only if that has at most 65531 bytes |
| NetlinkAttr.RoundTrip | netlink_getlink/libnl_getlink.c:61-115 | parsing any appended sequence meets exactly its attributes, in order, with their types and payloads, and nothing left over |
| NetlinkAttr.Delivered | netlink_getlink/libnl_getlink.c:61-115 | the table then holds, under each type, the first payload appended with it, or nothing |
| NetlinkAttr.DistinctFirst | netlink_getlink/libnl_getlink.c:61-72 | with distinct types every attribute is the first of its type |
| NetlinkAttr.WriteAndParse | netlink_getlink/libnl_getlink.c:80-115 | the same end to end, through the buffer |
| NetlinkAttr.FillFromRta | netlink_getlink/libnl_getlink.c:244-258 | the payload cut to the destination, zeros behind it, -1 without change for no attribute, no room or a bad length |
| TzFile.Rd32sPut32s | timeutil/timeutil.c:49-57 | every 32-bit integer reads back from its big-endian bytes |
| TzFile.Rd64sPut64s | timeutil/timeutil.c:58-67 | every 64-bit integer reads back, through the sign arithmetic of the code |
| TzFile.LastIsLast | timeutil/timeutil.c:133-151 | behind the transition kept for each kind no later usable one stands |
| TzFile.Scan | timeutil/timeutil.c:125-158 | the loop gathers the offset and year-day of the last usable standard and daylight transitions |
| TzFile.ParseTzdata | timeutil/timeutil.c:89-182 | -1 for exactly the inputs without a size, magic, counts and block that fit, with sums in 32 bits; else the zone, overruled by the footer |
| TzFile.RefusedIff | timeutil/timeutil.c:89-123 | the parser refuses exactly the inputs too short for a header, without either magic, with no transitions or types in either header, or whose second block does not fit, with sums in 32 bits |
| TzFile.UnaffectedIff | timeutil/timeutil.c:118-158 | for every block, counts and size: no two memories alike below the size give different results if and only if the block is refused or the times and types the loop may read end below the size |
| TzFile.NoWrapReadsBelow | timeutil/timeutil.c:118-123 | a block whose size does not wrap meets that condition |
| TzFile.BeyondIrrelevant | timeutil/timeutil.c:89-182 | when the second block meets it, no byte past the size has any influence on the result of the whole parse |
| TzFile.BeyondCanMatter | timeutil/timeutil.c:118-123 | two memories alike in all 107 bytes given, whose second header's size wraps, and of which one has daylight time and the other has not |
| TzFile.RoundTrip | timeutil/timeutil.c:89-182 | on every well-formed version 2+ file the parser skips exactly the first block and returns the last standard and daylight offsets and year-days and the footer text cut to 127 bytes |
| TzFile.EncodedMeans | timeutil/timeutil.c:125-182 | on every well-formed file: standard is the offset of the last usable standard transition and daylight that of the last daylight one, summer and winter are their year-days; without a daylight one daylight equals standard and both days are -1; has_dst tells whether one exists, unless a footer text, kept to 127 bytes, overrules it |
| TzFile.FooterRead | timeutil/timeutil.c:162-180 | the footer text is read up to its newline or the end, cut to 127 bytes |
| TzFile.CommaMeansDst | timeutil/timeutil.c:173-178 | has_dst is set by a footer text if and only if a comma stands in the part kept before its first NUL |
| TzFile.LoadEncoded | timeutil/timeutil.c:89-182 | parsing the encoding of a file returns what the file says, whatever lies behind it |

## Left out

- epoll, eventfd, threads and clocks themselves: an fd set, mutex and condition semantics and a time input stand for them.
- The `wakeup_fd_written` flag and the draining of the eventfd: they depend on the kernel's edge-triggered readiness.
- Weak memory order of atomics.
- Callbacks run inline, without a worker pool: they are API steps taken while a handle is held.
- Failed allocations, null pointers passed in, logging.
- Creation of the pool.
- WorkerPoolTheorems.InvAlways: destroy stops polling `total_workers` after five seconds and frees the pool under extra workers that still live; here it polls on. It also frees the pool under callers still inside insert or wait_for_idle, so here it waits for them.
- The finer interleaving of `uevent_del` with an add or an expiry of the same event: the timer flag is exchanged before the base mutex is taken, so that is another system; here each API call and each turn of the expiry loop is one step.
- `uevent_deinit` beyond what `EventSteps.WakeupFreed` says, and the checks by which an event's static or dynamic allocation is told apart.
- EventLoop.Loop.InsertTimerMethod: the timer heap is a map from slot to deadline here, and the write to the wakeup descriptor is absent; `ArrayHeap` is the heap itself, and `HeapRuns` says what it hands out.
- EventLoop.Loop.RemoveTimerMethod: the heap is that map, and the exchange of the timer flag is one step with the removal.
- EventLoop.Loop.ExpireMethod: the slot extracted is the key of that map that `Loop.GetMin` found least.
- HeapRuns.RunArray: operations name keys, not nodes, because two heaps may hold equal keys in different nodes; which of several equal keys leaves first is left open. A key changed while the heap is full, which loses the order, is outside a run.
- EventLoop.Loop.HandleTimers: no other thread's step falls between two turns, where the code releases the base mutex; that every turn keeps the agreement after any other steps, a stop among them, is `EventSteps.GoodAlways`.
- EventLoop.PassIsPass: deadlines that overflow 64 bits in the pass are excluded.
- TimerPass.ExpiresExactly: no timer is added during the pass.
- AssocArray.AssocArray.Get: `memcmp` with the size of the key looked for is equality only for keys of one size, so an array has one key size here.
- AssocArray.AssocArray.Add: keys of that one size; caller-supplied fill callbacks are not modelled.
- AssocArray.AssocArray.Del: keys of that one size; the freeing of entries, with `array_free`, is not modelled.
- AssocArray.AssocArray.AddReplace: keys of that one size.
- AssocArray.Replay: keys of that one size.
- Hashing.HashTime33: overflow of the signed accumulator is taken to wrap, and `char` to be signed.
- Hashing.HashStr: a little-endian machine that allows unaligned reads.
- NetlinkAttr.AddAttrL: an append that the check admits must lie in the buffer, since a write outside it has no meaning here.
- NetlinkAttr.AfterAddIs: the aligned stored length is at least 4, so that the attribute does not fall on the length field, and the sum of lengths does not wrap.
- EventSteps.GoodAlways: a turn for a descriptor whose event was freed after the poll, which dereferences NULL, is no step.
- EventSteps.GoodStep: the same turn is no step.
- EventSteps.FireAchieves: the event of the turn is alive; `EventSteps.PolledThenFreed` says when it is.
- Refcount.InvAlways: nothing is said of a run after a plain uevent_ref has counted up from zero.
- NetlinkAttr.ParseNlbuf: the stored length lies inside the bytes received, as the caller's NLMSG_OK has established.
- NetlinkAttr.ParseRtattr: only the mask of no flags, which is the only one used; sending, receiving and the assembly of device records are not modelled.
- TzFile.ParseTzdata: the year-day of a time is an abstract function that may have no value; finding and reading the zone file is not modelled.
- `htable`, `udeque`, `list`, `slist`, nlmon, the ARP cache and the DHCP capture: simpler versions of what is here, or input and output.
