# A verified model of PaRTiKle's kernel structures

PaRTiKle is a small POSIX real-time kernel; this project models its L4/ARM port and proves what
the kernel's data structures and protocols guarantee. `dafny verify dfyconfig.toml` checks all of it.

- **Memory** (`Bits`, `Links`, `Bitmaps`, `SizeClasses`, `FreeLists`, `Pool`, `Tlsf`). The TLSF
  allocator keeps block headers with boundary tags, 768 segregated free lists and three bitmaps.
  `Pool` says what allocation and release do to a row of blocks, with theorems over all runs;
  the class in `Tlsf` changes headers, links and bitmaps in place and is proved to follow it.
- **Scheduling** (`ReadyQueues`, `Scheduler`, `Interrupts`). A 32 x 32 matrix of intrusive lists with a two-level
  bitmap is proved to be 1024 queues. On top of it stand the thread transitions, `scheduling()`
  and the nesting counter with its pending bit that defers rescheduling out of interrupts.
- **Mutexes and conditions** (`MutexSteps`, `WaitingThreads`, `RecursiveMutex`, `PriorityCeiling`,
  `Pthread`). Every call is a step from one reschedule to the next; a thread that sleeps inside a call
  remembers how it goes on. `MutexSteps` holds the steps and the invariant of all interleavings,
  `WaitingThreads` and `RecursiveMutex` what they imply over whole runs, `PriorityCeiling` the
  immediate ceiling protocol, `Pthread` the objects that carry the steps out.
- **Timers** (`TimerHeap`, `Timers`). The array heap whose keys are mutable deadlines, the timer
  table, and the expiry loop.
- **Exact arithmetic** (`Strtoul`, `Calendar`). Number conversion against section 7.20.1.4 of
  ISO/IEC 9899:1999, calendar conversion against the Gregorian calendar.

Some promises turned out to hold only under a condition, which is then stated and proved exact:

- `init_memory_pool` accepts pools of sizeof(tlsf_t) + 128 to 135 bytes, whose first block gets the
  row index -1 (`Tlsf.FirstBlockIndex`); requests above 0x3F000000 bytes search a row that does not
  exist (`Tlsf.RequestInRange`).
- `pthread_yield_sys` queues its caller without looking at its state, which is right if and only if
  the caller is READY (`Scheduler.YieldOk`, `Scheduler.IdleMustNotYield`).
- A recursive mutex first taken by trylock has counter 0; locked again, it is released one unlock early
  (`RecursiveMutex.TryLockedUnlocks`, `RecursiveMutex.OneUnlockTooEarly`).
- `HEAP_remove_element` only sifts down and can break heap order (`Timers.RemovalCanBreakOrder`,
  with the exact condition in `TimerHeap.Heap.RemoveElement`).
- The comparison of `update_hwtimer` replaces `timer_value <= ctime`; the two agree exactly inside a
  window (`Timers.DueAgrees`), and a periodic timer of 2^32 to about 2^63 ns is due again each time
  it is re-armed, so that the loop need not end (`Timers.TimerBase.FireRepeatedly`).
- `localtime_r` turns 31 December of a leap year into 1 January of the same year, and both calendar
  calls are off after 2100 (`Calendar.LocaltimeR`, `Calendar.Mktime`).

## Model

| member | source | states |
|---|---|---|
| `Bits.Ffs` | include/ertl_core/bitop.h:51-83 | the lowest set bit of a word, -1 exactly for the empty word |
| `Bits.Fls` | include/ertl_core/bitop.h:93-120 | the position of the highest set bit, floor(log2), -1 for zero |
| `Bits.Log2Bounds` | include/ertl_core/bitop.h:93-120 | that position is floor(log2): its power of two is at most the word, and twice it is more |
| `Bits.MembersOfSetBit` | include/ertl_core/bitop.h:130-132 | setting a bit adds exactly that bit to the set the word stands for |
| `Bits.MembersOfClearBit` | include/ertl_core/bitop.h:142-144 | clearing a bit takes out exactly that bit |
| `Bits.MembersOfFrom` | server/core/libc/tlsf.c:113-127 | masking with ~0 << n keeps exactly the bits from n on |
| `Links.UnlinkFamily` | include/ertl_core/pthread_list.h:66-78 | bridging a node's neighbours removes just that element of just that list, and leaves every other list linked as before |
| `Links.PushFrontFamily` | include/ertl_core/pthread_list.h:53-60 | linking a node in front of a head makes it the first element of that list and of no other |
| `Bitmaps.RowsAfter` | include/ertl_core/sched_struct.h:115-130 | updating one second-level and one first-level bit keeps both bitmap levels in step with the lists |
| `SizeClasses.ClassVersusFloor` | server/core/libc/tlsf.c:104-109 | a size reaches class c exactly when it reaches the class's smallest size: the classes partition all sizes in order |
| `SizeClasses.MappingInsert` | server/core/libc/tlsf.c:104-109 | the row and column computed by shifting are the class the size belongs to, for every size a pool can hold |
| `SizeClasses.MappingSearch` | server/core/libc/tlsf.c:94-102 | the row and column searched are the first class all of whose blocks are large enough, and the rounded size is that class's lower bound |
| `SizeClasses.SearchClassIsFirst` | server/core/libc/tlsf.c:94-102 | no lower class would do: a class's smallest block holds r bytes if and only if the class is at or above the one searched |
| `SizeClasses.SearchSizeBounds` | server/core/libc/tlsf.c:94-102 | rounding up costs at most r / 32 bytes and keeps word alignment |
| `FreeLists.FreeListTable.Insert` | server/core/libc/tlsf.c:173-180 | prepends to one list; links, heads and all three bitmaps still describe the 768 lists |
| `FreeLists.FreeListTable.InsertSmall` | server/core/libc/tlsf.c:194-200 | the same for the lists of small blocks |
| `FreeLists.FreeListTable.Extract` | server/core/libc/tlsf.c:159-171 | takes a block out of the middle of its list and clears the bits exactly when list and row become empty |
| `FreeLists.FreeListTable.ExtractSmall` | server/core/libc/tlsf.c:182-192 | the same for the lists of small blocks |
| `FreeLists.FreeListTable.ExtractHead` | server/core/libc/tlsf.c:140-149 | takes the first block of a list |
| `FreeLists.FreeListTable.ExtractSmallHead` | server/core/libc/tlsf.c:151-157 | takes the first small block of a list, whose own link is not cleared |
| `FreeLists.FreeListTable.FindSuitable` | server/core/libc/tlsf.c:113-127 | the head of the first occupied list at or after a row and column; NULL if and only if all of those are empty |
| `FreeLists.FreeListTable.FindSmallSuitable` | server/core/libc/tlsf.c:129-138 | the same among the small lists; NULL also for sizes that are not small |
| `Tlsf.Tlsf.InitMemoryPool` | server/core/libc/tlsf.c:204-241 | -1 exactly for the pools that are refused; otherwise the pool is one free block on its list, of the largest multiple of 4 that fits, followed by the sentinel |
| `Tlsf.Tlsf.FindAndExtract` | server/core/libc/tlsf.c:253-267 | the first block of the lowest occupied list that can serve the request leaves its list; NULL only if all those lists are empty |
| `Tlsf.Tlsf.Occupy` | server/core/libc/tlsf.c:268-288 | the block is cut when the rest can be a block, and headers, boundary tags, lists and bitmaps describe the new row |
| `Tlsf.Tlsf.Malloc` | server/core/libc/tlsf.c:248-289 | keeps the whole invariant and refines a search over all free blocks: NULL if and only if every free block is smaller than the rounded request; otherwise a block of the lowest size class that fits, with at least the bytes asked for and at most r + r / 32 + 12 |
| `Tlsf.Tlsf.Free` | server/core/libc/tlsf.c:291-328 | keeps the whole invariant; the block and its free neighbours on both sides become one free block |
| `Tlsf.Tlsf.OneBlockBits` | server/core/libc/tlsf.c:204-241 | a pool of one free block has one one-element list and exactly the bits of its class |
| `Tlsf.RequestInRange` | server/core/libc/tlsf.c:94-102 | the searched class exists exactly for requests up to 0x3F000000 bytes |
| `Tlsf.FirstBlockIndex` | server/core/libc/tlsf.c:208-233 | the row index of the first block is non-negative exactly from sizeof(tlsf_t) + 136 bytes on, although 128 are accepted; -1 is a concrete outcome |
| `Tlsf.FlagBitHarmless` | server/core/libc/tlsf.c:233 | the first block is classified with its FREE bit still in the size, and lands in the same class |
| `Pool.BuffersDisjoint` | server/core/libc/tlsf.c:86-89 | in a tiled pool two blocks never share a byte of buffer |
| `Pool.RoundedIsLeast` | server/core/libc/tlsf.c:253 | a request is rounded up to the least multiple of 4 that is no less than it and no less than 12 |
| `Pool.NeededIsNextMultiple` | server/core/libc/tlsf.c:94-102 | from 128 bytes on it is rounded up once more, to the next multiple of a 32nd of the power of two below it; smaller ones are not |
| `Pool.Granted` | server/core/libc/tlsf.c:253-288 | the pool stays tiled, and the block handed out has at least n bytes and between r and r + r / 32 + 12 for the least size r |
| `Pool.GrantedLive` | server/core/libc/tlsf.c:268-289 | one block joins the live ones, at an address that was not live; no live block moves or changes size |
| `Pool.Released` | server/core/libc/tlsf.c:291-328 | after free_ex the blocks tile the pool and no two neighbours are free |
| `Pool.ReleasedLive` | server/core/libc/tlsf.c:291-328 | exactly the given block leaves the live ones |
| `Pool.ReleaseUndoesGrant` | server/core/libc/tlsf.c:248-328 | freeing what was just allocated restores the row block for block |
| `Pool.EveryRun` | server/core/libc/tlsf.c:204-328 | in every run of malloc_ex and free_ex the blocks tile the pool without free neighbours, sizes and headers add up to the whole pool, and the live buffers are exactly the outstanding ones |
| `Pool.AllFreed` | server/core/libc/tlsf.c:291-328 | after any run in which everything was given back the pool is the initial free block again |
| `ReadyQueues.CellRoundTrip` | include/ertl_core/sched_struct.h:60-71 | prio2ij and ij2prio are inverse on 0..1023 |
| `ReadyQueues.ReadyStruct.Insert` | include/ertl_core/sched_struct.h:115-130 | insert_ss is cons on the queue of the priority; matrix, links and bitmaps keep describing the 1024 queues |
| `ReadyQueues.ReadyStruct.InsertAtTail` | include/ertl_core/sched_struct.h:136-162 | insert_ss_tail is append on that queue |
| `ReadyQueues.ReadyStruct.WalkToTail` | include/ertl_core/sched_struct.h:146-153 | the walk along next_matrix ends at the last thread of the queue |
| `ReadyQueues.ReadyStruct.Remove` | include/ertl_core/sched_struct.h:263-286 | remove_ss deletes the thread from its queue; a thread in no queue, even a zeroed one with ss_i = ss_j = 0, changes none |
| `ReadyQueues.ReadyStruct.GetHead` | include/ertl_core/sched_struct.h:202-238 | two bit searches find the head of the lowest-numbered non-empty queue, or NULL |
| `ReadyQueues.RemoveListed` | include/ertl_core/sched_struct.h:263-286 | deletion touches one position of one queue |
| `ReadyQueues.RemoveUnlisted` | include/ertl_core/sched_struct.h:263-286 | deletion of a thread that is in no queue is the identity |
| `Scheduler.Scheduler.ChangeThreadPrio` | server/core/port/sched.c:285-300 | moves the thread between queues as the specification does, and keeps the invariant |
| `Scheduler.Scheduler.SuspendThread` | server/core/port/sched.c:306-314 | the thread leaves the ready structure unless finished |
| `Scheduler.Scheduler.ActivateThread` | server/core/port/sched.c:320-330 | a suspended thread goes to the head of its queue |
| `Scheduler.Scheduler.FinishThread` | server/core/port/sched.c:336-344 | the thread is FINISHED and in no queue, for good |
| `Scheduler.Scheduler.PthreadYield` | server/core/port/sched.c:365-377 | the caller goes to the tail of its queue and the head runs |
| `Scheduler.Scheduler.Scheduling` | server/core/port/sched.c:383-455 | switches to the head of the ready structure, or only sets the pending bit inside an interrupt |
| `Scheduler.Scheduler.CreateThread` | server/core/port/sched.c:66-110 | a zeroed, suspended thread is registered |
| `Scheduler.Scheduler.DoIrqFrame` | server/core/common/irqs-l4.c:12-40 | one interrupt frame, nested frames included, does what the specification of nested interrupts says |
| `Scheduler.ChangePrioOk` | server/core/port/sched.c:285-300 | a thread stays READY if and only if queued, in the queue of its new priority |
| `Scheduler.SuspendOk` | server/core/port/sched.c:306-344 | READY if and only if queued is kept by suspend_thread and finish_thread |
| `Scheduler.ActivateOk` | server/core/port/sched.c:320-330 | and by activate_thread |
| `Scheduler.SuspendEffect` | server/core/port/sched.c:306-314 | the suspended thread is in no queue and SUSPENDED, FINISHED if it was; states, priorities and queue order of the others are kept |
| `Scheduler.FinishEffect` | server/core/port/sched.c:336-344 | the finished thread is in no queue and FINISHED; the others are kept |
| `Scheduler.ActivateEffect` | server/core/port/sched.c:320-330 | a suspended thread is READY and in front of its queue, the others are kept; any other thread is left alone |
| `Scheduler.ChangePrioEffect` | server/core/port/sched.c:285-300 | the thread has the new priority and its old state, and if READY is in front of that queue and in no other; the others are kept |
| `Scheduler.YieldEffect` | server/core/port/sched.c:365-377 | the caller is READY and last in its queue; the others are kept |
| `Scheduler.RegisterEffect` | server/core/port/sched.c:66-110 | the new thread is SUSPENDED, of priority 0 and in no queue; the others are kept |
| `Scheduler.ScheduleEffect` | server/core/port/sched.c:383-455 | queues, states and priorities are not touched |
| `Scheduler.ActEffect` | server/core/common/irqs-l4.c:12-40 | a handler that wakes or stops a thread readies a suspended one, or suspends an unfinished one, and no other |
| `Scheduler.ScheduleOk` | server/core/port/sched.c:383-455 | at depth 0 a READY thread of minimal priority number becomes current, idle if none is READY; deeper, nothing is switched and the request is recorded |
| `Scheduler.FinishedIsAbsorbing` | server/core/port/sched.c:285-330 | activating, suspending or reprioritizing a finished thread never makes it runnable |
| `Scheduler.YieldOk` | server/core/port/sched.c:365-377 | yielding keeps the invariant if and only if the caller is READY |
| `Scheduler.IdleMustNotYield` | server/core/port/sched.c:365-377 | a yield by the idle thread of the initial state breaks the invariant |
| `Scheduler.YieldsRotate` | server/core/port/sched.c:365-377 | k yields rotate the top queue by k and run its new head |
| `Scheduler.ActsKept` | server/core/common/irqs-l4.c:12-40 | whatever a handler does, nested interrupts included, the counter's low 31 bits and the current thread are unchanged at its end, and a request stays recorded |
| `Scheduler.IrqKept` | server/core/common/irqs-l4.c:12-40 | a nested do_irq returns at the depth it was entered, without a switch and without losing a request |
| `Scheduler.RequestsAreServed` | server/core/common/irqs-l4.c:12-40 | an outermost do_irq with a request raised at any depth ends at counter 0 with a most urgent READY thread current; without one nothing is switched |
| `Interrupts.FramesCounted` | server/core/common/irqs-l4.c:12-40 | for every sequence of interrupt entries, exits and handler actions, at every moment the low 31 bits equal the entries minus the exits, and bit 31 says whether a request is waiting for the outermost exit |
| `Interrupts.SwitchedOutside` | server/core/common/irqs-l4.c:12-40 | nothing is switched while a frame is in progress, and the outermost exit serves the requests made inside |
| `Interrupts.DoIrqIsItsEvents` | server/core/common/irqs-l4.c:12-40 | do_irq with all nested interrupts is the sequence of its events |
| `Pthread.ThreadLists.Insert` | include/ertl_core/pthread_list.h:53-60 | prepends to one list although the back pointer of the new node is never written |
| `Pthread.ThreadLists.Remove` | include/ertl_core/pthread_list.h:66-78 | removes one element of one list |
| `Pthread.ThreadLists.RemoveHead` | include/ertl_core/pthread_list.h:84-100 | pops the first thread, NULL for the empty list |
| `Pthread.ThreadLists.Register` | server/core/port/sched.c:73-82 | the zeroed node of a new thread joins no list |
| `Pthread.PthreadKernel.constructor` | server/core/port/sched.c:136-147 | the initial kernel, an idle thread and free mutexes, satisfies the invariant every call needs and keeps |
| `Pthread.PthreadKernel.CreateThread` | server/core/port/pthread.c:49-125 | refuses priorities above MIN_SCHED_PRIORITY, which is 1022; otherwise the new thread is READY at its priority and the scheduler has run |
| `Pthread.PthreadKernel.MutexLock` | server/core/port/pthread.c:510-556 | one step of pthread_mutex_lock_sys up to its next reschedule: acquire, count, refuse, or queue and suspend |
| `Pthread.PthreadKernel.MutexTryLock` | server/core/port/pthread.c:562-595 | pthread_mutex_trylock_sys as a step; success means that the caller owns the mutex, EBUSY that nothing has changed |
| `Pthread.PthreadKernel.MutexUnlock` | server/core/port/pthread.c:601-641 | pthread_mutex_unlock_sys as a step: count down, or drain the waiters, free the mutex and restore the priority |
| `Pthread.PthreadKernel.Drain` | server/core/port/pthread.c:618-620 | the loop activates every thread of the list, front first, and empties it |
| `Pthread.PthreadKernel.CondWaitBegin` | server/core/port/pthread.c:731-754 | the unlock and the queueing of pthread_cond_wait_sys, one step when the unlock does not reschedule |
| `Pthread.PthreadKernel.CondSignal` | server/core/port/pthread.c:684-701 | pthread_cond_signal_sys as a step |
| `Pthread.PthreadKernel.CondBroadcast` | server/core/port/pthread.c:707-725 | pthread_cond_broadcast_sys as a step |
| `MutexSteps.StepOk` | server/core/port/pthread.c:510-754 | every step of every thread keeps the kernel invariant |
| `MutexSteps.EveryInterleaving` | server/core/port/pthread.c:510-754 | in every run of allowed steps from a kernel in order, every later kernel is in order too: a waiter list implies an owner, and each waiter is SUSPENDED and on one list only |
| `MutexSteps.OwnershipChanges` | server/core/port/pthread.c:510-641 | a mutex is taken only when free and by the running thread, and given up only by its owner |
| `MutexSteps.LockResult` | server/core/port/pthread.c:510-556 | lock succeeds exactly for a free mutex or the caller's recursive one, reports EDEADLK exactly for the caller's error-checking one, and otherwise blocks |
| `MutexSteps.TryLockResult` | server/core/port/pthread.c:562-595 | trylock succeeds in the same cases, with the mutex then held; otherwise EBUSY and no change |
| `MutexSteps.UnlockResult` | server/core/port/pthread.c:601-641 | unlock gives EPERM exactly for another thread's mutex or a free error-checking one; a mutex not the caller's is not changed |
| `MutexSteps.CondWaitResult` | server/core/port/pthread.c:731-754 | cond_wait gives EPERM exactly if the mutex is not the caller's, and then changes nothing |
| `MutexSteps.ExitIsForEver` | server/core/port/pthread.c:400-427 | in every run a thread that has exited is FINISHED, not READY and in no queue at every later moment |
| `MutexSteps.StaysEnded` | server/core/port/pthread.c:400-754 | no step of any thread revives a finished one |
| `MutexSteps.SleepStops` | server/core/port/sched.c:306-314 | a thread that puts itself to sleep is SUSPENDED |
| `MutexSteps.LockReturnsOwning` | server/core/port/pthread.c:515-556 | a round of the wait loop ends as the owner, or queued, not READY and to be continued |
| `MutexSteps.ReleaseWakesAll` | server/core/port/pthread.c:613-629 | the last unlock frees the mutex and readies exactly its waiters |
| `MutexSteps.WaitIsOneStep` | server/core/port/pthread.c:731-754 | for a mutex held at depth 1 the wait leaves the mutex free and its caller in front of the list, SUSPENDED |
| `MutexSteps.SignalWakesOne` | server/core/port/pthread.c:684-701 | a signal wakes exactly one enqueued waiter if there is any, the one that joined last |
| `MutexSteps.BroadcastWakesAll` | server/core/port/pthread.c:707-725 | a broadcast wakes all of them and no other thread |
| `MutexSteps.CreateOk` | server/core/port/pthread.c:49-125 | a thread can be created at any time: it is READY, waits nowhere, and the invariant is kept |
| `WaitingThreads.ReturnsOwning` | server/core/port/pthread.c:515-556 | over every run, a thread put to sleep by pthread_mutex_lock_sys or pthread_cond_wait_sys only goes on with attempts to take the mutex, and comes out of the call only as its owner |
| `WaitingThreads.NoLostWakeup` | server/core/port/pthread.c:684-754 | over every run, the caller of pthread_cond_wait_sys sleeps on the condition from the step of the wait until the first broadcast or the first signal that finds it in front, and that one makes it READY |
| `WaitingThreads.NoLostRelease` | server/core/port/pthread.c:515-629 | over every run, a thread that blocks on a mutex sleeps in its list until the first release, which makes it READY |
| `WaitingThreads.NobodyForgotten` | server/core/port/pthread.c:510-754 | in every run each thread inside a call is READY or on the list from which that call is woken |
| `WaitingThreads.PlaceKept` | server/core/port/pthread.c:510-754 | and every single step keeps it so |
| `WaitingThreads.PlacesAtFirst` | server/core/port/pthread.c:510-754 | it is so in a kernel in which nobody waits |
| `WaitingThreads.PlacesAfterCreation` | server/core/port/pthread.c:49-125 | and stays so when a thread is created |
| `RecursiveMutex.HoldStep` | server/core/port/pthread.c:515-629 | whoever takes the step, owner and counter of a held recursive mutex change only by the owner's locks and unlocks, and an unlock that finds the counter below 2 frees it |
| `RecursiveMutex.UnlocksMatchLocks` | server/core/port/pthread.c:515-629 | over every run, a recursive mutex taken by lock stays its owner's, with the difference as counter, as long as the locks outnumber the unlocks, and is free at the step where they match |
| `RecursiveMutex.TryLockedUnlocks` | server/core/port/pthread.c:562-595 | taken by trylock, whose counter stays 0, it is given up at the first unlock that leaves at most one lock unmatched: an unlock too early once it was locked again |
| `RecursiveMutex.OneUnlockTooEarly` | server/core/port/pthread.c:562-641 | the run trylock, lock, unlock frees a recursive mutex with one lock unmatched, from every kernel in which it can be taken |
| `RecursiveMutex.SomeKernel` | server/core/port/pthread.c:485-496 | there is such a kernel |
| `PriorityCeiling.TrackedKept` | server/core/port/pthread.c:544-629 | with LIFO releases every step keeps each thread's priority at the minimum of its base priority and the ceilings it holds |
| `PriorityCeiling.PrioritiesOverRuns` | server/core/port/pthread.c:544-629 | so over every run |
| `PriorityCeiling.BaseAgain` | server/core/port/pthread.c:622-629 | once nothing is held the priority is the base priority again |
| `PriorityCeiling.NeverContended` | server/core/port/pthread.c:510-556 | in an uncontended kernel a disciplined thread never finds a PRIO_PROTECT mutex owned by another |
| `PriorityCeiling.UncontendedKept` | server/core/port/pthread.c:510-641 | every disciplined step keeps the kernel uncontended |
| `PriorityCeiling.CeilingTheorem` | server/core/port/pthread.c:510-641 | in every disciplined run, at every moment, no PRIO_PROTECT mutex has a waiter and no lock of one blocks, so no deadlock over them is possible |
| `PriorityCeiling.FreshKernel` | server/core/port/pthread.c:485-496 | every kernel in which nothing is held starts such a run |
| `PriorityCeiling.CreateTracked` | server/core/port/pthread.c:49-125 | a newcomer has the base priority it is created with, and nobody else's priority changes |
| `PriorityCeiling.CreateUncontended` | server/core/port/pthread.c:49-125 | creating a thread keeps the kernel uncontended |
| `TimerHeap.FrontIsLeast` | server/core/port/heap.c:46-51 | in heap order the first element has a least deadline |
| `TimerHeap.SiftDownSound` | server/core/port/heap.c:57-73 | sinking keeps the elements and puts everything in order except the edge above where it started |
| `TimerHeap.Heap.Heapify` | server/core/port/heap.c:57-73 | the loop lets the element sink as SiftDown says; the elements are kept, and heap order is restored exactly when the edge above the start is in order |
| `TimerHeap.Heap.Min` | server/core/port/heap.c:46-51 | an element with a least deadline, or nothing |
| `TimerHeap.Heap.RemoveMin` | server/core/port/heap.c:79-91 | removes exactly the first element and keeps heap order |
| `TimerHeap.Heap.DrainAll` | server/core/port/heap.c:79-91 | taking the minimum until nothing is left yields every element, by nondecreasing deadline |
| `TimerHeap.Heap.Insert` | server/core/port/heap.c:97-112 | adds exactly the element and keeps heap order |
| `TimerHeap.Heap.RemoveElement` | server/core/port/heap.c:119-137 | removes exactly the first occurrence; heap order survives if and only if the moved last element is not smaller than the parent of the removed cell |
| `Timers.DueAgrees` | server/core/port/time.c:252-255 | the two-word comparison means `timer_value <= ctime` if and only if the two times are in the window |
| `Timers.LongPeriodStaysDue` | server/core/port/time.c:252-262 | a periodic timer of 2^32 to about 2^63 ns is armed and due again after every round that fires it, however many |
| `Timers.TimerBase.FireRepeatedly` | server/core/port/time.c:252-275 | with such a timer the only armed one, the front of the heap is still due after any number of rounds of the loop, so it does not end while the clock stands |
| `Timers.HeapHasRoom` | server/core/port/heap.c:97-112 | by pigeonhole the heap holds at most MAX_TIMERS elements and has room for every unarmed timer |
| `Timers.OccursOnceIffArmed` | server/core/port/time.c:133-227 | a timer is armed if and only if it occurs once in the heap, and otherwise does not occur |
| `Timers.RemovalCanBreakOrder` | server/core/port/heap.c:119-137 | a concrete heap in order, and the heap without order that the removal of its cell 4 leaves |
| `Timers.TimerBase.AllocKtimer` | server/core/port/time.c:133-171 | the first timer not in use, zeroed, or -1 if there is none |
| `Timers.TimerBase.FreeKtimer` | server/core/port/time.c:177-184 | the timer leaves the heap and loses its flags; heap order survives exactly under the condition of RemoveElement |
| `Timers.TimerBase.ArmTimer` | server/core/port/time.c:190-214 | an unused timer gives -1 and no change; an unarmed one in use enters the heap at the given deadline if absolute and at now plus the value if relative, heap order kept |
| `Timers.TimerBase.DisarmTimer` | server/core/port/time.c:220-227 | the timer leaves the heap and is no longer armed |
| `Timers.TimerBase.TimerDelete` | server/core/port/time.c:514-527 | refuses unknown timers, frees others |
| `Timers.TimerBase.TimerSetTime` | server/core/port/time.c:533-571 | refuses unknown timers; reports and cancels the old setting, then arms the new one if there is one, at the given deadline if absolute and at now plus the value if relative |
| `Timers.TimerBase.UpdateHwtimer` | server/core/port/time.c:237-291 | terminates; fires exactly the expired timers, once each and by nondecreasing deadline; re-arms periodic ones of unfinished owners at now + interval and disarms the rest; programs the distance to the earliest deadline left if it is within the limits, else the limit it exceeds |
| `Timers.NeverEarly` | server/core/port/time.c:190-291 | a timer armed for a number of nanoseconds later is not fired before they have passed |
| `Strtoul.CharacterTests` | include/ertl_core/ctype.h:34-51 | the digit decoding in an unsigned char and the hexadecimal and alphanumeric tests recognize exactly their characters |
| `Strtoul.DigitValues` | server/core/libc/stdlib.c:59 | digits and letters stand for 0 to 35, both cases alike, and nothing else does |
| `Strtoul.ValueAppends` | server/core/libc/stdlib.c:61-66 | numerals are positional |
| `Strtoul.NumeralForms` | server/core/libc/stdlib.c:41-55 | the expected form base by base: digits of the base, with 0x and hexadecimal digits in bases 0 and 16, and decimal or octal constants in base 0 |
| `Strtoul.FormValues` | server/core/libc/stdlib.c:41-66 | and the base each form is read in |
| `Strtoul.UnsignedValueIs` | server/core/libc/stdlib.c:74-77 | ULONG_MAX for too large a numeral, else the numeral, negated modulo 2^32 after a minus sign |
| `Strtoul.SignedValueIs` | server/core/libc/stdlib.c:92-98 | the signed numeral, or the end of the range it lies beyond |
| `Strtoul.AddDigit` | server/core/libc/stdlib.c:61-66 | the byte-split step computes v * base + c modulo 2^32 and notices overflow exactly |
| `Strtoul.ScanDigits` | server/core/libc/stdlib.c:56-68 | reads the maximal run of digits; overflow if and only if its value exceeds 2^32 - 1 |
| `Strtoul.FoundSubject` | server/core/libc/stdlib.c:39-72 | what is read is the longest initial part of the form of section 7.20.1.4, or there is none |
| `Strtoul.Strtoul` | server/core/libc/stdlib.c:31-78 | the value of that part modulo sign, ULONG_MAX if too large, and the position behind it; 0 and the start if there is none; a refused base leaves the end pointer |
| `Strtoul.Strtol` | server/core/libc/stdlib.c:82-99 | the signed value of that part clamped to 32 bits, with the same end position |
| `Calendar.LeapCount` | server/ulibc/time.c:70-71 | counting every fourth year is exact up to 2100 and too much for every later year |
| `Calendar.DaysInClosedForm` | server/ulibc/time.c:70-71 | the days counted year by year are the closed form of section 4.16 |
| `Calendar.SecondsSinceTheEpoch` | server/ulibc/time.c:91-107 | the second count is the expression section 4.16 gives |
| `Calendar.QuotientTruncates` | server/ulibc/time.c:71 | the division truncates as in C, also for years before the Epoch |
| `Calendar.MonthTables` | server/ulibc/time.c:73-85 | both tables are the running sums of the month lengths |
| `Calendar.Mktime` | server/ulibc/time.c:91-107 | for years from 1970 the exact Gregorian second count if and only if the year is at most 2100 |
| `Calendar.EstimateExact` | server/ulibc/time.c:123-129 | up to 2100 the two-stage estimate finds the year, and the day of the year except for the 366th, which becomes the first |
| `Calendar.EstimateWrong` | server/ulibc/time.c:123-129 | after 2100 year and day are never both right |
| `Calendar.FindMonth` | server/ulibc/time.c:134-140 | the search stops at the month that contains the day |
| `Calendar.LocaltimeR` | server/ulibc/time.c:113-148 | always valid fields; the right date if and only if the year is at most 2100 and the day is not the 366th; up to 2100 mktime undoes it exactly then, and the excluded day is 1 January of the same year |
| `Calendar.DateIffCount` | server/ulibc/time.c:91-148 | valid fields are the date of t if and only if they count t seconds |
| `Calendar.DateUnique` | server/ulibc/time.c:113-148 | a moment has one date, so the calls are inverse in both directions |
| `Calendar.KnownDate` | server/ulibc/time.c:113-148 | 951827696 seconds are 12:34:56 on Tuesday, 29 February 2000 |
| `Calendar.FirstWrongDay` | server/ulibc/time.c:123-129 | 1 January 2101 comes out as 1 January 2100 |

## Left out

- L4 and vCPU plumbing, context-switch assembler, system-call dispatch, interrupt controllers, timer drivers, the ELF loader, devices and the file table: foreign code or input and output.
- Semaphores, `server/core/common/l4_sysmem.c` and `include/ertl_core/cbitmap.h`: no sound invariant to state, or not used by the modelled code.
- Cancellation, detaching, joining, signals that interrupt a wait, `do_signals`, `pthread_cond_timedwait_sys` and `sleep_for`: they leave the lists and armed timers the invariants speak of.
- `realloc_ex`, `calloc_ex`, attribute getters and setters, string functions and the duplicated copies under `server/ulibc`: only easy members.
- Interrupts are assumed not to break into a step: `hw_save_flags_and_cli` does not disable them on L4 (`include/ertl_core/l4/processor.h`, line 79).
- Header words are split into size and flag fields, and the matrices are flattened row by row; user bytes of blocks, the overlap of `prev_hdr` with them and the end of the address space are not modelled.
- Context switches are assignments to the current thread; the time accounting and the memory-protection part of `scheduling()` are not modelled.
- Tlsf.Tlsf.InitMemoryPool: pools of sizeof(tlsf_t) + 128 to 135 bytes are excluded, because the code then writes in front of its table.
- Tlsf.Tlsf.Malloc: requests above 0x3F000000 bytes are excluded, because the code then reads behind its table; the proof that this is the exact limit is RequestInRange.
- Tlsf.Tlsf.Free: the argument must be a live buffer, as the code demands.
- Pthread.PthreadKernel.CondWaitBegin: waits whose unlock reschedules, possible for PRIO_PROTECT mutexes, are excluded, because the waiter is then not yet queued.
- Scheduler.Scheduler.CreateThread: the allocation of the structure, the sleep timer, the signal mask and the list of all threads are not modelled.
- Scheduler.Scheduler.DoIrqFrame: acknowledging and ending the interrupt and do_signals are not modelled, and a handler wakes, stops or reschedules threads or is interrupted.
- Pthread.PthreadKernel.CreateThread: allocation, stack and start routine are not modelled.
- Scheduler.Scheduler.PthreadYield: the caller is required to be READY, the condition YieldOk proves necessary.
- TimerHeap.Heap.Insert: the source refuses only a 34th element although its array ends at the 32nd; the contract requires the room that HeapHasRoom proves for the kernel's timers.
- Timers.TimerBase.ArmTimer: re-arming an armed timer, which would put it into the heap twice, is excluded.
- Timers.TimerBase.TimerSetTime: the conversion from struct timespec and the closing call of update_hwtimer are left out; UpdateHwtimer describes that call.
- Timers.TimerBase.UpdateHwtimer: all clocks stand still at one value during the call, deadlines lie in the window of DueAgrees, both timer actions return NEED_REESCHED and touch no timer; lines 249-250 compute unused values and are dropped.
- Timers.TimerBase.AllocKtimer: the choice of clock and action is not modelled.
- Calendar.Mktime: integers are unbounded, whereas time_t has 32 bits on L4 and overflows in 2038.
- Calendar.LocaltimeR: negative times, for which the month search would read in front of its table, are excluded.
- Strtoul.Strtoul: endptr is never NULL; a NULL endptr changes nothing but that it is not written.
