# A verified model of the Pintos kernel

This project models the algorithmic core of the Pintos teaching kernel in Dafny and proves what
that core keeps over every run: the priority-donating scheduler and its synchronization
primitives, the indexed-inode file system over its buffer cache, demand paging, the allocators,
and the library routines under them. `dafny verify dfyconfig.toml` checks everything.

Concurrency is modelled as a state machine whose steps are the kernel's atomic sections: code run
with interrupts off or under a lock that makes it appear atomic and, in `thread_set_priority`, the
store and the look at the ready list. Where a thread can be interrupted between two sections, its
place in the code is part of the state. Code that updates state in place is a class or a method
with loops, proved against a function on values; the properties are then lemmas about that function
and about every run of it.

| file | models |
|---|---|
| `Synch.dfy` | semaphores, locks and condition variables, with the interruptible places inside them |
| `Donation.dfy` | priority donation through chains of held locks |
| `Scheduler.dfy`, `SchedulerProofs.dfy` | thread states, the ready and sleeping lists, every scheduling step, and what all runs keep |
| `Fairness.dfy` | who runs next: turns among equals, queues, time slices, sleeping |
| `Ledger.dfy` | the account of every semaphore and lock over whole runs |
| `ThreadKernel.dfy` | the same operations as they run, with their loops, refining the steps |
| `ReleaseWindow.dfy` | runs that show where the priority order fails |
| `Mlfqs.dfy` | load average, recent CPU and priorities in 17.14 fixed point on 32-bit words |
| `BufferCache.dfy` | the 64-entry write-back sector cache |
| `Bitmap.dfy`, `FreeMap.dfy` | word-level bitmaps and the free-sector map |
| `InodeLayout.dfy`, `InodeGrowth.dfy`, `InodeFiles.dfy`, `FileSystem.dfy` | inodes with direct, indirect and doubly indirect blocks: growth, and files as byte sequences |
| `MergeSort.dfy`, `Lists.dfy` | doubly linked lists with sentinels, rewired in place, and their merge sort |
| `PageAllocator.dfy`, `Malloc.dfy` | page pools, and the block allocator over them |
| `Paging.dfy`, `PageUse.dfy`, `VirtualMemory.dfy` | frames, eviction, swap slots and page faults, and what they mean for a page's bytes |
| `HashTable.dfy` | the self-resizing chained hash table |
| `Arithmetic.dfy` | 64-bit division from the 64-by-32 instruction |
| `HeapSort.dfy` | heap sort and binary search |
| `Ustar.dfy`, `UstarFormat.dfy` | ustar headers |
| `Seqs.dfy`, `Common.dfy` | small facts about sequences, and what several parts share |

## What does not hold, and exactly when it does

- **The running thread is the highest.** False in two windows where interrupts are on. In
  `lock_release`, also inside `cond_wait`, the lock leaves the holder's list, and its donations with
  it, before `sema_up` reconsiders the order. In `thread_set_priority` the new priority is stored
  before the ready list is looked at. A reachable run shows each. For every reachable state it is
  proved that the order fails if and only if the running thread opened a window with a ready thread
  above what it keeps, and nobody has been switched in since.
- **A timer tick is harmless everywhere.** Not inside `timer_sleep`, which puts the running thread on
  the sleeping list before it disables interrupts. A tick there goes wrong if and only if the sleep
  is for at most one tick or the tick asks for a yield; otherwise it does what it would have done
  just before the call.
- **Growing a file.** A growth that starts in a partly filled index block and passes its end hands
  `cache_write_partial` more bytes than the sector has left, which stops the kernel. Everything
  else grows correctly.
- **A failed sector allocation leaves the map as it was.** It clears as many bits as it had taken,
  but from the start of the device. The map is restored only if those first sectors were free, and
  sector 0 never is. Every file's sectors are still marked afterwards if and only if no file uses
  one of those first sectors.
- **`__umoddi3` and `__moddi3`.** Their helpers return 32 bits, so the remainder is right for all
  dividends only up to divisors of 2^32 and 2^31. `sdiv64` fails for INT64_MIN / -1 alone.
- **`malloc` returns at least the bytes asked for.** The page count of a big block is computed in 32
  bits; within 11 bytes of 2^32 it comes out as one page.
- **MLFQS priorities lie in 0..63.** Nothing clamps them; the exact range condition is stated.
- **The page evicted is the one used longest ago.** A frame taken over keeps the time of the page evicted
  from it, so the page just loaded is the next victim until a tick finds it used. While a page stays in
  memory, its time is that of the last tick that found it used.
- **A name taken from an archive stays inside the directory.** Only the front of it is looked at:
  `a/../../b` passes unchanged. A name stays inside if and only if no beginning of it has more `..`
  than names.

## Where code and comments differ

The model follows the code.

- `cond_signal` is documented to wake some waiter; it prefers the highest, but compares base
  priorities where the scheduler compares donated ones.
- `inode_create` is documented to return false when disk allocation fails; it returns true and
  leaves the sector unwritten.
- `bitmap_scan_and_flip` is documented to return 0 for a count of zero; it returns the start position.
- `byte_to_sector` is documented to return -1 where the inode has no data; it does not look at the
  length, and returns -1 only where no index block can reach.
- The comment in `malloc.c` speaks of 2 kB blocks; the largest descriptor is 1 kB.

## Model

| member | source | states |
|---|---|---|
| SchedulerProofs.RunningIsHighest | pintos/threads/thread.c:292-313 | In every state reachable from boot by any interleaving of the 19 kinds of step, the running thread's donated priority is at least that of every ready thread, unless it stands between the two halves of its own lock_release or in thread_set_priority between the store and the yield. |
| SchedulerProofs.OrderExactly | pintos/threads/thread.c:292-423 | In every reachable state the order holds if and only if the running thread has not opened a window (lock_release, cond_wait, thread_set_priority) with a ready thread above what it keeps, or somebody has been switched in since; only interrupts and the scan of thread_set_priority leave a broken order broken. |
| SchedulerProofs.RunOrder | pintos/threads/thread.c:292-423 | The same from any state that meets the invariant, over legal runs of any length. |
| SchedulerProofs.StepOrder | pintos/threads/thread.c:292-423 | What one step of any kind does to the order: which open a window and on what condition, which leave it as it is, which restore it. |
| ReleaseWindow.OrderFailsInWindow | pintos/threads/synch.c:239-248 | A run from boot after which a ready thread is above the running one: the order fails inside lock_release, between list_remove and sema_up, where interrupts are on. |
| ReleaseWindow.OrderFailsWhileLowering | pintos/threads/thread.c:409-423 | Another one: the order fails inside thread_set_priority, between the store and the yield. |
| SchedulerProofs.ReleaseWindow | pintos/threads/synch.c:239-314 | The exact condition for lock_release and for cond_wait: once the lock is off the list, the order holds if and only if no ready thread is above what the releasing thread keeps without the lock, computed before the call. |
| SchedulerProofs.LowerWindow | pintos/threads/thread.c:409-423 | Once thread_set_priority has stored the new priority, the order holds if and only if no ready thread is above the new base priority and what the waiters for the thread's locks donate. |
| SchedulerProofs.TickOrder | pintos/devices/timer.c:182-203 | A timer interrupt, in a window or not, leaves the order as it was unless it switches threads, and then the order holds. |
| SchedulerProofs.UpOrder | pintos/threads/synch.c:109-125 | The same for a sema_up from an interrupt. |
| SchedulerProofs.SwitchPicksHighest | pintos/threads/thread.c:374-388 | Whoever thread_yield switches in is at least as high as everyone left ready, from any state whatever. |
| SchedulerProofs.EffExactly | pintos/threads/thread.c:425-463 | The priority the scheduler compares is the highest base priority at the end of a chain of at most eight waiting threads: an upper bound on every such chain, and reached by one. |
| Fairness.YieldComesBack | pintos/threads/thread.c:374-388 | A yield comes back to the same thread if and only if every ready thread is strictly below it. |
| Fairness.YieldPicksFirst | pintos/threads/thread.c:374-388 | Of several highest threads, the one that has been on the ready list longest runs. |
| Fairness.YieldOrder | pintos/threads/thread.c:374-388 | After a yield exactly the ready threads and the yielding one are ready, less the one that runs; they keep their order, the yielding thread behind all of them. |
| Fairness.RoundRobin | pintos/threads/thread.c:374-388 | n threads of equal priority that only yield take turns: after any number of yields the one runs whose turn it is, so each runs once in n. |
| Fairness.UnblockPreempts | pintos/threads/thread.c:292-313 | thread_unblock takes the processor away if and only if the woken thread is higher than the running one. |
| Fairness.ReadyLast | pintos/threads/thread.c:292-313 | A thread made ready goes behind everybody who was. |
| Fairness.TimeSlice | pintos/threads/thread.c:147-149 | Undisturbed, a thread runs for four ticks and then keeps the processor if and only if every ready thread is strictly below it. |
| Fairness.SliceStarts | pintos/threads/thread.c:660-717 | Whoever is switched in, the idle thread included, starts a new slice. |
| Fairness.TickAsks | pintos/devices/timer.c:182-199 | The timer interrupt asks for a yield if and only if the slice is over or a thread it wakes is higher than the running one. |
| Fairness.SleepsExactly | pintos/devices/timer.c:95-109 | After timer_sleep(n) the thread is blocked in every state of every run until n ticks have gone by, and the tick that completes them makes it ready. |
| Fairness.ScanDecides | pintos/threads/thread.c:409-423 | thread_set_priority yields if and only if a ready thread's donated priority is above the new base priority. |
| Fairness.CreatedWith | pintos/threads/thread.c:595-617 | A new thread has the priority it was created with; nobody else's changes. |
| SchedulerProofs.OneListEach | pintos/threads/thread.h:78-83 | In every reachable state exactly the current thread is running, a thread is on the ready list exactly once if and only if it is ready and not idle, sits at most once on the sleeping list or on one semaphore's list and only when blocked, and never on two lists. |
| SchedulerProofs.BlockedIsListed | pintos/threads/thread.h:78-83 | In every reachable state a blocked thread other than the idle one is on the sleeping list or on some semaphore's list: nobody is lost. |
| SchedulerProofs.SynchronizationHolds | pintos/threads/synch.c:60-125 | Over every interleaving: a semaphore with a queued waiter has a value no larger than the number of woken threads that have not rechecked; a lock's value plus its owners is 1; a signalled condition waiter is not left queued. |
| Ledgers.ValueIsBalance | pintos/threads/synch.c:44-125 | Over every run from boot a semaphore's value is what it was made with, plus its ups and signals, less the downs and tries that found a unit. |
| Ledgers.StepChange | pintos/threads/synch.c:44-125 | Every step of every kind changes every semaphore by exactly what it puts in or takes out. |
| Ledgers.DownExactly | pintos/threads/synch.c:60-76 | A pass of sema_down takes a unit and is through if there is one, and otherwise leaves the thread blocked in the queue. |
| Ledgers.TryExactly | pintos/threads/synch.c:84-102 | A try takes a unit if there is one, and with lock_try_acquire the caller then owns the lock; otherwise nothing changes. |
| Ledgers.OwnedSinceGot | pintos/threads/synch.c:197-248 | Over every run from boot a thread owns a lock if and only if it has got it by lock_acquire, lock_try_acquire or the end of cond_wait and not given it up since. |
| Ledgers.StepOwns | pintos/threads/synch.c:197-248 | Every step changes ownership of every lock by every thread exactly so. |
| Ledgers.ReturnsHolding | pintos/threads/synch.c:197-314 | In every run after a call of lock_acquire or cond_wait the caller is inside it until a state in which it is back in ordinary code with the lock on its list. |
| Fairness.WaitsLast | pintos/threads/synch.c:60-76 | A thread that has to wait for a semaphore goes behind everybody who waits for it. |
| Fairness.UpWakesFirst | pintos/threads/synch.c:109-125 | sema_up wakes, of the highest waiters, the one that has waited longest, and leaves the others in their order. |
| Fairness.CondLast | pintos/threads/synch.c:299-314 | A waiter on a condition goes behind everybody who waits for it. |
| SchedulerProofs.TickWakesExactlyDue | pintos/devices/timer.c:182-199 | One tick leaves on the sleeping list exactly the threads whose wake-up time has not come, in their order. |
| SchedulerProofs.WakeLoopExact | pintos/devices/timer.c:182-199 | The wake-up loop, which removes the element it stands on, wakes exactly the due threads from any position and puts them on the ready list in order. |
| SchedulerProofs.StepKeeps | pintos/threads/thread.c:133-423 | Every step of every kind keeps the whole invariant: synchronization, list placement and priority order up to the release window. |
| SchedulerProofs.RunKeeps | pintos/threads/thread.c:133-423 | The invariant holds after every legal run. |
| SchedulerProofs.BootInv | pintos/threads/thread.c:95-128 | The invariant holds in the booted system. |
| SchedulerProofs.ScheduleOrder | pintos/threads/thread.c:637-717 | Whoever schedule picks is at least as high as everyone it leaves behind. |
| SchedulerProofs.YieldKeeps | pintos/threads/thread.c:374-388 | Yielding restores the priority order from any state with sound lists. |
| SchedulerProofs.WakeKeeps | pintos/threads/synch.c:109-125 | Comparing only the woken waiter with the running thread is enough for sema_up to keep the order, also when the running thread has just lost donations. |
| SchedulerProofs.DownKeeps | pintos/threads/synch.c:60-76 | A pass of sema_down's loop keeps the invariant, donations through the new queue position included. |
| SchedulerProofs.TryKeeps | pintos/threads/synch.c:84-102 | sema_try_down and lock_try_acquire keep the invariant; what they take is said by Ledgers.TryExactly. |
| SchedulerProofs.RecordKeeps | pintos/threads/synch.c:197-209 | Recording a lock's holder keeps the invariant: gaining donors can only raise the running thread. |
| SchedulerProofs.ReleaseKeeps | pintos/threads/synch.c:239-248 | Dropping a lock keeps the invariant with the dropped donations carried in the release window. |
| SchedulerProofs.FinishReleaseKeeps | pintos/threads/synch.c:239-248 | lock_release's sema_up closes the window: the invariant holds without allowance afterwards. |
| SchedulerProofs.CondWaitStepKeeps | pintos/threads/synch.c:299-314 | cond_wait up to the release of its lock keeps the invariant. |
| SchedulerProofs.SignalKeeps | pintos/threads/synch.c:323-356 | cond_signal keeps the invariant whichever queued waiter its scan, which can be interrupted, has settled on. |
| SchedulerProofs.PickFromIsHighest | pintos/threads/synch.c:323-356 | An uninterrupted scan of cond_signal settles on a waiter whose base priority is at least that of every eligible queued waiter. |
| Fairness.PickIsFirst | pintos/threads/synch.c:323-356 | Of all waiters of base priority 0 or more an uninterrupted scan settles on one of the highest, and of several on the one that has waited longest. |
| SchedulerProofs.PickAtLeast | pintos/threads/synch.c:323-356 | Scanning further waiters never lowers the one chosen so far. |
| SchedulerProofs.StoreKeeps | pintos/threads/thread.c:409-412 | thread_set_priority's store keeps the invariant, with the old base priority as the allowance. |
| SchedulerProofs.ScanKeeps | pintos/threads/thread.c:413-414 | Its look at the ready list keeps it too; comparing the new base priority alone is enough to drop the allowance when nobody is higher. |
| SchedulerProofs.LowerYieldKeeps | pintos/threads/thread.c:415-422 | Its yield ends the window with the order restored. |
| SchedulerProofs.CreateKeeps | pintos/threads/thread.c:211-263 | Creating a thread keeps the invariant. |
| SchedulerProofs.SleepKeeps | pintos/devices/timer.c:95-109 | Going to sleep keeps the invariant. |
| SchedulerProofs.SleepWindow | pintos/devices/timer.c:95-109 | A tick after timer_sleep(n) has put the thread on the sleeping list and before it disables interrupts unblocks a running thread or yields one that is on two lists if and only if n <= 1 or the tick asks for a yield; otherwise it equals the tick just before the call with n - 1 left to sleep. |
| SchedulerProofs.WakeLoopAdded | pintos/devices/timer.c:182-199 | A sleeper at the end of the list whose time has not come changes nothing for the others. |
| SchedulerProofs.TickKeeps | pintos/devices/timer.c:182-203 | A timer interrupt keeps the invariant; the yield it asks for happens on return. |
| Scheduler.HighestFromIsFirstMaximum | pintos/threads/thread.c:739-752 | list_highest_priority_thread returns the first of the highest threads of the list. |
| Scheduler.HighestIsMax | pintos/threads/thread.c:739-752 | No thread of the list is above the one chosen. |
| Synch.AtMostOneOwner | pintos/threads/synch.c:197-248 | Two threads that own the same lock are the same thread, and the lock's value is then 0; owning includes the moments before the holder is recorded and after it is cleared. |
| Synch.QueuedMeansUnsignalled | pintos/threads/synch.c:299-356 | A waiter still queued on its private semaphore has not been signalled. |
| Synch.DownTakenKeeps | pintos/threads/synch.c:60-76 | Taking a unit of a semaphore keeps the synchronization invariant. |
| Synch.DownQueuedKeeps | pintos/threads/synch.c:60-76 | Queueing on a semaphore at zero keeps it. |
| Synch.RaisedQueues | pintos/threads/synch.c:109-125 | Raising a semaphore moves one waiter to the woken ones: queues stay sound and no wake-up is lost. |
| Synch.PlainUpKeeps | pintos/threads/synch.c:109-125 | sema_up on a plain semaphore keeps the invariant. |
| Synch.RecordedKeeps | pintos/threads/synch.c:197-209 | Recording the holder keeps lists and holder fields in agreement. |
| Synch.DroppedKeeps | pintos/threads/synch.c:239-248 | Clearing the holder before raising the semaphore leaves the lock with its one owner. |
| Synch.DropDoneKeeps | pintos/threads/synch.c:239-248 | Raising the lock's semaphore gives the ownership up exactly then. |
| Synch.CondWaitKeeps | pintos/threads/synch.c:299-314 | cond_wait with a fresh private semaphore keeps the invariant. |
| Synch.SignalledKeeps | pintos/threads/synch.c:323-356 | A signal gives exactly one unit to one private semaphore. |
| Synch.RestKeeps | pintos/devices/timer.c:95-109 | Sleeping on the timer and waking from it touches no synchronization state. |
| Synch.WithSemaKeeps | pintos/threads/synch.c:45-51 | A new semaphore or lock starts sound. |
| Synch.WithThreadKeeps | pintos/threads/thread.c:211-263 | A new thread starts outside all synchronization. |
| Donation.DonatedCovers | pintos/threads/thread.c:425-453 | The donated priority is at least the base priority of every thread reachable over at most 8 waits-for-a-lock-held-by links. |
| Donation.DonatedReached | pintos/threads/thread.c:425-453 | And it is the base priority of some such thread: with the row above, exactly the maximum; the depth bound makes it end on cyclic waits too. |
| Donation.UnboundedWhenShort | pintos/threads/thread.c:425-453 | When no chain is longer than 8 links it is the maximum over chains of any length. |
| Donation.CycleOfTwo | pintos/threads/thread.c:425-453 | Two threads waiting for each other both get the higher of their priorities. |
| Donation.DeeperIsHigher | pintos/threads/thread.c:425-453 | Following more links never lowers the result. |
| Donation.OwnPriorityCounts | pintos/threads/thread.c:425-453 | A thread never falls below its own priority. |
| Donation.DonatedFrame | pintos/threads/thread.c:425-453 | A change confined to threads nobody waits through is felt by nobody else. |
| Donation.LosingALock | pintos/threads/thread.c:425-453 | What a thread loses with a lock is at most what that lock's waiters gave. |
| Donation.GainingALock | pintos/threads/thread.c:425-453 | Gaining a lock never lowers the thread. |
| ThreadKernel.ThreadSystem.constructor | pintos/threads/thread.c:95-128 | The object starts as the booted system of the step model. |
| ThreadKernel.ThreadSystem.DonatedPriority | pintos/threads/thread.c:425-453 | The recursive loop over held locks and their waiters computes the donated priority of the specification. |
| ThreadKernel.ThreadSystem.PriorityOf | pintos/threads/thread.c:456-463 | The priority the scheduler compares is the donated one with the full depth. |
| ThreadKernel.ThreadSystem.HighestPriorityThread | pintos/threads/thread.c:739-752 | The list walk finds the specified thread. |
| ThreadKernel.ThreadSystem.SwitchThreads | pintos/threads/thread.c:637-717 | Switching picks the highest ready thread, else the idle thread, and starts its slice. |
| ThreadKernel.ThreadSystem.ThreadYield | pintos/threads/thread.c:374-388 | Refines the yield step. |
| ThreadKernel.ThreadSystem.ThreadBlock | pintos/threads/thread.c:271-279 | Refines the block step. |
| ThreadKernel.ThreadSystem.ThreadUnblock | pintos/threads/thread.c:292-313 | Outside interrupts it yields at once to a higher thread; inside it only asks for the yield, exactly when the woken thread is higher. |
| ThreadKernel.ThreadSystem.SemaDown | pintos/threads/synch.c:60-76 | One pass of the loop refines the down step, taking a unit or queueing and switching away. |
| ThreadKernel.ThreadSystem.SemaTryDown | pintos/threads/synch.c:84-102 | Refines the try step; success if and only if the value was positive. |
| ThreadKernel.ThreadSystem.SemaUp | pintos/threads/synch.c:109-125 | Increments first, then wakes the highest waiter, as the step says. |
| ThreadKernel.ThreadSystem.RecordLock | pintos/threads/synch.c:197-209 | Refines the second half of lock_acquire. |
| ThreadKernel.ThreadSystem.DropLock | pintos/threads/synch.c:239-248 | Refines the first half of lock_release. |
| ThreadKernel.ThreadSystem.FinishRelease | pintos/threads/synch.c:239-248 | Refines the second half of lock_release. |
| ThreadKernel.ThreadSystem.CondWaitBegin | pintos/threads/synch.c:299-314 | Refines cond_wait up to the release. |
| ThreadKernel.ThreadSystem.PickWaiter | pintos/threads/synch.c:323-356 | The scan over the waiters finds the specified one. |
| ThreadKernel.ThreadSystem.CondSignalOne | pintos/threads/synch.c:353-354 | Refines the signal step for the waiter the scan has settled on. |
| ThreadKernel.ThreadSystem.StorePriority | pintos/threads/thread.c:409-412 | Refines the store step. |
| ThreadKernel.ThreadSystem.ScanReady | pintos/threads/thread.c:413-414 | Refines the scan step, the walk over the ready list included. |
| ThreadKernel.ThreadSystem.YieldLowered | pintos/threads/thread.c:415-422 | Refines the yield that ends thread_set_priority. |
| ThreadKernel.ThreadSystem.ThreadCreate | pintos/threads/thread.c:211-263 | Refines the create step. |
| ThreadKernel.ThreadSystem.TimerSleep | pintos/devices/timer.c:95-109 | Refines the sleep step. |
| ThreadKernel.ThreadSystem.WakeSleepers | pintos/devices/timer.c:182-199 | The traversal that removes its own element refines the wake-up loop, yield request included. |
| ThreadKernel.ThreadSystem.TimerInterrupt | pintos/devices/timer.c:182-203 | Refines the tick step. |
| Mlfqs.RunKeeps | pintos/threads/thread.c:152-185 | Over runs of any length with at most n <= 545 runnable threads and nice in -20..20, load_avg stays within n and recent_cpu within -(40n+20) and 240n+20 plus the ticks since the last decay, in 32-bit arithmetic. |
| Mlfqs.TickExact | pintos/threads/thread.c:152-185 | Whatever a tick computes is what exact arithmetic gives, every product, quotient, sum and difference on the way fits its 32- or 64-bit word, nice values stay, and priorities change only at every fourth tick. |
| Mlfqs.RunExact | pintos/threads/thread.c:152-185 | Along every run with at most 545 runnable threads this holds of every tick; thread_set_nice and thread_create set exactly that thread's nice value and the priority that goes with it, without overflow, and thread_exit takes exactly one thread away. |
| Mlfqs.LoadNear | pintos/threads/thread.c:163 | The new load average is 59/60 of the old one plus 1/60 of the runnable threads, short of it by less than two units in the last place. |
| Mlfqs.RecentNear | pintos/threads/thread.c:169-170 | The new recent_cpu is 2 load / (2 load + 1) of the old one plus the nice value, up to one unit in the last place and the old value's share of the factor's last place. |
| Mlfqs.PriorityNear | pintos/threads/thread.c:514-519 | The priority is 63 - recent_cpu / 4 - 2 nice rounded to the nearest integer. |
| Mlfqs.LoadBound | pintos/threads/thread.c:163 | The load average never passes the number of runnable threads. |
| Mlfqs.FactorBound | pintos/threads/thread.c:169-170 | The decay factor is at most 2n/(2n+1), truncation included. |
| Mlfqs.DecayBound | pintos/threads/thread.c:165-172 | A decay brings recent_cpu back under 240n+20 and keeps it above -(40n+20). |
| Mlfqs.MachineLoad | pintos/threads/thread.c:163 | load_avg's 32-bit update equals the unbounded one, and 59 load_avg, the converted count, both quotients and the sum fit 32 bits. |
| Mlfqs.MachineRecent | pintos/threads/thread.c:169-170 | recent_cpu's update equals the unbounded one: both 64-bit products, 2 load_avg + 1, both quotients, the converted nice value and the sum fit. |
| Mlfqs.MachinePriority | pintos/threads/thread.c:514-519 | The priority formula equals the unbounded one, and both differences and the rounded sum fit 32 bits. |
| Mlfqs.PriorityInRange | pintos/threads/thread.c:514-519 | The unclamped priority is in 0..63 if and only if recent_cpu / 4 + 2 nice lies between 0 and 63, give or take a half. |
| Mlfqs.StepKeeps | pintos/threads/thread.c:133-185 | Ticks, nice changes, thread creation and exit keep the bounds. |
| Mlfqs.Bookkeeping.ThreadTick | pintos/threads/thread.c:152-185 | The tick, with its loops over all threads, refines the tick step. |
| Mlfqs.Bookkeeping.DecayAll | pintos/threads/thread.c:165-172 | The decay loop updates every thread once. |
| Mlfqs.Bookkeeping.UpdateAll | pintos/threads/thread.c:175-183 | The priority loop updates every thread once. |
| BufferCache.WriteBack | pintos/filesys/cache.c:200-208 | Writing an entry back changes nothing a reader sees. |
| BufferCache.Load | pintos/filesys/cache.c:147-189 | Loading an uncached sector into a free or clean entry changes nothing a reader sees. |
| BufferCache.Modify | pintos/filesys/cache.c:107-123 | Changing a cached sector's data changes what is seen there and nowhere else. |
| BufferCache.Cache.constructor | pintos/filesys/cache.c:48-56 | An empty cache of 64 entries shows the disk. |
| BufferCache.Cache.EntryToEvict | pintos/filesys/cache.c:255-265 | The victim is least recently used, the first of several. |
| BufferCache.Cache.WriteEntry | pintos/filesys/cache.c:200-208 | The entry becomes clean, its sector reaches the disk, all else stays. |
| BufferCache.Cache.GetEntry | pintos/filesys/cache.c:147-189 | Goes to the entry that has the sector, else to the first free one, else to the first of those used longest ago; the others and the flat view stay, and the device gets only what the evicted entry had to save. |
| BufferCache.Cache.ReadPartial | pintos/filesys/cache.c:66-84 | Returns exactly that slice of the view and leaves the view alone; the entry used gets the present time, and no other changes. |
| BufferCache.Cache.WritePartial | pintos/filesys/cache.c:107-123 | Patches exactly that slice of the view, in the entry used, which gets the present time, and not on the device; it stops the kernel if and only if the write would pass the sector's end. |
| BufferCache.Cache.Flush | pintos/filesys/cache.c:212-224 | Afterwards the disk equals the view, which has not changed. |
| Bitmaps.MaskBits | pintos/lib/kernel/bitmap.c:34-47 | Setting or clearing a mask bit in a word changes exactly the positions with the same index modulo 32. |
| Bitmaps.Bitmap.constructor | pintos/lib/kernel/bitmap.c:79-94 | A new bitmap is all false. |
| Bitmaps.WordsFewest | pintos/lib/kernel/bitmap.c:49-54 | A bitmap takes the fewest words that hold its bits. |
| Bitmaps.Bitmap.Mark | pintos/lib/kernel/bitmap.c:157-167 | The word operation sets one boolean of the sequence. |
| Bitmaps.Bitmap.Reset | pintos/lib/kernel/bitmap.c:170-180 | And clears one. |
| Bitmaps.Bitmap.Test | pintos/lib/kernel/bitmap.c:198-204 | Reads one. |
| Bitmaps.Bitmap.SetMultiple | pintos/lib/kernel/bitmap.c:218-229 | Fills exactly the range. |
| Bitmaps.Bitmap.Contains | pintos/lib/kernel/bitmap.c:252-264 | True if and only if some bit of the range has the value. |
| Bitmaps.Bitmap.Scan | pintos/lib/kernel/bitmap.c:297-311 | The first run of that many equal bits from the start position, or none if and only if there is no such run. |
| Bitmaps.Bitmap.ScanAndFlip | pintos/lib/kernel/bitmap.c:321-327 | Finds the first run and flips exactly it. |
| FreeMaps.FreeFromSound | pintos/filesys/free-map.c:26-53 | The sectors an allocation takes are free ones. |
| FreeMaps.FreeFromComplete | pintos/filesys/free-map.c:26-53 | And no free sector is passed over. |
| FreeMaps.FreeFromIncreasing | pintos/filesys/free-map.c:26-53 | They are taken in increasing order, so never twice. |
| FreeMaps.FailureRestores | pintos/filesys/free-map.c:47-53 | A failed allocation puts the map back if and only if as many sectors as it took were free at the very start of the device. |
| FreeMaps.FailureFreesSectorZero | pintos/filesys/free-map.c:47-53 | Since sector 0 is in use, every failed allocation that found something leaves sector 0 marked free. |
| FreeMaps.FreeMap.Take | pintos/filesys/free-map.c:33-46 | The scan takes the lowest free sectors and marks exactly them. |
| FreeMaps.FreeMap.Allocate | pintos/filesys/free-map.c:26-53 | Succeeds if and only if nothing is asked for, or enough sectors are free and the map can be saved; on success exactly the returned sectors are newly marked. |
| FreeMaps.FreeMap.Release | pintos/filesys/free-map.c:56-62 | Clears exactly the range. |
| InodeLayout.InodeRoundTrip | pintos/filesys/inode.c:54-65 | An inode written to its sector reads back unchanged. |
| InodeLayout.InodeBytes | pintos/filesys/inode.c:54-65 | The on-disk inode byte for byte: little-endian length, directory flag, 12 direct blocks, indirect and doubly indirect block, magic number, zeros. |
| InodeLayout.BlockFound | pintos/filesys/inode.c:132-171 | Where the number of a block is found: in the inode up to 12, in the indirect block up to 140, through the doubly indirect block up to 16524, and -1 past that. |
| FileSystems.SectorsFewest | pintos/filesys/inode.c:91-119 | bytes_to_data_sectors is the fewest 512-byte sectors that hold the length; bytes_to_indirect_sectors is 0 up to 12 of them, 1 up to 140, and then 2 and the fewest 128-entry blocks for the rest. |
| FileSystems.GrowsExactly | pintos/filesys/free-map.c:26-53 | A growth is refused if and only if it needs sectors and there are fewer free ones or the map cannot be saved. |
| InodeLayout.IndexCountGrows | pintos/filesys/inode.c:101-119 | A longer file never needs fewer index sectors. |
| InodeGrowth.ExtendGrows | pintos/filesys/inode.c:573-642 | A growth from k to m blocks that does not cross: block lookup is unchanged below k, block k+i is the i-th new sector, every new data sector is zero, exactly the given index sectors are used, and no other sector changes. |
| InodeGrowth.PanicsExactly | pintos/filesys/inode.c:487-566 | inode_disk_extend fails the in-sector assertion if and only if the growth starts in a partly filled index block and passes its end. |
| InodeGrowth.GrewLayout | pintos/filesys/inode.c:573-642 | After a growth all index sectors exist and are pairwise different. |
| InodeGrowth.GrewTwice | pintos/filesys/inode.c:573-642 | Stages of a growth compose. |
| InodeGrowth.DirectGrows | pintos/filesys/inode.c:458-484 | The direct stage is a growth. |
| InodeGrowth.SingleGrows | pintos/filesys/inode.c:487-516 | Entering blocks in the singly indirect block is a growth. |
| InodeGrowth.ChildGrows | pintos/filesys/inode.c:519-566 | Entering blocks in one child of the doubly indirect block is a growth. |
| InodeGrowth.DoubleGrows | pintos/filesys/inode.c:519-566 | Filling children until the blocks run out is a growth, once the doubly indirect block is written. |
| InodeFiles.FileGrows | pintos/filesys/inode.c:573-642 | Growing pads the file's bytes with zeros and keeps all its sectors distinct and its slack zero. |
| InodeFiles.FileGrowsWithin | pintos/filesys/inode.c:573-642 | The grown file uses its old sectors and the new ones only, and nothing outside them changes. |
| InodeFiles.PokeFile | pintos/filesys/inode.c:377-400 | Writing inside one block lays the data over the file's bytes. |
| InodeFiles.FileFrame | pintos/filesys/inode.c:314-355 | A file depends on its own sectors only. |
| InodeFiles.FilesKept | pintos/filesys/inode.c:362-404 | A change confined to one file and unused sectors keeps every other file's contents and all files disjoint. |
| InodeFiles.MarkedKept | pintos/filesys/inode.c:362-404 | And keeps every used sector marked. |
| FileSystems.FileSystem.ByteToSector | pintos/filesys/inode.c:132-171 | Finds the sector of a byte through at most two index blocks, whatever the file's length, and -1 past what they can name. |
| FileSystems.FileSystem.InodeLength | pintos/filesys/inode.c:436-443 | Reads the length on disk. |
| FileSystems.FileSystem.ExtendDblock | pintos/filesys/inode.c:458-484 | The loop over direct slots fills the specified ones and clears their sectors. |
| FileSystems.FileSystem.ExtendChildren | pintos/filesys/inode.c:487-516 | Enters and clears the specified sectors, or stops the kernel. |
| FileSystems.FileSystem.ExtendDoubly | pintos/filesys/inode.c:519-566 | The loop over children refines the specified filling. |
| FileSystems.FileSystem.Place | pintos/filesys/inode.c:601-642 | The three stages together compute the specified growth, and stop if and only if it crosses. |
| FileSystems.FileSystem.ExtendInode | pintos/filesys/inode.c:573-642 | Allocation and placement together: refused, extended or stopped, with inode, disk and free map for each. |
| FileSystems.FileSystem.ReadAt | pintos/filesys/inode.c:314-355 | Returns exactly the slice of the file's bytes, cut at end of file, and changes nothing. |
| FileSystems.FileSystem.WriteLoop | pintos/filesys/inode.c:377-400 | Writes what fits the length on disk and touches this file only. |
| FileSystems.FileSystem.WriteAt | pintos/filesys/inode.c:362-404 | A write that can grow the file leaves its old bytes zero-padded and overlaid with the buffer, and marks exactly as many sectors as the longer file needs more; without space it writes what fits; every other file keeps its bytes and all stay disjoint; all used sectors stay marked if and only if the growth was not refused or no file uses the first sectors of the device that the refusal clears; it stops the kernel if and only if the growth crosses. |
| FileSystems.FailureMarked | pintos/filesys/free-map.c:47-53 | After a failed allocation that had taken a sectors, every file's sectors are still marked if and only if no file uses one of the first a sectors. |
| FileSystems.FileSystem.Create | pintos/filesys/inode.c:196-220 | A created file is that many zeros beside untouched files, in exactly the sectors that length needs; when allocation fails nothing is written and used sectors stay marked exactly as after a failed allocation, although inode_create returns true. |
| FileSystems.EmptyIsClear | pintos/filesys/inode.c:208-213 | A new inode is all zeros but for its kind and the magic number. |
| FileSystems.ReadBack | pintos/filesys/inode.c:314-404 | What was written is read back, bytes around it are kept, a gap reads as zeros. |
| FileSystems.ExtendedFile | pintos/filesys/inode.c:372-375 | After the extension and the inode's write-back the file is its old bytes padded, with all others untouched and the map covering them. |
| FileSystems.NewFile | pintos/filesys/inode.c:208-217 | Adding a file apart from all others keeps them. |
| Lists.Sort | pintos/lib/kernel/list.c:401-440 | Leaves a well-formed doubly linked list whose interior is a sorted stable rearrangement of the old one, for every strict weak order; it ends because each repeated pass leaves fewer runs. |
| MergeSorts.SortUnique | pintos/lib/kernel/list.c:401-440 | There is only one sorted stable rearrangement, so the result is determined. |
| MergeSorts.SortDecides | pintos/lib/kernel/list.c:401-440 | Of any two elements the result puts the lesser first, and equal ones in their old order. |
| MergeSorts.MergeSorted | pintos/lib/kernel/list.c:374-399 | Merging two sorted runs gives a sorted run. |
| MergeSorts.MergeStable | pintos/lib/kernel/list.c:374-399 | And swaps only pairs whose later element is the lesser. |
| MergeSorts.RunIsSorted | pintos/lib/kernel/list.c:352-372 | A found run is sorted and ends at a descent or at the end. |
| MergeSorts.PassStable | pintos/lib/kernel/list.c:414-435 | A pass is a stable rearrangement. |
| MergeSorts.PassHalves | pintos/lib/kernel/list.c:414-435 | A pass puts out half as many runs as it found, rounded up, and leaves at most that many. |
| MergeSorts.PassProgress | pintos/lib/kernel/list.c:412-437 | A pass that puts out more than one run leaves strictly fewer; otherwise the list is sorted. |
| Lists.MergePass | pintos/lib/kernel/list.c:420-435 | The pointer pass refines the pass on sequences and counts its runs. |
| Lists.InplaceMerge | pintos/lib/kernel/list.c:374-399 | Moving elements one by one inside the list merges the two runs and keeps it well formed. |
| Lists.FindEndOfRun | pintos/lib/kernel/list.c:352-372 | Stops at the end of the longest run. |
| Lists.Splice | pintos/lib/kernel/list.c:180-204 | Within one list: moves a range in front of another element, either way. |
| Lists.SpliceInto | pintos/lib/kernel/list.c:180-204 | From one list into another: both are well formed afterwards, the range gone from the one and in front of the element of the other. |
| Lists.Relink | pintos/lib/kernel/list.c:195-203 | The six assignments change exactly the six pointers they must. |
| Lists.Rewired | pintos/lib/kernel/list.c:180-204 | Those six pointers give a well-formed list in the moved order. |
| Lists.Insert | pintos/lib/kernel/list.c:168-178 | The element is linked in at its place and the list is well formed. |
| Lists.RemoveElem | pintos/lib/kernel/list.c:247-255 | The list closes over the removed element and its successor is returned. |
| Lists.Reverse | pintos/lib/kernel/list.c:324-337 | The interior is reversed and every link is right again. |
| Lists.ReversedTwice | pintos/lib/kernel/list.c:324-337 | Reversing twice restores the list, and once turns every pair round. |
| Lists.InsertOrdered | pintos/lib/kernel/list.c:442-459 | The element goes after everything it is not less than and before the first it is less than. |
| Lists.InsertOrderedSorted | pintos/lib/kernel/list.c:442-459 | There it keeps a sorted list sorted. |
| Lists.Unique | pintos/lib/kernel/list.c:461-486 | What stays is exactly the kept neighbours; what is removed ends up at the back of the other list in order, if one is given; both lists are well formed. |
| Lists.UniqueSplits | pintos/lib/kernel/list.c:461-486 | Nothing is lost, and everything taken out equals something kept. |
| Lists.UniqueApart | pintos/lib/kernel/list.c:461-486 | Whatever the list, no two neighbours that are left are equal. |
| Lists.UniqueIncreasing | pintos/lib/kernel/list.c:461-486 | From a sorted list a strictly increasing one remains. |
| Pages.TakeKeeps | pintos/threads/palloc.c:70-101 | Handing out a free run keeps outstanding ranges disjoint, inside one pool, and the used maps exact. |
| Pages.GiveKeeps | pintos/threads/palloc.c:116-142 | An outstanding range is fully marked, and giving it back keeps the same. |
| Pages.FreshApart | pintos/threads/palloc.c:70-101 | A run of free pages meets no outstanding range. |
| Pages.WhichPool | pintos/threads/palloc.c:172-182 | Testing the first page is enough to find the pool of a whole range. |
| Pages.PageAllocator.constructor | pintos/threads/palloc.c:45-62 | Starts with nothing outstanding. |
| Pages.PageAllocator.GetMultiple | pintos/threads/palloc.c:70-101 | Gives the lowest run of free pages of the pool, or fails if and only if there is none; the range is new and disjoint from all outstanding ones. |
| Pages.PageAllocator.FreeMultiple | pintos/threads/palloc.c:116-142 | Exactly that range stops being outstanding. |
| Mallocs.LiveApart | pintos/threads/malloc.c:87-154 | Any two live blocks are disjoint, whatever their arenas. |
| Mallocs.LiveInside | pintos/threads/malloc.c:284-294 | A live block lies in its arena past the header. |
| Mallocs.BlockInside | pintos/threads/malloc.c:266-294 | A block lies in its page and its address leads back to its arena. |
| Mallocs.BlocksApart | pintos/threads/malloc.c:284-294 | Blocks of one arena do not overlap. |
| Mallocs.InitDescs | pintos/threads/malloc.c:70-85 | Seven descriptors, 16 to 1024 bytes. |
| Mallocs.WithArenaSound | pintos/threads/malloc.c:124-146 | A new arena with all its blocks listed keeps the heap sound. |
| Mallocs.PoppedSound | pintos/threads/malloc.c:148-153 | Taking a block keeps free counts equal to listed blocks and fills no arena. |
| Mallocs.PushedSound | pintos/threads/malloc.c:236-242 | Returning a block keeps the heap sound, with a count of at most all blocks. |
| Mallocs.ReleasedSound | pintos/threads/malloc.c:241-253 | Giving a full arena up keeps the heap sound. |
| Mallocs.SmallFrees | pintos/threads/malloc.c:236-253 | After a free the arena is full if and only if no other live block is left in it. |
| Mallocs.BigFrees | pintos/threads/malloc.c:257-262 | Freeing a big block disturbs no other and always gives its pages back. |
| Mallocs.BigPagesEnough | pintos/threads/malloc.c:105-119 | The 32-bit page count covers the request, or is 0, if and only if size plus header does not pass 2^32. |
| Mallocs.Allocator.constructor | pintos/threads/malloc.c:70-85 | An empty heap is sound. |
| Mallocs.Allocator.FindDesc | pintos/threads/malloc.c:100-104 | The smallest descriptor that fits, if any. |
| Mallocs.Allocator.AddArena | pintos/threads/malloc.c:124-146 | A fresh page becomes an arena with all blocks listed, or nothing changes because no page is free. |
| Mallocs.Allocator.TakeFront | pintos/threads/malloc.c:148-153 | Takes the front block and counts it. |
| Mallocs.Allocator.Malloc | pintos/threads/malloc.c:87-154 | A new live block of at least the requested size disjoint from all others, every other block keeps its size, and every arena keeps its free count exact and below full; fails if and only if size is 0 or memory is exhausted, and then changes nothing. |
| Mallocs.Allocator.MallocBig | pintos/threads/malloc.c:105-120 | The same for whole-page blocks. |
| Mallocs.Allocator.Free | pintos/threads/malloc.c:216-264 | The block is no longer live, all others are as they were, and the arena's pages go back if and only if it was the last live block there. |
| Mallocs.Allocator.GiveBack | pintos/threads/malloc.c:242-253 | Each of the arena's blocks is on the list when it is unlinked, and afterwards none is. |
| Paging.RunKeeps | pintos/vm/frame.c:34-91 | Through any run of faults, evictions, stores, loads, ticks, stack growth and page destruction, a page holds what its owner stored in it and no two swapped pages share a slot. |
| Paging.StepKeeps | pintos/vm/page.c:122-262 | Every step keeps the invariant and changes contents only as the user stores; a panic means swap was full with no free frame. |
| Paging.LoadKeeps | pintos/vm/page.c:198-262 | A fault brings the page in with its contents and moves nobody else's; it panics if and only if no frame and no slot is free. |
| Paging.EvictsToSwap | pintos/vm/frame.c:53-77 | An evicted page always goes to swap: the kernel PTE of its frame is dirty since the fill. |
| PageUse.FilePageBytes | pintos/vm/page.c:227-246 | A page of a lazily loaded segment: after any run that does not destroy it, in memory or in swap, each byte is the last one stored there, or else the file's, or zero past the file's part. |
| PageUse.FirstFault | pintos/vm/page.c:227-246 | The first fault maps the page, and its frame holds the file's bytes followed by zeros. |
| PageUse.StackIsZero | pintos/vm/page.c:121-145 | A new stack page from the page allocator is zeros. |
| PageUse.StackInherits | pintos/vm/page.c:121-145 | One that takes over a frame starts with what the evicted page held. |
| PageUse.WritableKept | pintos/vm/page.c:177-195 | Whether a page can be written is settled when it is made and never changes. |
| PageUse.MadeWritable | pintos/vm/page.c:121-195 | A segment's page can be written if and only if the segment can; a stack page always can. |
| PageUse.SlotsExactly | pintos/vm/swap.c:46-75 | Over every run from the start a swap slot is taken if and only if some page is in it: coming back from swap and destroying a page give it back. |
| PageUse.TimeOfLastUse | pintos/vm/frame.c:142-163 | While a page stays in memory, the time its frame is judged by is the last frame_tick that found it used; its accessed bit says whether it was used since, its dirty bit whether it was written. |
| PageUse.InheritsTime | pintos/vm/frame.c:37-92 | A fresh frame starts with the present time; a frame taken over keeps the evicted page's time, so that its new page is the next victim until it is found used. |
| Paging.UserBitAlone | pintos/vm/frame.c:61-68 | After coming back from swap the user PTE is clean although the contents are not the file's: the user bit alone would lose them. |
| Paging.ReplacedKeeps | pintos/vm/frame.c:53-91 | Evicting one page for another keeps everybody's contents. |
| Paging.FreshKeeps | pintos/vm/frame.c:39-51 | So does a frame from the allocator. |
| Paging.StackKeeps | pintos/vm/page.c:122-147 | A new stack page disturbs no page, whatever its uninitialized file field holds. |
| Paging.StoreKeeps | pintos/vm/page.c:198-262 | A store changes one byte of one page. |
| Paging.TickKeeps | pintos/vm/frame.c:142-163 | frame_tick changes no contents. |
| Paging.DestroyKeeps | pintos/vm/page.c:48-69 | Destroying a page frees its frame or slot and disturbs no other. |
| Paging.VictimIsOldest | pintos/vm/frame.c:123-140 | The victim is least recently accessed, the first of several. |
| Paging.FirstFree | pintos/vm/swap.c:46-64 | The slot found is free, and none is found if and only if none is free. |
| VirtualMemories.WriteDone | pintos/vm/swap.c:91-104 | A page written to its slot reads back and the other slots keep theirs. |
| VirtualMemories.VirtualMemory.constructor | pintos/vm/swap.c:28-44 | All slots free, no pages. |
| VirtualMemories.VirtualMemory.FrameToEvict | pintos/vm/frame.c:123-140 | The table walk finds the specified victim. |
| VirtualMemories.VirtualMemory.Swalloc | pintos/vm/swap.c:46-64 | Takes the first free slot. |
| VirtualMemories.VirtualMemory.Swfree | pintos/vm/swap.c:66-74 | Frees exactly one slot. |
| VirtualMemories.VirtualMemory.SwapPageWrite | pintos/vm/swap.c:91-104 | Eight sector writes replace exactly one slot. |
| VirtualMemories.VirtualMemory.SwapPageRead | pintos/vm/swap.c:76-89 | Eight sector reads return the slot. |
| VirtualMemories.VirtualMemory.Falloc | pintos/vm/frame.c:34-91 | Refines the frame step. |
| VirtualMemories.VirtualMemory.LoadPage | pintos/vm/page.c:198-262 | Refines the fault step; the page is mapped afterwards. |
| HashTables.MaskIsRemainder | pintos/lib/kernel/hash.c:304-310 | For a power of two, masking with one less takes the remainder. |
| HashTables.TurnOffKeeps | pintos/lib/kernel/hash.c:328-340 | Turning off the lowest bit shrinks a number, keeps its highest bit, and gives 0 if and only if it was a power of two. |
| HashTables.EqualInBucket | pintos/lib/kernel/hash.c:304-326 | An equal element can only be in the bucket the hash selects. |
| HashTables.InsertOk | pintos/lib/kernel/hash.c:415-421 | Inserting an element without an equal keeps placement and uniqueness and adds exactly it. |
| HashTables.RemoveOk | pintos/lib/kernel/hash.c:423-429 | Removing takes exactly that element away. |
| HashTables.ApartSame | pintos/lib/kernel/hash.c:394-410 | Rearranging elements keeps them pairwise unequal. |
| HashTables.EachOnce | pintos/lib/kernel/hash.c:199-235 | In iteration order every element stands exactly once. |
| HashTables.HashTable.constructor | pintos/lib/kernel/hash.c:22-74 | Four empty buckets. |
| HashTables.HashTable.Find | pintos/lib/kernel/hash.c:129-135 | An equal element if and only if there is one. |
| HashTables.HashTable.Insert | pintos/lib/kernel/hash.c:94-110 | Adds the element if and only if it has no equal, and leaves the best number of buckets when there is room for them. |
| HashTables.HashTable.Replace | pintos/lib/kernel/hash.c:112-127 | Replaces the equal element, if any, and leaves the best number of buckets when there is room for them. |
| HashTables.HashTable.Delete | pintos/lib/kernel/hash.c:137-154 | Removes the equal element, if any, and then leaves the best number of buckets when there is room for them. |
| HashTables.HashTable.BestBucketCnt | pintos/lib/kernel/hash.c:364-372 | A power of two, at least 4, the largest not above half the element count. |
| HashTables.HashTable.Rehash | pintos/lib/kernel/hash.c:347-413 | Keeps the elements and leaves the best number of buckets, or when there is no room everything as it was. |
| HashTables.HashTable.MoveBucket | pintos/lib/kernel/hash.c:394-410 | Each element goes to the bucket its hash selects. |
| HashTables.HashIterator.constructor | pintos/lib/kernel/hash.c:199-208 | Starts before the first element. |
| HashTables.HashIterator.Next | pintos/lib/kernel/hash.c:218-235 | The k-th call returns the k-th element, skipping empty buckets, then none. |
| Arithmetic.Udiv64 | pintos/lib/arithmetic.c:75-127 | Returns floor(n/d) for all 64-bit n and nonzero d, and traps if and only if d is 0. |
| Arithmetic.WideEstimate | pintos/lib/arithmetic.c:115-125 | For a divisor over 32 bits the DIVL does not trap and the shifted quotient is the true one or one more. |
| Arithmetic.LongDivision | pintos/lib/arithmetic.c:80-112 | For a short divisor the two-step division does not trap and is exact. |
| Arithmetic.Corrected | pintos/lib/arithmetic.c:124 | Comparing n - (q-1)d with d, without wrap-around, picks the true quotient. |
| Arithmetic.Nlz | pintos/lib/arithmetic.c:39-73 | The shift that brings the top bit to the top of the word. |
| Arithmetic.Umod64 | pintos/lib/arithmetic.c:129-135 | The low 32 bits of n mod d. |
| Arithmetic.UmodRight | pintos/lib/arithmetic.c:129-135 | That is n mod d for every n if and only if d is at most 2^32. |
| Arithmetic.Sdiv64 | pintos/lib/arithmetic.c:137-146 | Truncated division brought back into 64 bits. |
| Arithmetic.SdivRight | pintos/lib/arithmetic.c:137-146 | That is the truncated quotient if and only if it is not INT64_MIN / -1. |
| Arithmetic.Smod64 | pintos/lib/arithmetic.c:148-154 | The signed remainder brought back into 32 bits. |
| Arithmetic.SmodRight | pintos/lib/arithmetic.c:148-154 | That is the remainder for every n if and only if the divisor's size is at most 2^31. |
| HeapSorts.Sort | pintos/lib/stdlib.c:125-152 | A sorted permutation for every array and total preorder. |
| HeapSorts.Heapify | pintos/lib/stdlib.c:93-123 | The loop refines floating the element down. |
| HeapSorts.SiftHeaps | pintos/lib/stdlib.c:93-123 | Floating down restores the heap from a single violation at any index. |
| HeapSorts.SiftSame | pintos/lib/stdlib.c:93-123 | It only rearranges the first n elements. |
| HeapSorts.RootIsLargest | pintos/lib/stdlib.c:143-151 | The root of a heap is its largest element. |
| HeapSorts.ExtractMax | pintos/lib/stdlib.c:147-151 | Moving the root behind the heap keeps the sorted part sorted and leaves one violation. |
| HeapSorts.BuildHeap | pintos/lib/stdlib.c:143-145 | The first loop builds a heap. |
| HeapSorts.DoSwap | pintos/lib/stdlib.c:64-79 | Exchanges two elements. |
| HeapSorts.BinarySearch | pintos/lib/stdlib.c:172-207 | Finds an equal element if and only if there is one in a sorted array. |
| Ustar.RoundTrip | pintos/lib/ustar.c:75-227 | Parsing a composed header gives back the stripped name, the type and the size (0 for a directory); a regular file is refused if and only if its size is negative; composing fails if and only if the stripped name is over 99 bytes. |
| Ustar.OneByteDetected | pintos/lib/ustar.c:35-54 | Changing any one byte outside the checksum field makes an accepted header unacceptable. |
| Ustar.ParsedSafe | pintos/lib/ustar.c:181-227 | No header yields a name that is empty or ".." or starts with "/", "./" or "../", or a size that is not an int; the name stays inside the directory if and only if no beginning of it has more ".." than names. |
| Ustar.InsideExactly | pintos/lib/ustar.c:56-73 | Walking a name from any directory but the root never leaves that directory if and only if no beginning of the name has more ".." than names. |
| Ustar.FirstIsNotUp | pintos/lib/ustar.c:56-73 | The first component of a stripped name is never "..". |
| Ustar.OneUpAtMost | pintos/lib/ustar.c:56-73 | A stripped name with no ".." after its first component stays inside. |
| Ustar.ClimberLeads | pintos/lib/ustar.c:56-73 | "a/../../b" is left as it is and leads out of every directory but the root. |
| Ustar.ClimberParsed | pintos/lib/ustar.c:75-227 | A header that ustar_make_header composes from it is accepted and gives it back. |
| Ustar.StripSafe | pintos/lib/ustar.c:56-73 | Stripping is idempotent and leaves nothing to strip. |
| UstarFormats.StripExactly | pintos/lib/ustar.c:56-73 | Stripping takes whole components off the front, each empty, "." or "..", until the rest does not start with one and a slash; the result is the rest, or "." if and only if that is empty or "..". |
| UstarFormats.KeepsOrdinary | pintos/lib/ustar.c:56-73 | Everything from the first ordinary component on is kept and nothing before it; a name that starts with one comes back unchanged. |
| UstarFormats.FieldExactly | pintos/lib/ustar.c:120-162 | A field is accepted if and only if it is octal digits, at least one, then a space or a null, and the number fits 32 bits; that number is the result. |
| UstarFormats.ChecksumExactly | pintos/lib/ustar.c:35-54 | A clear header sums to that of eight spaces; a byte outside the field counts as itself, one inside not at all. |
| UstarFormats.HeaderFields | pintos/lib/ustar.c:10-118 | Every field of a composed header, at its offset: name, mode 0644 or 0755, owner and group 0, size, time, checksum, type, magic, version, names, and zeros between. |
| UstarFormats.CStringExactly | pintos/lib/ustar.c:181-227 | A name ends at its first null. |
| UstarFormats.ParseExactly | pintos/lib/ustar.c:175-227 | A header is accepted if and only if magic, version, checksum, name length, type and size are in order; name, type and size come from their fields; the end of the archive is exactly the clear header. |
| Ustar.OctalReads | pintos/lib/ustar.c:120-162 | A number printed with leading zeros into its field reads back. |
| Ustar.SummedChecksum | pintos/lib/ustar.c:35-54 | Filling the checksum in does not change it, because its field counts as spaces. |
| Ustar.StripPrefixes | pintos/lib/ustar.c:56-73 | The loop refines stripping. |
| Ustar.FormatOctal | pintos/lib/stdio.c:469-547 | Collecting digits from the lowest and writing them backwards with zero padding prints the octal number. |
| Ustar.ParseOctalField | pintos/lib/ustar.c:120-162 | The loop refines octal parsing, overflow, empty and unterminated fields refused. |
| Ustar.CalculateChksum | pintos/lib/ustar.c:35-54 | The loop computes the sum with the field as spaces. |
| Ustar.MakeHeader | pintos/lib/ustar.c:75-118 | The buffer filled field by field is the specified header, and is untouched when the name is too long. |
| Ustar.ParseHeader | pintos/lib/ustar.c:175-227 | Refines parsing, with the checks in their order. |

## Left out

- Context switching, interrupt entry, device drivers, boot and shutdown: hardware. DIVL and the atomic OR and AND on bitmap words are specified primitives.
- Locks around the cache, the page table, the frame table, the pools and the malloc descriptors: these operations are single steps, so the documented races (the copy outside the cache lock, eviction writing a page before unmapping it) are not modelled.
- Walks over the ready list and over a condition's waiters with interrupts on: each is one step, so a list that changes under the walk is not modelled.
- The read-ahead and write-behind threads of the cache: they call operations that are modelled.
- FileSystems.FileSystem.ExtendInode: the file that holds the free map is not on the modelled disk, so the sectors free_map_allocate writes there do not appear among its effects; whether that write succeeds is a parameter.
- FreeMaps.FreeMap.Release: does not model the write of the map to its file, whose result the source ignores.
- SchedulerProofs.SleepKeeps: runs take timer_sleep as one step, because a tick inside it can corrupt the lists; SleepWindow says exactly when.
- ThreadKernel.ThreadSystem.TimerSleep: as SchedulerProofs.SleepKeeps.
- Memory shortage for the kernel's own temporary buffers, list entries and page tables: always found, except where the source hands the failure on (malloc, rehash, palloc).
- inode_read_at and inode_write_at compute byte_to_sector before they look at the length and then do not use it past the end of file; the model looks the sector up only when it is used.
- Files over 16524 blocks: more than the index blocks can name, which the source does not check.
- inode_close, inode_remove and the freeing of an inode's sectors.
- Directories, paths, file descriptors, system calls, ELF loading, process exit and wait.
- The open-inode table.
- page_free and short reads while loading a page: they give up frames and slots in ways the rest does not expect.
- cond_broadcast: it repeats cond_signal.
- lock_try_acquire on a lock already held, double release and other calls the source rules out by assertion.
- list_max and list_min.
- calloc, realloc and the clearing of freed memory: contents of heap memory are not modelled.
- hash_apply, hash_clear with a destructor, and the hash functions themselves: any function that agrees on equal elements will do.
- Ustar.FormatOctal: models format_integer for the zero-padded unsigned octal conversion only, which is the one the headers use.
- thread_set_nice checks no range; the bounds of Mlfqs.RunKeeps are for nice values in -20..20.
