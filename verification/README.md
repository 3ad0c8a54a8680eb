# A verified model of the novino kernel's core

Novino is a small x86-64 kernel. This project models the parts of it whose correctness is decided
by many small in-place updates, and proves what those updates keep over every run:

* **Memory.** The frame bitmap with its search hint (`Pmm.dfy`), the four-level page tables reached
  through recursive slot 510 (`Paging.dfy`, `Vmm.dfy`), and the boundary-tag kernel heap
  (`Heap.dfy`).
* **Scheduling.** The nine-slot run queue (`RunQueue.dfy`), the blocking protocol between cores, wait
  queues, signals and the switch (`Blocking.dfy`), the mutex with direct hand-off (`Mutex.dfy`), and
  the timer list (`Timers.dfy`).
* **Names.** Path cleaning (`Path.dfy`), the cache of directory entries (`Dcache.dfy`,
  `DcacheMove.dfy`), who uses a dentry (`FileRefs.dfy`), and the file operations on both (`Vfs.dfy`).
* **Files.** The ext2 count of pointer blocks (`BlockDist.dfy`), the pointer tree and its growth
  (`BlockTree.dfy`), the bytes of a file (`FileData.dfy`), and the per-operation block cache
  (`BlockCache.dfy`).
* **Network.** IPv4 fragmentation and reassembly, section 3.2 of RFC 791 (`Ipv4.dfy`).
* **Lists.** The intrusive doubly linked list (`Lists.dfy`) refines a sequence; the other modules use
  sequences.

`Arith.dfy` and `Prelude.dfy` hold shared facts about products, quotients and lists. `Environment.dfy` holds
the answers of devices, drivers and the memory allocator: an operation is given all answers it will get, whatever
they are, and its status is stated by them.

Objects that the kernel updates in place are classes. Memory that is reached by address (page tables,
heap headers, pointer blocks, dentries) is a map from addresses to contents. Protocols between several
cores are state machines. A step is one critical section, or one write where the code holds no lock; a
theorem about a run is about every interleaving of such steps.

## What turned out not to hold

* `thread_exit` sets the state and then enters the list of dead threads, without a lock. If the core is
  switched in between, the thread is on no list at all (`Blocking.ExitPreempted`) and is never freed
  (`Blocking.LostForever`).
* `thread_sleep` starts its timer, then sets the state, then leaves the core. A timer that fires before the
  core is left queues a thread that still runs (`Blocking.SleepTimerTooEarly`); a switch before the state is
  set lets the timer queue the thread a second time (`Blocking.SleepPreempted`).
* `schedule_handler` puts a preempted thread back on a run queue before it releases the thread's lock, clears
  the pointer to it and clears the yield flag. Another core may run the thread into a new wait by then, and
  the late writes undo what that wait relies on (`Blocking.LateRelease`, `Blocking.LateForget`,
  `Blocking.LateClear`). Two cores may release one lock (`Blocking.ReleasedTwice`), and a lock whose pointer
  is lost is never free again (`Blocking.StuckForever`).
* `thread_idle_cleaning` frees a dead thread as soon as its yield flag is clear, while it is still the current
  thread of the core that has left it (`Blocking.ReapedCurrent`).
* `wq_interrupt` reads which queue a thread is in before it takes that queue's lock
  (`Blocking.StaleInterrupt`).
* These are all at the size of step used here, in which a critical section is one step:
  `Blocking.SafeBlocking` proves, over every run, that threads block and wake safely if and only if no step
  comes at one of these moments, each of which is a condition on the state before the step.
* `acquire_mutex` sets the yield flag in order to sleep and then looks at it again. A switch that ends late may
  clear the flag in between (`Blocking.ClearedMark`); the caller then returns 0 although another thread is
  inside (`Mutex.TwoInside`). `Mutex.MutualExclusion` proves, over every run, that at most one thread owns the
  mutex if and only if this does not happen.
* `vfs_clean_path` promises to resolve `..` parts that do not cross the start. A blank part (empty or
  `.`) clears the flag that says the last part was `..`, so the next `..` then takes back a `..` already
  written instead of adding one: `.././..` is cleaned to the start itself (`Path.SlippingExample`).
  `Path.RelativeMeaning` gives the exact condition, for all paths. Absolute paths are not affected
  (`Path.AbsoluteMeaning`).
* `ext2_blocks_dist` does not count back for the upper end of the double-indirect range
  (`BlockDist.NotReversible`). `BlockDist.BlocksDist` states exactly for which sizes it does.
* `heap_sbrk` may grow the heap part of the way and then fail (`Heap.HalfwayExample`); the heap is then left
  without a rear guard (`Heap.GuardLost`). `Heap.KernelHeap.Expand` and `Heap.KernelHeap.Run` prove that
  this is the only way a failed allocation harms the heap. Sizes within 47 bytes of 2^64 wrap
  (`Heap.TooLarge`, `Heap.LargestIsExact`).
* `timer_tick` compares signed differences (`Timers.FarDeadlineFires`). `Timers.SignedDifference` states
  exactly when this is the order of the deadlines, and `Timers.TimerList.TimerTick` exactly when the right
  timers fire. A deadline of exactly 2^64 wraps to 0, which stands for "none" (`Timers.LostDeadline`,
  `Timers.TimerList.TimerStart`).
* `pmm_alloc_frames` multiplies in 32 bits: of a run of 2^20 frames or more it takes only the remainder, and of
  2^20 frames none (`Pmm.HugeRunStaysFree`); an alignment of a multiple of 2^20 frames makes it divide by 0.
  `Pmm.FrameBitmap.AllocFrames` has the exact effect. Frame numbers have 32 bits: they are right if and only
  if the region ends at or below 2^44 (`Pmm.FramesExact`), and the page at 2^44 is taken for page 0
  (`Pmm.HighRegion`).
* `ipv4_send` stores offsets in 13 bits, too few for 66601 bytes in fragments of 1480
  (`Ipv4.OffsetsDoNotFit`). `Ipv4.Send` states exactly when the fragments are the right ones.
* `ipv4_fragment_assemble` trusts the offsets it receives: fragments of different payloads can complete a
  datagram without fitting into it (`Ipv4.CompleteWithoutFitting`). `Ipv4.Receiver.FragmentAssemble` states
  exactly when the copies overwrite bytes behind the buffer.
* After an error `ext2_blocks_alloc` has lowered the count of free blocks in the superblock, which is not part
  of the cache that is thrown away. The count is not part of the model.

## Assumptions

* Frame 0 is never free: address 0 is the failure value of the frame allocator.
* A file system changes only through the operations modelled here, and its directories form a tree.
* `ext2_blocks_alloc` returns some run of 1 to `count` free blocks if there is a free block and the device answers.
* Interrupts are off while a wait-queue lock is held, so its owner is not switched out. What is done under a
  lock is one step, and so are appending to a run queue and each read or write that makes up a switch.
* The blocks of an ext2 operation that went well reach the disk; `BlockCache.Context.Free` says what a device
  that refuses writes leaves.
* Answers of devices, of the memory allocator and of file-system drivers are parameters, and any sequence of
  good and bad ones is allowed. A driver that fails reports `-EIO`.
* The kernel's own page tables are not among the frames that are handed out.

## Model

| member | source | states |
|---|---|---|
| Pmm.FrameBitmap.constructor | kernel/mem/pmm.c:211-227 | an empty bitmap: nothing free, count 0, hint valid |
| Pmm.FrameBitmap.FreeFrame | kernel/mem/pmm.c:22-47 | the frame, by its 32-bit number, joins the free set; count and hint stay exact; a frame outside the bitmap is ignored |
| Pmm.FrameBitmap.SetFrame | kernel/mem/pmm.c:49-69 | the frame leaves the free set, whether it was free or not |
| Pmm.FrameBitmap.AllocFrame | kernel/mem/pmm.c:71-89 | takes the lowest free frame; 0 only if there is none |
| Pmm.FrameBitmap.ScanWord | kernel/mem/pmm.c:113-143 | one word of the run search: goes on with the run so far, or has found the lowest one |
| Pmm.FrameBitmap.AllocFrames | kernel/mem/pmm.c:91-147 | takes the lowest run of free frames at a multiple of the alignment if there is one, else nothing; the exact effect of the 32-bit products, and exactly when it divides by 0 |
| Pmm.FrameBitmap.SetAvailable | kernel/mem/pmm.c:149-176 | gives back exactly the frames that lie wholly in the region, as far as the bitmap knows them, with sums modulo 2^64; regions below 1 MiB are ignored |
| Pmm.FrameBitmap.SetReserved | kernel/mem/pmm.c:178-199 | takes exactly the frames that the region touches, with sums modulo 2^64 |
| Pmm.FramesExact | kernel/mem/pmm.c:13-32 | the 32-bit frame numbers of a region are its page numbers if and only if it ends at or below 2^44 |
| Pmm.HighRegion | kernel/mem/pmm.c:13-32 | the page at 2^44 is taken for page 0 |
| Pmm.HugeRunStaysFree | kernel/mem/pmm.c:91-147 | of a run of a multiple of 2^20 frames the address is returned and nothing is taken |
| Pmm.NoRunAtEnd | kernel/mem/pmm.c:91-147 | a search that reaches the end without a full run proves that no aligned run exists |
| Paging.TableAddresses | kernel/mem/vmm.c:146-160 | the addresses built from slot 510 carry the indices of the original address, shifted by one level each |
| Paging.ChildIndices | kernel/mem/vmm.c:111-144 | the shift by nine turns a table's address into the address of the table behind one of its entries |
| Paging.ChildTranslates | kernel/mem/vmm.c:111-144 | the address shifted by nine translates to the table behind that very entry, for every address and every memory |
| Paging.RecursiveMappingIsExact | kernel/mem/vmm.h:31-34 | for every address, the hardware walk translates each table address to the very table that the walk of the original address visits |
| Vmm.Visible | kernel/mem/vmm.c:146-231 | every table a space owns appears at the virtual address the code computes for it |
| Vmm.UserTranslate | kernel/mem/vmm.c:146-231 | the hardware translates a user address exactly when its page table is owned and its entry present, and to that frame |
| Vmm.FreeDetermined | kernel/mem/vmm.c:495-523 | who owns what fixes the free set, so a leak or a double free cannot hide |
| Vmm.EntryOthersSame | kernel/mem/vmm.c:363-461 | writing one page entry changes the translation of its own address only |
| Vmm.TableAllSame | kernel/mem/vmm.c:59-73 | linking an empty table changes no translation |
| Vmm.SpaceAllSame | kernel/mem/vmm.c:495-514 | a new top table changes no translation and has none |
| Vmm.KernelEverywhere | kernel/mem/vmm.c:495-514 | in every state of the machine, every kernel address translates in every space as it did for the kernel at the start, large pages included |
| Vmm.ModeOfPage | kernel/mem/vmm.c:59-231 | a mapped page of a space can be reached from user mode if and only if the kernel's top entry above it says so, through all four levels |
| Vmm.AddressSpaces.MakeTable | kernel/mem/vmm.c:59-73 | links and clears a fresh table through the recursive mapping; out of memory changes nothing |
| Vmm.AddressSpaces.GetPage | kernel/mem/vmm.c:146-231 | finds or makes the page table; only tables of the current space are added; no user address of any space translates differently; failure means no frame is left |
| Vmm.AddressSpaces.AllocPage | kernel/mem/vmm.c:363-391 | success maps a frame that was free and is now owned at that address only, with the mode of the top entry; a mapped address is refused; any other failure means no frame is left, and the status tells whether the page table is there; every other address of every space translates as before |
| Vmm.AddressSpaces.MapPage | kernel/mem/vmm.c:393-413 | success translates to the given frame without owning it, with the mode of the top entry; a mapped address is refused; any other failure means no frame is left; every other address of every space translates as before |
| Vmm.AddressSpaces.FreePage | kernel/mem/vmm.c:439-461 | the address is unmapped and exactly an owned frame goes back; fails exactly when nothing was mapped; every other address of every space translates as before |
| Vmm.AddressSpaces.CreateUserSpace | kernel/mem/vmm.c:495-514 | a new top table that maps itself, translates no user address, and translates every address of the kernel half as the kernel does; other spaces translate as before; 0 exactly when no frame is free |
| Vmm.AddressSpaces.FreeRecurse | kernel/mem/vmm.c:111-144 | by 64-bit addresses through the recursive slot: frees exactly the frames below a table, each once, and never reads a table whose frame is free |
| Vmm.AddressSpaces.FreeSlot | kernel/mem/vmm.c:111-144 | one entry: what hangs below it is freed through the shifted address, then the frame it points to |
| Vmm.AddressSpaces.DestroyUserSpace | kernel/mem/vmm.c:516-523 | everything the space owned is free again and nothing else |
| Vmm.AddressSpaces.Lifetime | kernel/mem/vmm.c:363-523 | create, any sequence of alloc, map and free with failures midway, destroy: ownership, the free set and the translations of all other spaces are exactly what they were, and the kernel half is the kernel's all along |
| Heap.Tiling | kernel/mem/heap.c:289-327 | every byte between the guards lies in exactly one chunk |
| Heap.LiveBlocksApart | kernel/mem/heap.c:202-238 | a live block is 16-aligned, lies between the guards and overlaps no other chunk |
| Heap.WritesMissLive | kernel/mem/heap.c:21-107 | headers and list pointers, all that the allocator writes, lie outside the data of every live block |
| Heap.EverythingFreed | kernel/mem/heap.c:259-282 | with nothing allocated the heap is one free chunk |
| Heap.GuardLost | kernel/mem/heap.c:109-141 | after the end of the heap has moved without a new rear guard, no set of chunks makes the headers consistent |
| Heap.NeverHalfway | kernel/mem/heap.c:109-141 | when all pages or none can be mapped, a failed growth has not moved the end |
| Heap.HalfwayExample | kernel/mem/heap.c:109-141 | a request for a second MiB with one page left grows the heap by that page and fails |
| Heap.LargestIsExact | kernel/mem/heap.c:143-150 | the heap is asked for the rounded size and a header if and only if the size is at most 2^64 - 48; beyond it is asked for less than the request |
| Heap.TooLarge | kernel/mem/heap.c:143-150 | for 2^64 - 47 bytes the heap is asked for nothing |
| Heap.AlignSbrkByDivision | kernel/mem/heap.c:109-141 | the rounding used is the masked one of the code |
| Heap.KernelHeap.constructor | kernel/mem/heap.c:289-327 | two guards and one free chunk between them |
| Heap.KernelHeap.InsertFreeChunk | kernel/mem/heap.c:21-34 | the chunk becomes the head of the free list and is marked free |
| Heap.KernelHeap.RemoveFreeChunk | kernel/mem/heap.c:36-54 | the chunk leaves the list wherever it is, and is marked used |
| Heap.KernelHeap.SplitChunk | kernel/mem/heap.c:56-77 | the rest is cut off if a header and a minimal piece fit; the tags stay consistent |
| Heap.KernelHeap.GlueChunk | kernel/mem/heap.c:79-107 | joins free neighbours on the sides asked for; no two free neighbours remain |
| Heap.KernelHeap.Sbrk | kernel/mem/heap.c:109-141 | grows by exactly the whole pages that can be mapped, up to the next MiB, or not at all if the window is too small; 64-bit sums that wrap included |
| Heap.KernelHeap.Expand | kernel/mem/heap.c:143-181 | succeeds exactly if enough was mapped; after a failure the heap is valid if and only if its end has not moved |
| Heap.KernelHeap.FindFreeChunk | kernel/mem/heap.c:183-200 | the first fitting chunk in list order, or one made by growing; none only if nothing fits |
| Heap.KernelHeap.Kmalloc | kernel/mem/heap.c:202-238 | one fresh block, aligned, large enough and less than 64 bytes larger, becomes live and no other live block changes; it is the first fit in list order if there is one; failure only if nothing fits and the heap cannot grow enough, and it changes no block |
| Heap.KernelHeap.Kfree | kernel/mem/heap.c:259-282 | exactly this block stops being live; pointers outside the heap are ignored |
| Heap.KernelHeap.Run | kernel/mem/heap.c:202-282 | every run of allocations and frees keeps the invariant up to the first growth that stops half-way, and only such a growth ends it; when all is freed there is one free chunk |
| RunQueue.CountFindsThread | kernel/sched/scheduler.c:74-118 | a positive count means the slot scan ends within nine probes, and only then |
| RunQueue.AppendNeverHitsCurrentSlot | kernel/sched/threads.c:66-83 | appending never changes the slot being served |
| RunQueue.FateIsRight | kernel/sched/scheduler.c:74-118 | only a dispatch from its slot moves a waiting thread, by one place, and it runs when the index is its slot |
| RunQueue.WaitIsBounded | kernel/sched/scheduler.c:74-118 | while a thread waits, standard dispatches are bounded by its rank |
| RunQueue.RanMeansDispatched | kernel/sched/scheduler.c:74-118 | a thread counted as run has been dispatched at some point of the run, from its own slot |
| RunQueue.NoStarvation | kernel/sched/scheduler.c:74-233 | with at most n standard threads queued, every one of them is dispatched within 9n standard dispatches, whatever else is queued |
| RunQueue.ServedAfterMaxCountSlots | kernel/sched/scheduler.c:191-233 | a thread queued while slot i is served goes to slot i + 8, 4 or 2 modulo 9 by its priority, waits while the index moves on from i, and is dispatched when it stands there |
| RunQueue.HigherFirst | kernel/sched/scheduler.c:74-233 | of two standard threads queued one after the other, in either order, the one of higher priority has been dispatched before the other, in every run; of two of one priority, the earlier one |
| RunQueue.ServedInOrder | kernel/sched/scheduler.c:74-233 | of two waiting threads the one whose place the index reaches first has been dispatched before the other, in every run |
| RunQueue.QueuesInOrder | kernel/sched/scheduler.c:74-118 | at every dispatch of every run: a standard thread only when no real-time thread is queued, a background thread only when no other is, and nothing only when nothing is queued |
| RunQueue.RealtimeFifo | kernel/sched/scheduler.c:74-233 | over every run: real-time threads dispatched and then those still queued are those queued before and then those that came, in order |
| RunQueue.BackgroundFifo | kernel/sched/scheduler.c:74-233 | the same for background threads |
| RunQueue.Core.constructor | kernel/sched/scheduler.c:322-354 | empty queues, index and count 0 |
| RunQueue.Core.PopStandard | kernel/sched/scheduler.c:88-102 | the scan takes the head of the nearest non-empty slot |
| RunQueue.Core.SchedulerNext | kernel/sched/scheduler.c:74-118 | real-time before standard before background before the idle thread, with the tick count of each |
| RunQueue.Core.SchedulerAppend | kernel/sched/scheduler.c:191-233 | queues real-time and background threads last in their queues and a standard one 8, 4 or 2 slots ahead; asks for preemption exactly when the new thread outranks the running one |
| RunQueue.Select | kernel/sched/scheduler.c:155-189 | a core that is ready for the thread if there is one, else one of least load |
| Blocking.WaitKeeps | kernel/sched/wq.c:43-72 | going to sleep hands the queue lock to the switch |
| Blocking.TakenOutKeeps | kernel/sched/wq.c:93-141 | a thread taken out of a wait queue has its context saved |
| Blocking.InterruptKeeps | kernel/sched/wq.c:118-141 | an interrupt takes the thread out of the queue it was seen in, or changes nothing if it has left |
| Blocking.SaveKeeps | kernel/sched/scheduler.c:248-262 | a preempted thread goes back on a run queue, a blocked one stays where it put itself; neither executes any more |
| Blocking.DropLockKeeps | kernel/sched/scheduler.c:264-266 | the lock that travels with a thread is released only after its context is saved |
| Blocking.ForgetLockKeeps | kernel/sched/scheduler.c:264-268 | the pointer to a lock is cleared only when nobody needs it to release the lock |
| Blocking.ClearKeeps | kernel/sched/scheduler.c:270 | a cleared yield flag means that the thread has left its core |
| Blocking.PickKeeps | kernel/sched/scheduler.c:235-320 | a core only takes up a thread whose context is saved |
| Blocking.BuryKeeps | kernel/sched/threads.c:85-96 | an exiting thread enters the dead list and is nowhere else |
| Blocking.ReapKeeps | kernel/sched/threads.c:206-234 | a dead thread is freed only when no core is still on it, or has it as its current thread |
| Blocking.StepKeeps | kernel/sched/threads.c:85-166 | every step of every thread, waker, timer and core keeps the invariant, unless it comes at one of the wrong moments |
| Blocking.StepSlips | kernel/sched/threads.c:85-204 | a step at one of the wrong moments always breaks safety |
| Blocking.ExactlyOnePlace | kernel/sched/scheduler.c:191-320 | a thread is in exactly one of: a core, a run queue, a wait queue, blocked on a signal or timer, the dead list, freed |
| Blocking.InvIsSafe | kernel/sched/scheduler.c:235-320 | one place each and there once; a queued thread is saved and not executed; no two cores execute one thread; locks and flags guard what they should; every lock on its way through a switch will be released, once |
| Blocking.SafeBlocking | kernel/sched/wq.c:43-141 | over every run: safe throughout if and only if no step comes at a wrong moment (exit or sleep switched half-way, timer before the core is left, late end of a switch, reaper before the core has another thread, stale interrupt) |
| Blocking.BootedIsSafe | kernel/sched/scheduler.c:322-354 | the state at boot satisfies the invariant |
| Blocking.WokenInOrder | kernel/sched/wq.c:43-111 | over every run in which nobody is interrupted: the threads woken from a queue and then those still in it are those who were in it and then those who came, in the same order |
| Blocking.SignalBeforeWait | kernel/sched/threads.c:103-166 | over every run: a thread is blocked by its next wait if and only if no signal was left and none is sent before it; the wait uses the signal up |
| Blocking.SignalAfterWait | kernel/sched/threads.c:103-166 | over every run: a thread that waits is let go by the first signal and by nothing else |
| Blocking.ExitPreempted | kernel/sched/threads.c:85-96 | from every state in which a thread can exit, a switch between state and list leaves it nowhere |
| Blocking.LostForever | kernel/sched/threads.c:206-234 | such a thread is never found again, in any run |
| Blocking.SleepTimerTooEarly | kernel/sched/threads.c:168-204 | from every state in which a thread can sleep, a timer before the switch queues it while it runs |
| Blocking.SleepPreempted | kernel/sched/threads.c:168-204 | from every such state, a switch between timer and state lets the timer queue the thread twice |
| Blocking.LateRelease | kernel/sched/scheduler.c:258-268 | a switch that ends late releases a wait-queue lock while the sleeper still executes |
| Blocking.ReleasedTwice | kernel/sched/scheduler.c:264-268 | two cores that found one lock at one thread: the second releases it under its new holder |
| Blocking.LateForget | kernel/sched/scheduler.c:264-268 | a switch that ends late clears the lock pointer of the next wait: the lock is known to nobody |
| Blocking.StuckForever | kernel/sched/scheduler.c:264-268 | such a queue never changes again, in any run |
| Blocking.LateClear | kernel/sched/scheduler.c:258-270 | a switch that ends late clears the flag of the next wait while the thread still executes |
| Blocking.ClearedMark | kernel/sched/mutex.c:35-73 | a switch that ends late clears the flag between the two looks of acquire_mutex: a run that blocks safely and yet does not block |
| Blocking.ReapedCurrent | kernel/sched/threads.c:206-234 | from every state with a dead thread whose switch is at the flag, it can be freed while it is the current thread of that core |
| Blocking.StaleInterrupt | kernel/sched/wq.c:118-141 | an interrupt aimed at a queue the thread has left for another one queues it while it executes, and that queue loses count |
| Mutex.MutexObject.WqLock | kernel/sched/wq.c:15-31 | re-entrant lock: the count goes up by one |
| Mutex.MutexObject.WqUnlock | kernel/sched/wq.c:33-41 | the count goes down; at zero the lock is free |
| Mutex.MutexObject.WqWait | kernel/sched/wq.c:43-63 | the thread is queued last and the lock, with no count left, goes to the switch |
| Mutex.MutexObject.WqWakeOne | kernel/sched/wq.c:93-111 | the first waiter leaves the queue; the lock count is what it was |
| Mutex.MutexObject.WqInterrupt | kernel/sched/wq.c:118-141 | exactly the given waiter leaves the queue and is flagged; a thread that does not wait is not flagged |
| Mutex.MutexObject.Mark | kernel/sched/mutex.c:35-61 | the first half: under the queue lock, the mutex taken or the yield flag set |
| Mutex.MutexObject.AcquireMutex | kernel/sched/mutex.c:35-73 | takes a free mutex, else returns busy, sleeps, or, if the flag is cleared before it is tested, returns 0 without the mutex; the nested lock counts balance on every path |
| Mutex.MutexObject.ReleaseMutex | kernel/sched/mutex.c:75-88 | hands the mutex to the first waiter, or frees it |
| Mutex.MutualExclusion | kernel/sched/mutex.c:35-88 | over every run: one owner at most if and only if no yield flag is cleared between the two looks at it; then free exactly when nobody owns it, waiters only while it is owned |
| Mutex.StepSlips | kernel/sched/mutex.c:59-66 | a flag cleared at that moment always makes a second owner |
| Mutex.TwoInside | kernel/sched/mutex.c:35-73 | from every state with one thread inside, and another one outside that a core has not finished leaving, both get inside |
| Mutex.ToldTheTruth | kernel/sched/wq.c:62-141 | over every run, late clears included: a waiter that runs again gets 0 if and only if a release handed it the mutex, if and only if it owns it; -EINTR if and only if it was interrupted |
| Mutex.StaysInterrupted | kernel/sched/wq.c:118-141 | over every run: an interrupted waiter does not own the mutex until its call has returned |
| Mutex.StaysOwner | kernel/sched/mutex.c:75-88 | over every run: a waiter that was handed the mutex owns it until it runs |
| Mutex.Fifo | kernel/sched/mutex.c:75-88 | while one thread waits, none queued behind it gets the mutex, over every run in which its own flag is not cleared at the wrong moment |
| Timers.SignedDifference | kernel/time/timer.c:10-58 | the 64-bit comparison is right if and only if the difference does not overflow |
| Timers.FarDeadlineFires | kernel/time/timer.c:10-58 | at time 0 a deadline of 2^63 + 500001 counts as passed |
| Timers.InsertedSorted | kernel/time/timer.c:60-104 | insertion keeps the list sorted |
| Timers.LostDeadline | kernel/time/timer.c:60-104 | a deadline of exactly 2^64 comes first and is always due, but next_deadline becomes 0 |
| Timers.DueAreInFront | kernel/time/timer.c:10-58 | in a sorted list the due timers are exactly the counted front |
| Timers.PassedIsDue | kernel/time/timer.c:10-58 | the timers that count as passed are the due ones if and only if the clock is near every deadline looked at |
| Timers.TimerList.TimerStart | kernel/time/timer.c:60-104 | sorted insertion behind equal deadlines, sums modulo 2^64, next_deadline exact unless the deadline wraps to 0; without a callback an error |
| Timers.TimerList.TimerTick | kernel/time/timer.c:10-58 | fires the longest front of the list that counts as passed, the early returns skip none; these are exactly the timers due within 500 microseconds if and only if the clock is near every deadline looked at |
| Timers.TimerList.TimerCancel | kernel/time/timer.c:106-125 | exactly this timer leaves the list |
| Timers.FiresAtFirstDueTick | kernel/time/timer.c:10-125 | by the signed test of the code, while the clock is near the deadlines looked at: a timer stays pending through exactly the runs without a tick at which it is due |
| Lists.List.Insert | kernel/main/lists.c:16-40 | the item becomes the first |
| Lists.List.InsertAfter | kernel/main/lists.c:42-67 | the item comes right after the given one |
| Lists.List.InsertBefore | kernel/main/lists.c:69-94 | the item comes right before the given one |
| Lists.List.Append | kernel/main/lists.c:96-120 | the item becomes the last |
| Lists.List.Remove | kernel/main/lists.c:122-166 | exactly this item leaves; false and no change if it is in no list |
| Lists.List.Pop | kernel/main/lists.c:168-199 | the first item leaves; null from an empty list |
| Lists.List.Iterate | kernel/main/lists.c:206-217 | following the links visits the sequence in order |
| Ipv4.Send | kernel/net/ipv4.c:234-294 | the fragments are the pieces of the payload, in order, with right flags and with offsets cut to 13 bits; they are right if and only if the last fragment begins below 64 KiB |
| Ipv4.OffsetsDoNotFit | kernel/net/ipv4.c:234-294 | 66601 bytes in fragments of 1480 need more than 13 bits |
| Ipv4.CompleteIffAllCame | kernel/net/ipv4.c:15-72 | completion is seen exactly when the last missing fragment has come |
| Ipv4.RoundTrip | kernel/net/ipv4.c:15-92 | all fragments, once each and in any order, assemble to the payload |
| Ipv4.CopyAll | kernel/net/ipv4.c:74-92 | byte by byte into memory: the buffer holds the assembled frames, and bytes behind it are overwritten if and only if a frame with bytes does not fit |
| Ipv4.CompleteWithoutFitting | kernel/net/ipv4.c:60-86 | two fragments that complete a datagram one of which lies outside it |
| Ipv4.Receiver.FragmentCache | kernel/net/ipv4.c:15-72 | the frame joins its datagram, other datagrams are untouched, no frame is lost |
| Ipv4.Receiver.FragmentAssemble | kernel/net/ipv4.c:74-92 | the frames are copied to their places and each is released once; bytes behind the buffer are overwritten if and only if a frame with bytes does not fit |
| Ipv4.Receiver.Recv | kernel/net/ipv4.c:296-369 | frames held and released add up; a payload is passed on exactly when its datagram is complete; exactly when bytes behind the buffer are overwritten |
| Ipv4.EndToEnd | kernel/net/ipv4.c:234-369 | sent, delivered in any order, received: nothing before the last fragment, then the payload |
| Path.PopPart | kernel/vfs/vfs.c:150-176 | backs up over the last part written and looks at the one before |
| Path.PushPart | kernel/vfs/vfs.c:177-186 | writes a slash and the part |
| Path.CleanPath | kernel/vfs/vfs.c:104-202 | the buffer, two longer than the path, is never overrun and holds the text of the cleaned path; the result is the number of its parts |
| Path.CleanIsCanonical | kernel/vfs/vfs.c:91-202 | no empty or `.` parts, and `..` only as a leading block |
| Path.Idempotent | kernel/vfs/vfs.c:104-202 | cleaning a cleaned path changes nothing, as text |
| Path.Tokens | kernel/vfs/vfs.c:239-254 | the loop over strtok_r gives the non-empty parts in order |
| Path.ReadPath | kernel/vfs/vfs.c:204-254 | from the text of a path to the parts that are walked: the cleaned parts, as many as the counted depth |
| Path.PartsJoin | kernel/vfs/vfs.c:104-146 | joined by slashes, the parts are the path again, for every path; no part holds a slash |
| Path.PartsUnique | kernel/vfs/vfs.c:104-146 | these two fix the parts |
| Path.LeadsIsResolve | kernel/vfs/vfs.c:91-202 | following the text of a path from slash to slash leads where its parts lead |
| Path.NothingToClean | kernel/vfs/vfs.c:91-202 | a path with nothing to clean only gets a leading slash if it has none |
| Path.AbsoluteMeaning | kernel/vfs/vfs.c:91-202 | the text of every absolute path leads to the same place before and after cleaning |
| Path.RelativeMeaning | kernel/vfs/vfs.c:91-202 | the text of a path leads to the same place from every directory before and after cleaning if and only if it never slips |
| Path.SlippingExample | kernel/vfs/vfs.c:146-176 | `.././..` slips: it is cleaned to the start |
| Dcache.AppendKeeps | kernel/vfs/dcache.c:122-149 | a new dentry that says what the file system says keeps tree, names, counters, coherence and the cached flags |
| Dcache.CreateKeeps | kernel/vfs/vfs.c:1053-1256 | turning a dentry positive together with the new entry keeps the invariant |
| Dcache.RemoveKeeps | kernel/vfs/vfs.c:1099-1293 | turning it negative together with removing the entry keeps the invariant |
| Dcache.FlipCounts | kernel/vfs/dcache.c:151-187 | positive and negative always count the children of each kind |
| Dcache.OneDentry | kernel/vfs/dcache.c:82-103 | a directory inode has at most one dentry |
| Dcache.AllEntries | kernel/vfs/vfs.c:538-546 | as many positive dentries as entries means every entry has a dentry |
| Dcache.CachedIsExact | kernel/vfs/vfs.c:526-578 | in a cached directory the positive dentries are exactly the entries |
| DcacheMove.BelowEmpty | kernel/vfs/dcache.c:105-109 | below a dentry without entries everything is negative, so nothing freed with it is in use |
| DcacheMove.MoveSteps | kernel/vfs/dcache.c:31-120 | unlink, rename, link, unlink and free, as one change of the table |
| DcacheMove.NotRoots | kernel/vfs/vfs.c:1136-1210 | the checks of rename never let the top or the root of a mount pass |
| DcacheMove.ChecksSuffice | kernel/vfs/vfs.c:1136-1210 | the checks establish all that a move needs; no directory ends up below itself |
| DcacheMove.RenameKeeps | kernel/vfs/vfs.c:1136-1210 | moving a whole subtree onto another name keeps tree, names, counters, coherence and the cached flags |
| FileRefs.Unused | kernel/vfs/vfs.c:20-32 | a dentry whose counter is zero is held by no open file and no working directory |
| FileRefs.OpenKeeps | kernel/vfs/fd.c:4-30 | a new file with one descriptor: all counters stay exact |
| FileRefs.CloneKeeps | kernel/vfs/fd.c:79-96 | one more descriptor for a file |
| FileRefs.CloseKeeps | kernel/vfs/fd.c:58-77 | one descriptor less; the last one lets go of the dentry |
| FileRefs.EnterKeeps | kernel/vfs/vfs.c:366-374 | a process gets a working directory |
| FileRefs.LeaveKeeps | kernel/vfs/vfs.c:376-379 | a process gives it up |
| Vfs.FileSystem.constructor | kernel/vfs/vfs.c:1295-1378 | a mounted file system with a cache that knows nothing of it |
| Vfs.FileSystem.FindKid | kernel/vfs/dcache.c:82-103 | finds the child of that name exactly if there is one |
| Vfs.FileSystem.Append | kernel/vfs/dcache.c:122-149 | a fresh child of that name; nothing else changes its meaning |
| Vfs.FileSystem.Enter | kernel/vfs/vfs.c:303-335 | a name below a directory: from the cache without asking anybody, or else from the driver and then remembered; errors exactly if an answer was bad |
| Vfs.FileSystem.Component | kernel/vfs/vfs.c:281-345 | one part of a path, through the cache, as the file system itself would take it; `-EIO` and `-ENOMEM` exactly if an answer was bad |
| Vfs.FileSystem.Walk | kernel/vfs/vfs.c:261-364 | whatever is cached, the walk ends where the file system itself leads, with the same errors; `-EIO` and `-ENOMEM` exactly if the driver or the allocator failed |
| Vfs.FileSystem.WalkPath | kernel/vfs/vfs.c:204-364 | the same from the text of a path, absolute or relative |
| Vfs.FileSystem.Create | kernel/vfs/vfs.c:1053-1256 | status by cases: the error of the walk, there already, not supported, a failed answer, and otherwise 0; success adds exactly the missing entry the path leads to and changes no other; failure leaves the file system and the cache agreeing |
| Vfs.FileSystem.Remove | kernel/vfs/vfs.c:1099-1293 | status by cases: the error of the walk, wrong kind, in use, not supported, not empty, a failed answer, and otherwise 0; success removes exactly the entry the path leads to |
| Vfs.FileSystem.IsAbove | kernel/vfs/vfs.c:1180-1193 | the walk up ends, and says whether the source is above the target |
| Vfs.CounterTells | kernel/vfs/vfs.c:20-32 | the counter of a dentry is not zero if and only if a file or a working directory is on it |
| Vfs.FileSystem.Rename | kernel/vfs/vfs.c:1136-1210 | status by cases: the errors of the two walks, target in use, nothing to do, kinds differ, other mount, into itself, not supported, a failed answer, target not empty, and otherwise 0; success moves exactly the entry of the first path to the second, replacing what is there, and changes no other entry; otherwise nothing changes |
| Vfs.FileSystem.Remember | kernel/vfs/vfs.c:427-445 | the entry has a dentry afterwards, exactly unless memory ran out |
| Vfs.FileSystem.Readdir | kernel/vfs/vfs.c:447-548 | gives exactly the names from where the file stands, whatever the driver answers; if nothing fails, 0 exactly at the end, an error exactly if nothing fits, and all names if there is room; the directory is marked cached if and only if the listing is at its end and every entry has a dentry |
| Vfs.FileSystem.Gather | kernel/vfs/vfs.c:526-548 | the driver's part of it: each entry is given and remembered until the buffer is full or an answer is bad |
| Vfs.FileSystem.ListCached | kernel/vfs/vfs.c:550-578 | from any position: the dots, then the names of the positive dentries, as far as they fit; these are exactly the entries, each once; 0 exactly at the end, an error exactly if nothing fits |
| Vfs.FileSystem.FindOrCreate | kernel/vfs/vfs.c:896-932 | the dentry the path leads to; if nothing is there, the one of the first walk is the one that is created; status by cases |
| Vfs.Check | kernel/vfs/vfs.c:934-1000 | the checks on the inode, in order, and the driver asked only after them |
| Vfs.FileSystem.Open | kernel/vfs/vfs.c:896-1012 | status by cases: flags that exclude each other, the error of the walk, missing and not to be created, wrong kind, not supported, a failed answer, and otherwise 0; success gives a descriptor and a file on what the path leads to; a file that was created stays even if a later check fails |
| Vfs.FileSystem.Close | kernel/vfs/vfs.c:1014-1051 | exactly the descriptor goes, even if the driver reports an error; a file stays open exactly as long as some descriptor has it, and the driver is asked exactly when it does not; an unknown descriptor is an error |
| Vfs.FileSystem.Clone | kernel/vfs/fd.c:79-96 | the new descriptor shares the file |
| Vfs.FileSystem.Chdir | kernel/vfs/vfs.c:815-845 | status by cases: the error of the walk, not a directory, a failed answer, and otherwise 0; the working directory is then what the path leads to; counters follow |
| Vfs.FileSystem.Run | kernel/vfs/vfs.c:815-1293 | after any sequence of calls by any processes, with any failures, cache and file system agree, the cache is a tree, and every counter is exact |
| Vfs.FileSystem.Begin | kernel/vfs/vfs.c:366-374 | the new process holds its working directory |
| Vfs.FileSystem.End | kernel/vfs/vfs.c:376-379 | the process holds it no more |
| BlockDist.NeededStep | kernel/vfs/ext2.c:466-548 | what one more data block costs in pointer blocks |
| BlockDist.BlocksDist | kernel/vfs/ext2.c:466-548 | from data blocks: the pointer blocks needed; from all blocks: the same split again, if and only if the size is reversible |
| BlockDist.NotReversible | kernel/vfs/ext2.c:466-548 | with 1 KiB blocks, a file that fills the double range is not counted back |
| BlockTree.PathUnique | kernel/vfs/ext2.c:709-897 | offsets and places of data pointers correspond one to one |
| BlockTree.TripleCoordinates | kernel/vfs/ext2.c:833-836 | the three divisions of the triple case name the right place |
| BlockTree.MissingIsCost | kernel/vfs/ext2.c:1157-1236 | the pointer blocks missing on the next path are exactly those counted for one more data block |
| BlockTree.TotalInjective | kernel/vfs/ext2.c:1157-1236 | every offset below the size has a block, and no two offsets share one |
| BlockTree.FileMap.constructor | kernel/vfs/ext2.h:67-89 | the inode of an empty file |
| BlockTree.FileMap.DirectBlock | kernel/vfs/ext2.c:640-668 | the pointer in the inode, linked from the right reserve if it was missing |
| BlockTree.FileMap.IndirectBlock | kernel/vfs/ext2.c:670-707 | the same for a pointer in a block of pointers |
| BlockTree.FileMap.SetBlock | kernel/vfs/ext2.c:709-897 | the block at an offset, by the remembered leaf or the full walk alike; creating adds exactly what is missing of the path and uses exactly that many blocks of each reserve |
| BlockTree.FileMap.GetBlock | kernel/vfs/ext2.c:899-905 | the block at an offset, exactly unless a read fails; no read for a direct block or one behind the remembered leaf; nothing is linked |
| BlockTree.Bitmap.Alloc | kernel/vfs/ext2.c:310-464 | a run of 1 to count free blocks leaves the free set; an I/O error exactly if the device fails, out of space exactly if nothing is free |
| BlockTree.FileMap.Fill | kernel/vfs/ext2.c:1203-1227 | the loop links every data block; both reserves reach zero and never underflow |
| BlockTree.FileMap.Expand | kernel/vfs/ext2.c:1157-1236 | exact growth: old offsets keep their blocks, the file has the new size without holes, everything taken off the bitmap is linked; succeeds exactly if no answer is bad and every search of the bitmap finds a block |
| FileData.File.constructor | kernel/vfs/ext2.h:67-89 | an empty file on a volume |
| FileData.File.PutBlock | kernel/vfs/ext2.c:1826-1849 | one block is read if asked, overlaid and written; no other block changes |
| FileData.File.PutWhole | kernel/vfs/ext2.c:1851-1868 | the loop over whole blocks |
| FileData.File.PutRest | kernel/vfs/ext2.c:1851-1894 | whole blocks and last part; the last block is not read if it lies past the old end |
| FileData.File.Extend | kernel/vfs/ext2.c:1790-1804 | the map grows to cover the write, exactly unless an answer is bad or blocks run out; old contents stay |
| FileData.File.TryWrite | kernel/vfs/ext2.c:1770-1905 | the same before the context is flushed or discarded |
| FileData.LaidWithin | kernel/vfs/ext2.c:1770-1905 | for a write that begins within the file this fixes every byte |
| FileData.File.Write | kernel/vfs/ext2.c:2186-2201 | succeeds exactly if no answer is bad and blocks do not run out; success: the bytes are laid over the old contents and the size becomes the maximum; error: inode, pointer blocks and bitmap on the disk are as before, because only the cache has changed, and the contents are the old ones under a first part of the bytes; blocks of other files are untouched |
| FileData.File.Read | kernel/vfs/ext2.c:1672-1768 | returns exactly the bytes asked for, for every alignment, exactly unless an answer is bad |
| FileData.File.WriteThenRead | kernel/vfs/ext2.c:1672-1905 | what is written is what is read, exactly unless an answer is bad or blocks run out |
| BlockCache.Context.constructor | kernel/vfs/ext2.c:147-174 | an empty context over the disk |
| BlockCache.Context.Lookup | kernel/vfs/ext2.c:28-80 | finds or inserts the block; the list stays sorted without repeats |
| BlockCache.Context.ReadCached | kernel/vfs/ext2.c:82-114 | returns the block with all changes made so far; fails exactly if the block is new and there is no memory, or not read yet and the device fails, with that error |
| BlockCache.Context.WriteCached | kernel/vfs/ext2.c:116-124 | the block will be written back |
| BlockCache.Context.InitCached | kernel/vfs/ext2.c:126-145 | the block is zero from now on; fails exactly if it is new and there is no memory |
| BlockCache.Context.Free | kernel/vfs/ext2.c:176-207 | after an error the disk is untouched; else every changed block is on it, except where the device refused the write |
| BlockCache.Operation | kernel/vfs/ext2.c:28-207 | a whole operation equals its changes made directly, or none of them; every read sees the changes before it; it goes well if and only if every answer that was needed was good |

## Left out

- Hardware and drivers: AHCI, xHCI, USB, PS/2, network cards, PCI, ACPI, timers, interrupt controllers, TLB effects, inline assembly.
- Console, terminal, fonts, framebuffer, user programs and libc.
- Large pages, and building or changing kernel mappings: `vmm_init`, `vmm_remap_page`, `vmm_set_mode` and `vmm_set_caching`.
- The early boot allocator behind the heap and the frame bitmap's placement in memory.
- Heap.KernelHeap.Kmalloc: takes sizes up to 2^64 - 48; Heap.LargestIsExact says what is asked for beyond.
- Heap.KernelHeap.Run: the same bound on sizes.
- Heap.WritesMissLive: gives the bytes that the allocator writes; the headers themselves are kept by address and not as bytes, so a write by the owner of a block is not part of the model.
- Load figures of cores (`scheduler_update_load`) and elapsed times.
- Blocking.SafeBlocking: is about safety; that a wake-up comes is left to the caller. `process_wait` and pipes, which check and then sleep without the queue lock, are not modelled.
- Mutex.MutualExclusion: takes the queue lock to exclude others while it is held; how a late switch breaks that is the subject of Blocking.LateRelease and Blocking.ReleasedTwice.
- Mutex.MutexObject.WqInterrupt: takes the thread to be in this queue or in none; an interrupt aimed at a queue the thread has left is the subject of Blocking.StaleInterrupt.
- Timers.FiresAtFirstDueTick: is about runs in which the clock is near the deadlines looked at; what a tick fires otherwise is in Timers.TimerList.TimerTick.
- Lists.List.Remove: takes the item to be in this list or in none; for an item of another list the code unlinks it there and miscounts here.
- Ipv4.Send: takes room for at least 8 bytes of payload in a frame; with less the code does not end.
- Ipv4.EndToEnd: one datagram per key in flight, no Ethernet padding, no checksums and byte order, payloads whose last fragment begins below 64 KiB.
- Mounting and unmounting while the cache is in use, the listing of the top directory, and the counter of users per mount.
- Vfs.FileSystem.Remove: takes it that a file system refuses to remove its own root; the code does not check it.
- Vfs.FileSystem.Open: what a driver does for open, truncate and append is a possible failure only.
- Memory left behind by the kernel: negative children of a dentry freed by rename, and the file of a failed open, are unreachable and no longer part of the model.
- devfs, whose entries change behind the cache; initrd, iso9660, partition tables and ELF loading.
- The search inside `ext2_blocks_alloc`: any free run may be returned.
- BlockTree.FileMap.Expand: takes the current size to be reversible, the goal to be within what the pointer tree can hold, and reads of pointer blocks to succeed; the exact range is in BlockDist.BlocksDist.
- FileData.File.Extend: the same conditions as BlockTree.FileMap.Expand.
- FileData.File.TryWrite: the same conditions as BlockTree.FileMap.Expand.
- FileData.File.Write: the same conditions as BlockTree.FileMap.Expand; bytes between the old end and a later start are whatever the blocks hold.
- FileData.File.WriteThenRead: the same conditions as FileData.File.Write.
- `ext2_inode_truncate` with the list of pointer blocks met on a walk that only it uses, ext2 directories and inode allocation.
- Widths of block and size counters in ext2: they are unbounded here.
