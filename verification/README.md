# A verified model of the RTOS kernel

This project models the kernel of the RTOS in Dafny and proves what its code does for every input,
every run and every reachable state. `dafny verify dfyconfig.toml` checks all of it.

Code that works by changing memory is modelled by classes and methods with the same fields,
branches and loops. Each method is proved against a function on plain values, and the theorems are
proved about those functions.

| area | files |
|---|---|
| heap allocator | `Blocks` (block lists), `HeapCalls` (calls and runs on them), `HeapStats` (counters, fragmentation), `HeapMemory` (headers and payload in one array), `Heap` (the C functions) |
| pools and other users of the heap | `HeapClients`, `Slots`, `Bitmap`, `Pool`, `MessageQueue`, `Uart` |
| scheduler and task manager | `SchedModel` (state machine), `SchedInvariant`, `SchedTheorems`, `SchedEffects` (what each call does), `SchedFairness`, `SchedDelayed`, `SchedLinks` (linked lists), `Scheduler` (the C functions) |
| CRC-32 | `Gf2` (polynomials over GF(2)), `CrcRegister` (shift registers), `Words` (32-bit words as bit lists), `Crc32` (the C function) |
| device framework | `DriverModel`, `DriverTheorems`, `DriverAnswers` (statuses and data), `DriverFramework` (the C functions) |

**Heap.** Headers and payload bytes share one array of cells, so a store through a wrong offset
would destroy a header in the model as it does in C. `sizeof(memory_block_t)` and the width of
`size_t` are symbolic. Headers of absorbed blocks stay in the array, and a release through a stale
pointer reads them. The two facts that carry the allocator are that the blocks tile the heap and
that no two neighbours are free. Together they make the block list a function of the set of live
allocations (`Blocks.Canonical`), and the laws of the calls follow from that. Sizes wrap as `size_t`
does, and where a wrapped size breaks a promise the contract says exactly when.

**Users of the heap.** Pools, message queues and UART rings live in blocks of that heap. Each has a
lemma `Survives` (it stays valid through whatever others do with the heap, as long as its blocks
stay live and its payload is left alone), a method `DestroyRestores` or `DeinitRestores` (its end
restores the block list whatever happened in between), and a method `Life` that interleaves its own
calls with any sequence of allocations, reallocations, stores and releases of other users. For a
queue, `Life` shows that what comes out is what a bounded FIFO gives. For a UART instance it shows
what its calls amount to: no code path of the driver puts a byte into the receive ring or takes one
from the transmit ring, so every read returns nothing, and writes are BUSY once the bytes written
since the last flush exceed the ring.

**Scheduler.** The ready lists are threaded through the `next` fields of the task control blocks;
ghost sequences say what each list holds. `SchedInvariant.ReachableIsSound` covers every sequence
of create, delete, suspend, resume, delay, yield, tick and start calls of any length, with fewer
creations than there are identifiers. Four facts of the code
show up in the theorems.

- A task that yields with nobody else ready stays current in state READY and at the head of its
  list, and from then on its yields do nothing. Round robin among the tasks of a level holds exactly
  while the current task is not in front in this way (`SchedFairness.EveryoneGetsTurns`).
- `add_to_delayed_list` has no caller, so `task_delay` only blocks, and through any further calls
  the task is never woken (`SchedTheorems.DelayedForever`). What the delayed list would do is proved
  about its two functions and the tick, with any other calls in between
  (`SchedDelayed.WakesOnTime`).
- `scheduler_start` keeps the invariant exactly when no other task is ready while one runs. Two
  creations and two starts make two tasks run (`SchedTheorems.SecondStart`), so runs contain one.
- `task_suspend(0)` takes an unused slot for a task. All lists are still in order then, but
  `task_resume(0)` puts the slot on a ready list and a yield can run it
  (`SchedTheorems.SuspendThenResume`, `SchedTheorems.UnusedSlotRuns`), so runs contain no such call.

**CRC-32.** The specification is the remainder of polynomial long division over GF(2) with
reflected bits, preset ones and a final complement, as in RFC 1952, section 8. The code is shown to
compute it for messages of any length.

**Device framework.** A driver's callback belongs to the environment: what it returns in each turn
of the start-up loop is universally quantified. It may change `driver_data` only.

**Where documentation and code differ.** The header of `device_init_all` promises to initialize all
registered devices; a device of priority 255 never is (`DriverTheorems.OkResult`), and one that keeps
failing holds up all devices after it (`DriverTheorems.KeepsFailing`). Its result can be an error
although every device was started; `DriverTheorems.ResultIsTruthful` says for which registries this
can happen. "Round-robin for equal priorities" (docs/ARCHITECTURE.md) fails for good after a lone
yield: a task that is created, started and yields alone keeps the processor through any further
yields and ticks when a second one of its priority is created (`SchedFairness.LoneYield`,
`SchedFairness.Starves`). A current task that deletes itself with nobody ready, whose slot is then
reused, leads to the same state (`SchedFairness.DeletedAlone`), and so does one that suspends itself
and is resumed (`SchedFairness.ResumedSticks`). `task_delay` is by its name and by `wake_time` a timed wait; it is an indefinite one.
A request of more than SIZE_MAX - 3 bytes is rounded to 0 and served with a block that is too small
(`HeapCalls.RequestIsCovered`, `HeapCalls.EmptyBlockHandedOut`).

## Model

| member | source | states |
|---|---|---|
| Blocks.LiveBlocksAreDisjoint | src/kernel/memory.c:72-85 | live allocations, headers included, never overlap and lie inside the heap |
| Blocks.Canonical | src/kernel/memory.c:88-100 | two coalesced tilings with the same live blocks are equal: the list is a function of the allocations in force |
| Blocks.BestFitChooses | src/kernel/memory.c:52-69 | the search fails exactly if no free block suffices, and finds the lowest-address block among the smallest that do |
| HeapCalls.MallocMeaning | src/kernel/memory.c:103-140 | an allocation adds one live block that was not there, exceeds the request by less than a header and 32 bytes, and keeps the list well-formed |
| Blocks.GrantIsWf | src/kernel/memory.c:122-125 | splitting and marking keep the tiling, the alignment and the absence of free neighbours |
| Blocks.GrantSize | src/kernel/memory.c:72-85 | a granted block has exactly the rounded size and leaves the rest as a free block behind it, or keeps its full size if the rest is smaller than a header and 32 bytes |
| Blocks.CoalesceIsWf | src/kernel/memory.c:88-100 | from any tiling the merge pass leaves no two free neighbours and every allocation as it was |
| HeapCalls.FreeMeaning | src/kernel/memory.c:143-181 | a release removes exactly the live block at that offset, if there is one |
| HeapCalls.ReallocMeaning | src/kernel/memory.c:196-227 | size 0 releases the block; a size that fits, or that nothing free fits, changes nothing; any other exchanges the block for the one an allocation gets |
| HeapCalls.MallocThenFree | src/kernel/memory.c:103-181 | releasing what was just allocated restores the block list exactly |
| HeapCalls.FreesCommute | src/kernel/memory.c:143-181 | the order of two releases does not matter |
| HeapCalls.DoubleFree | src/kernel/memory.c:160-165 | a second release of a pointer does nothing, also with other releases in between |
| HeapCalls.FreeAll | src/kernel/memory.c:143-181 | releases lead back to the initial heap exactly if they name every live block, in any order |
| HeapCalls.AlignSizeMeaning | src/kernel/memory.c:47-49 | the rounded size covers the request exactly if adding 3 does not wrap; if it wraps the size is 0 |
| HeapCalls.RunIsWf | src/kernel/memory.c:103-227 | every run of malloc, free and realloc keeps the heap tiled, fully coalesced, and all sizes multiples of 4 |
| HeapCalls.RunIsPositive | src/kernel/memory.c:47-181 | in every run whose requests are at most SIZE_MAX - 3 all block sizes stay positive multiples of 4 |
| HeapCalls.RequestIsCovered | src/kernel/memory.c:103-140 | a request that is granted gets as much as it asked for exactly if its rounding does not wrap |
| HeapCalls.WrappedRequest | src/kernel/memory.c:47-85 | a request whose rounding wraps is served if any block is free, and leaves an empty block exactly if the smallest free block has room for a header and 32 bytes |
| HeapCalls.EmptyBlockHandedOut | src/kernel/memory.c:103-140 | such a request, made first, gets a live block of size 0 |
| HeapCalls.RunsAreCanonical | src/kernel/memory.c:103-227 | two runs end in the same list exactly if the same blocks are live, and exactly the release of all of them restores the initial heap |
| HeapStats.BytesAreConserved | src/kernel/memory.c:127-130 | live and free bytes with their headers always make up the heap |
| HeapStats.FreeBlocksAreFew | src/kernel/memory.c:88-100 | free blocks number at most live blocks plus one |
| HeapStats.LargestFreeIsMaximum | src/kernel/memory.c:363-373 | the largest free block is a true maximum, and a k-th of the free bytes or more |
| HeapStats.FragmentationBound | src/kernel/memory.c:376-381 | with k free blocks the percentage is at most 100 (k - 1) / k, below 100, and 0 for one block |
| HeapStats.PercentMeaning | src/kernel/memory.c:376-381 | the percentage is the whole part of 100 times the free bytes outside the largest block over all free bytes |
| HeapStats.FreeBytes | src/kernel/memory.c:363-366 | the total that the percentage divides by is the free bytes of the tiling less one header for each free block |
| HeapMemory.JoinWrite | src/kernel/memory.c:92-95 | changing one header in memory is the merging of two list entries; the absorbed header stays behind, marked free |
| HeapMemory.SplitWrite | src/kernel/memory.c:74-84 | the header writes of a split store the split list and touch no live payload |
| HeapMemory.StillReadsAsFree | src/kernel/memory.c:160-165 | a header that reads as free keeps reading as free through any releases |
| HeapClients.FreeAgain | src/kernel/memory.c:143-181 | releasing a pointer, any others, and the first again: the last call changes neither memory nor block list nor statistics |
| Heap.Allocator.MemoryInit | src/kernel/memory.c:20-44 | the heap becomes one free block of HEAP_SIZE less a header; a second call changes nothing |
| Heap.Allocator.FindBestFit | src/kernel/memory.c:52-69 | the walk over the headers returns the block that the list function chooses |
| Heap.Allocator.SplitBlock | src/kernel/memory.c:72-85 | the list in memory becomes the split list, no live payload changes |
| Heap.Allocator.MergeFreeBlocks | src/kernel/memory.c:88-100 | the list in memory becomes the coalesced list; headers only change size, link, and free flag upwards |
| Heap.Allocator.RtosMalloc | src/kernel/memory.c:103-140 | NULL and no change, counters included, exactly if uninitialized, empty or nothing fits; else the chosen block, which holds the request exactly if its rounding does not wrap, and one more allocation counted; no byte of any live payload changes |
| Heap.Allocator.ChoiceServes | src/kernel/memory.c:103-118 | a request has a block chosen for it exactly if it is not 0 and some free block of the list fits its rounded size |
| Heap.Allocator.FreshServesBoth | src/kernel/memory.c:103-125 | on the initial heap two requests succeed exactly if the first leaves room for a header, 32 bytes and the second |
| Heap.Allocator.RtosFree | src/kernel/memory.c:143-181 | the block leaves the live set and one more release is counted, no byte of any other live payload changes; a pointer without the magic word before it, or to a block already free, changes nothing at all |
| Heap.Allocator.RtosCalloc | src/kernel/memory.c:184-193 | as malloc for the product modulo the word size, with all those bytes zero; the block holds the full product exactly if it does not wrap |
| Heap.Allocator.RtosRealloc | src/kernel/memory.c:196-227 | size 0 releases the block; a size that fits it gives the same pointer and changes nothing; otherwise the old bytes are copied to another block, which holds the size exactly if its rounding does not wrap, and the old one is released; every other live block is untouched; a failing growth leaves the old block live and all of memory as it was |
| Heap.Allocator.CopyFitsMeaning | src/kernel/memory.c:214-221 | the copy of a growing realloc stays inside the new block for every size of at most SIZE_MAX - 3 |
| Heap.Allocator.CalculateFragmentation | src/kernel/memory.c:358-382 | the walk reports the maximum free size and the percentage of the list functions |
| Heap.Allocator.MemoryGetStats | src/kernel/memory.c:385-396 | what is reported agrees with the block list |
| Heap.StatsAddUp | src/kernel/memory.c:127-130 | used plus free is HEAP_SIZE modulo the word size and wraps exactly when no block is free; allocations less frees is the live count modulo 2^32 |
| HeapClients.MallocPair | src/kernel/memory.c:244-255 | both allocations succeed exactly if a free block fits the first request and one of those it leaves fits the second; otherwise the block list is exactly what it was |
| HeapClients.OthersRun | src/kernel/memory.c:103-227 | through any sequence of malloc, calloc, realloc, free and stores by other users the live blocks of everybody else stay live and keep every byte |
| Bitmap.BitChanged | src/kernel/memory.c:284 | setting or clearing a bit changes that bit of the byte and no other |
| Pool.MemoryPool.MemoryPoolCreate | src/kernel/memory.c:230-267 | INVALID_PARAM exactly for a zero size or count; OK exactly if the heap serves both the blocks and the bitmap; a failure leaves the block list as it was; a pool that is created is valid, with all blocks free, exactly if count times block size, rounded, does not wrap |
| Pool.MemoryPool.AddressesApart | src/kernel/memory.c:290 | pool blocks lie inside the pool's heap block and do not overlap |
| Pool.MemoryPool.MemoryPoolAlloc | src/kernel/memory.c:270-300 | the lowest free block is taken; NULL exactly if the count is zero |
| Pool.MemoryPool.FindFree | src/kernel/memory.c:278-299 | with a nonzero count the scan finds a block, so the return after the loop is unreachable |
| Pool.MemoryPool.MemoryPoolFree | src/kernel/memory.c:303-341 | exactly the addresses of currently allocated blocks are accepted, and only their bit changes |
| Pool.MemoryPool.BlockIndex | src/kernel/memory.c:308-318 | the checks recover the block from its address, also for pointers below the pool, where the difference wraps |
| Pool.MemoryPool.AllocThenFree | src/kernel/memory.c:270-341 | taking a block and giving it back restores the bitmap and the count |
| Pool.MemoryPool.MemoryPoolDestroy | src/kernel/memory.c:344-355 | both heap blocks are released and nothing else; after a failed creation nothing changes exactly if its stale pointer has not been handed out again |
| Pool.MemoryPool.Survives | src/kernel/memory.c:270-341 | a pool stays valid with the same bitmap through any use of the heap that keeps its blocks live and the bitmap's payload |
| Pool.MemoryPool.DestroyRestores | src/kernel/memory.c:344-355 | whatever happened in between, destroying a pool whose two blocks are all that is live beyond an earlier block list restores that list |
| Pool.MemoryPool.Life | src/kernel/memory.c:230-355 | create, any sequence of its own calls and those of other users, destroy: the pool is valid throughout, and the block list ends as it was |
| Slots.SlotStart | src/kernel/memory.c:309-315 | an offset is the start of slot i exactly if it divides evenly with quotient i |
| MessageQueue.Queue.MqCreate | src/ipc/message_queue.c:15-33 | a queue exactly if the heap serves both its record and its buffer; it then has nonzero capacity and two new heap blocks, and is valid exactly if the product of its sizes, rounded, does not wrap; a failure leaves the block list as it was |
| MessageQueue.SendKeepsQueue | src/ipc/message_queue.c:40 | writing the slot behind the last message appends it and damages no message in transit |
| MessageQueue.ReceiveKeepsQueue | src/ipc/message_queue.c:53-54 | moving the tail leaves the rest of the queue in order |
| MessageQueue.Queue.MqSend | src/ipc/message_queue.c:35-46 | BUSY exactly if full, else the message is appended; only the bytes of its own slot change |
| MessageQueue.Queue.MqReceive | src/ipc/message_queue.c:48-59 | the oldest message comes out unchanged; everything sent is what was received followed by what is queued |
| MessageQueue.Queue.MqDestroy | src/ipc/message_queue.c:61-67 | both heap blocks are released and nothing else |
| MessageQueue.Queue.DestroyRestores | src/ipc/message_queue.c:61-67 | whatever happened in between, destroying a queue whose two blocks are all that is live beyond an earlier block list restores that list |
| MessageQueue.Queue.Survives | src/ipc/message_queue.c:35-59 | a queue stays valid with the same messages through any use of the heap that keeps its blocks live and the buffer's payload |
| MessageQueue.Queue.Life | src/ipc/message_queue.c:15-67 | create, any sequence of sends, receives and calls of other users, destroy: what is received is what a bounded FIFO gives, and the block list ends as it was |
| MessageQueue.FifoOrder | src/ipc/message_queue.c:35-59 | what comes out of that FIFO, followed by what is in it, is what was taken in, in order, and never more than the capacity is in it |
| MessageQueue.Queue.QueueSurvives | src/ipc/message_queue.c:40-53 | a buffer whose payload is left alone keeps every queued message in its slot |
| Uart.CircularBuffer.Init | src/drivers/uart_driver.c:76-82 | an empty ring in a new heap block exactly if the heap serves the size, else no buffer and the block list as it was |
| Uart.CircularBuffer.Put | src/drivers/uart_driver.c:93-107 | fails exactly if full, else appends the byte |
| Uart.CircularBuffer.Get | src/drivers/uart_driver.c:110-124 | fails exactly if empty, else removes the oldest byte |
| Uart.CircularBuffer.Flush | src/drivers/uart_driver.c:132-138 | the ring is empty |
| Uart.UartInit | src/drivers/uart_driver.c:158-188 | for an instance not in use, a handle exactly if the heap serves both rings; it has two empty rings of nonzero size; a failure leaves the block list as it was |
| Uart.UartHandle.Open | src/drivers/uart_driver.c:176-188 | on success exactly two new live blocks of the heap hold the rings, on failure none |
| Uart.UartHandle.UartDeinit | src/drivers/uart_driver.c:307-340 | exactly the two ring buffers are released |
| Uart.CircularBuffer.Survives | src/drivers/uart_driver.c:93-124 | a ring stays valid with the same bytes through any use of the heap that keeps its block live and its payload |
| Uart.UartHandle.Survives | src/drivers/uart_driver.c:158-188 | the same for an instance and its two rings |
| Uart.UartHandle.DeinitRestores | src/drivers/uart_driver.c:307-340 | whatever happened in between, shutting down an instance whose two ring blocks are all that is live beyond an earlier block list restores that list |
| Uart.UartHandle.Life | src/drivers/uart_driver.c:158-573 | set up, any sequence of writes, reads, flushes and calls of other users, shut down: reads return nothing, a write is OK exactly if all bytes since the last flush fit, and the block list ends as it was |
| Uart.UartHandle.UartWrite | src/drivers/uart_driver.c:355-409 | appends the longest prefix that fits and returns OK exactly if that is all of it |
| Uart.UartHandle.UartRead | src/drivers/uart_driver.c:425-461 | returns the longest available prefix, in order, and leaves the rest |
| Uart.UartHandle.UartFlush | src/drivers/uart_driver.c:562-573 | both rings are empty |
| SchedInvariant.ReachableIsSound | src/kernel/scheduler.c:31-213 | after every legal sequence of calls, of any length, each ready list holds ready tasks of its level, once each; every ready task is on its list; only the current task runs; identifiers are unique |
| SchedInvariant.StartInv | src/kernel/scheduler.c:209-213 | starting keeps the invariant exactly if no task runs or none is ready |
| SchedInvariant.SuspendInv | src/kernel/task.c:141-162 | suspending keeps the invariant exactly if the identifier is not 0 or finds no slot; the task must not be on the delayed list |
| SchedInvariant.DeleteInv | src/kernel/task.c:114-138 | deleting any identifier, 0 included, keeps the invariant, unless the task is on the delayed list |
| SchedInvariant.ResumeInv | src/kernel/task.c:165-182 | resuming any identifier, 0 included, keeps the invariant |
| SchedInvariant.CreateInv | src/kernel/task.c:59-111 | creation keeps the invariant exactly if it fails or the identifier counter does not run out |
| SchedInvariant.DelayInv | src/kernel/task.c:185-194 | delaying keeps the invariant, also with tasks on the delayed list |
| SchedInvariant.TickInv | src/kernel/scheduler.c:185-201 | a tick keeps the invariant, also with tasks on the delayed list |
| SchedInvariant.RequeueInv | src/kernel/scheduler.c:105-108 | putting the ready current task back changes no list's membership |
| SchedInvariant.HighestIsReady | src/kernel/scheduler.c:82-89 | none is found exactly if no task is ready; else the head of the first level that has any |
| SchedInvariant.Untouched | src/kernel/scheduler.c:147-166 | no call puts a task on the delayed list, and only a tick takes one off |
| SchedTheorems.YieldRunsBest | src/kernel/scheduler.c:128-144 | after a yield the current task is runnable and no ready task has a smaller priority number exactly if there was a ready task or the caller was running |
| SchedTheorems.TickPreempts | src/kernel/scheduler.c:185-201 | after a tick no ready task has a smaller priority number than the current one |
| SchedTheorems.TickRunsBest | src/kernel/scheduler.c:185-201 | after a tick the current task is runnable and of least priority number exactly if the tick preempts or the task could run before; a blocked current task otherwise keeps the processor |
| SchedEffects.TickSwitches | src/kernel/scheduler.c:185-201 | once the due tasks are woken, a tick switches tasks exactly if a ready task has a smaller priority number than the current one; otherwise it does nothing more |
| SchedEffects.YieldGivesWay | src/kernel/scheduler.c:92-144 | a running task with a ready one of its priority or better goes READY and last on its list, and the first ready task of best priority leaves its list and runs |
| SchedEffects.YieldRequeues | src/kernel/scheduler.c:104-114 | a READY current task that is not first moves to the end of its list, and the first ready task of best priority runs |
| SchedEffects.YieldMovesOn | src/kernel/scheduler.c:92-114 | from a current task that cannot run the first ready task of best priority takes over, and nothing else changes |
| SchedEffects.YieldStays | src/kernel/scheduler.c:128-144 | with nobody ready at its priority or better, a running task stays current but becomes READY and goes on its list |
| SchedEffects.YieldFindsNobody | src/kernel/scheduler.c:95-98 | with nobody ready, a yield of a task that cannot run changes nothing |
| SchedEffects.StartDispatches | src/kernel/scheduler.c:209-213 | a first start runs the first ready task of best priority, if there is any |
| SchedEffects.DeleteMeaning | src/kernel/task.c:114-138 | the task with the identifier goes DELETED and off its list, whose others keep their order; all else is as before, and only for the current task a yield follows; the status is OK |
| SchedEffects.DeletedForGood | src/kernel/task.c:114-138 | also after that yield the task is DELETED and on no list, and every other task keeps its identifier, priority and wake-up time |
| SchedEffects.SuspendMeaning | src/kernel/task.c:141-162 | the same with SUSPENDED |
| SchedEffects.SuspendedParks | src/kernel/task.c:141-162 | also after that yield the task is SUSPENDED and on no list |
| SchedEffects.ResumeMeaning | src/kernel/task.c:165-182 | a SUSPENDED task becomes READY and last on its list, with OK; any other gives INVALID_PARAM and no change |
| SchedEffects.NamesNobody | src/kernel/task.c:114-182 | without a task of the identifier the three calls return INVALID_PARAM and change nothing |
| SchedEffects.CreateMeaning | src/kernel/task.c:59-111 | each status exactly in its case; the new task takes the first free slot, with the next identifier, READY and last on its list |
| SchedEffects.DelayMeaning | src/kernel/task.c:185-194 | the current task is BLOCKED with wake-up time tick plus ticks modulo 2^32, off its list, and yields |
| SchedTheorems.YieldPassesTurn | src/kernel/scheduler.c:92-144 | a yield rotates current task and ready list by one and changes nothing else, although it queues the task twice |
| SchedTheorems.RingTurns | src/kernel/scheduler.c:92-144 | n yields rotate by n places and keep all other levels and tasks |
| SchedTheorems.RoundRobin | src/kernel/scheduler.c:92-144 | from a RUNNING current task, k tasks of one level each run once in k yields, in order, and then the whole state is as before |
| SchedFairness.EveryoneGetsTurns | src/kernel/scheduler.c:92-144 | yields let every ready task of the current one's level run exactly if the current task is not READY at the head of its list; if it is, no yield changes anything |
| SchedFairness.YieldSwitches | src/kernel/scheduler.c:101 | a yield passes the turn to a peer under exactly that condition |
| SchedFairness.RejoinsRing | src/kernel/scheduler.c:105-114 | a ready current task behind its peers joins them at the end of the ring |
| SchedFairness.YieldSticks | src/kernel/scheduler.c:128-144 | a running task gets stuck in front by yielding exactly if no ready task has its priority or a better one |
| SchedFairness.ReusedSlotSticks | src/kernel/task.c:72-99 | a task created in the slot of a current task that deleted itself is stuck in front exactly if no ready task has its priority or a better one |
| SchedFairness.ResumedSticks | src/kernel/task.c:165-182 | so is a current task that suspended itself and is resumed |
| SchedFairness.LoneYield | src/kernel/scheduler.c:101 | create, start, yield, create reaches such a state, with the second task ready and never to run |
| SchedFairness.DeletedAlone | src/kernel/task.c:72-99 | create, start, delete, create reaches such a state |
| SchedFairness.StuckStep | src/kernel/scheduler.c:92-144 | a call leaves a task stuck in front exactly if it neither comes from nor names that task and readies none of better priority |
| SchedFairness.Starves | src/kernel/scheduler.c:92-144 | through any run of such calls, yields and ticks included, no other task is dispatched |
| SchedTheorems.BlockedStays | src/kernel/task.c:185-194 | no call but its own deletion or suspension ends a task's blocked state |
| SchedTheorems.BlockedForever | src/kernel/task.c:185-194 | through any run, of any length, without its own deletion or suspension a blocked task stays blocked |
| SchedTheorems.DelayedForever | src/kernel/task.c:185-194 | in particular a task that called task_delay, whatever time it asked for |
| SchedTheorems.TwoRun | src/kernel/scheduler.c:101-114 | a start while a task runs and another is ready makes two tasks run |
| SchedTheorems.SecondStart | src/kernel/scheduler.c:209-213 | two creations and two starts from the initial state make two tasks run |
| SchedTheorems.SuspendThenResume | src/kernel/task.c:212-220 | task_suspend(0) and task_resume(0) keep the lists in order exactly if the first finds no slot |
| SchedTheorems.UnusedSlotQueued | src/kernel/task.c:141-182 | otherwise the unused slot ends up on ready list 0 |
| SchedTheorems.UnusedSlotRuns | src/kernel/task.c:141-182 | and a yield makes it the current task if no other task has priority 0 |
| SchedDelayed.InsertMeaning | src/kernel/scheduler.c:147-166 | a task goes behind those that wake no later and before all others |
| SchedDelayed.ProcessPool | src/kernel/scheduler.c:169-182 | exactly the due prefix of the list leaves it and becomes ready |
| SchedDelayed.ProcessReady | src/kernel/scheduler.c:169-182 | the tasks woken are appended to their ready lists in the order of the delayed list |
| SchedDelayed.ProcessWakesDue | src/kernel/scheduler.c:169-182 | a task stays on a sorted list exactly if it is not due |
| SchedDelayed.DelayedTaskWakes | src/kernel/scheduler.c:147-166 | inserting a blocked task with a future wake time starts the regime of the next row for it and keeps that of all others |
| SchedDelayed.WakesOnTime | src/kernel/scheduler.c:185-201 | through any run of ticks, yields, creations, resumptions and calls on other tasks a task is on the list exactly before its wake time and can run from then on |
| Scheduler.Kernel.constructor | src/kernel/scheduler.c:20-28 | the initial state satisfies the invariant |
| Scheduler.Kernel.SchedulerAddTask | src/kernel/scheduler.c:31-52 | the linked lists change as the model's do: the task is ready and last on its list |
| Scheduler.Kernel.SchedulerRemoveTask | src/kernel/scheduler.c:55-78 | the task is unlinked from its list, all others stay |
| Scheduler.Kernel.GetHighestPriorityTask | src/kernel/scheduler.c:82-89 | the scan over the list heads finds the model's choice |
| Scheduler.Kernel.SchedulerYield | src/kernel/scheduler.c:128-144 | refines the model's yield |
| Scheduler.Kernel.SchedulerStart | src/kernel/scheduler.c:209-213 | refines the model's start, and says exactly when the state stays valid |
| Scheduler.Kernel.AddToDelayedList | src/kernel/scheduler.c:147-166 | the walk finds the model's place and splices the task in; ready lists stay |
| Scheduler.Kernel.ProcessDelayedTasks | src/kernel/scheduler.c:169-182 | refines the model's processing of the delayed list |
| Scheduler.Kernel.SchedulerTick | src/kernel/scheduler.c:185-201 | refines the model's tick |
| Scheduler.Kernel.TaskGetTcb | src/kernel/task.c:212-220 | the first slot with this identifier that is not deleted |
| Scheduler.Kernel.TaskCreate | src/kernel/task.c:59-111 | refines the model's creation, status included, and says exactly when the state stays valid |
| Scheduler.Kernel.TaskDelete | src/kernel/task.c:114-138 | refines the model's deletion, status included |
| Scheduler.Kernel.TaskSuspend | src/kernel/task.c:141-162 | refines the model's suspension, says exactly when the state stays valid, and keeps the lists in order in any case |
| Scheduler.Kernel.TaskResume | src/kernel/task.c:165-182 | refines the model's resumption, status included, also after task_suspend(0) |
| Scheduler.Kernel.TaskDelay | src/kernel/task.c:185-194 | refines the model's delay |
| Gf2.DivisionIsUnique | src/bootloader/bootloader.c:7-16 | long division is right: quotient and remainder are the only pair that recombines to the dividend |
| CrcRegister.FeedIsRemainder | src/bootloader/bootloader.c:9-14 | the shift register after any message is the remainder of its polynomial |
| CrcRegister.AbsorbString | src/bootloader/bootloader.c:10-13 | adding up to 32 message bits first and shifting zeros equals feeding the bits one by one |
| CrcRegister.FeedAllInjective | src/bootloader/bootloader.c:12 | feeding a fixed string is injective on registers |
| CrcRegister.BurstsAreDetected | src/bootloader/bootloader.c:7-16 | strings that differ only within 32 consecutive bits have different checksums, for every generator with a constant term |
| CrcRegister.TrailerIsChecked | src/bootloader/bootloader.c:7-16 | message and trailer have the residue as checksum exactly if the trailer is the message's checksum |
| Crc32.StepIsFeed | src/bootloader/bootloader.c:12 | the word operations of a bit step are one step of the division |
| Crc32.Crc32Calculate | src/bootloader/bootloader.c:7-16 | for every message the result is the one word whose bits are the specified remainder |
| Crc32.FourBytesAreDetected | src/bootloader/bootloader.c:7-16 | equal-length messages that differ only within four consecutive bytes never share a CRC |
| Crc32.Residue | src/bootloader/bootloader.c:7-16 | a message with a four-byte trailer has the CRC 0x2144DF1C exactly if the trailer is its own CRC in little-endian order |
| DriverModel.NextMeaning | src/driver_framework.c:151-164 | the selection finds nothing exactly if no device is pending, else the first by priority and place |
| DriverModel.FinalStatusMeaning | src/driver_framework.c:172-188 | the result is the status of the last failed attempt, and OK exactly if none failed |
| DriverModel.LookupMeaning | src/driver_framework.c:53-65 | the first driver of that name, none exactly if there is none |
| DriverAnswers.TriesExplained | src/driver_framework.c:166-191 | in every run of the loop an attempt has status NOT_FOUND if no driver has the name, else what the callback of the first such driver answers in that turn, or OK if it has none |
| DriverAnswers.ResultExplained | src/driver_framework.c:144-196 | the result is OK exactly if no attempt failed, else the status of the last that did, which is NOT_FOUND or its callback's answer |
| DriverAnswers.MissingDriver | src/driver_framework.c:172-176 | if the first device to start has no driver the result is NOT_FOUND |
| DriverAnswers.DataKept | src/driver_framework.c:178-191 | a device ends with the driver_data that the last call of its callback left, or with what it had if none was called |
| DriverTheorems.AttemptsAreOrdered | src/driver_framework.c:150-193 | attempts go up in priority and place; a failed one is repeated, a successful one never |
| DriverTheorems.StartedBySuccess | src/driver_framework.c:191 | a device is initialized afterwards exactly if it was before or an attempt at it succeeded |
| DriverTheorems.NothingAfterPending | src/driver_framework.c:150-193 | while a device is left to start, no device after it is touched |
| DriverTheorems.StartKeepsClosed | src/driver_framework.c:150-193 | the initialized devices stay a downward closed set of the order |
| DriverTheorems.OkResult | src/driver_framework.c:144-196 | after the result OK exactly the devices of priority 255 are left out |
| DriverTheorems.SuccessesCount | src/driver_framework.c:150-193 | successes and devices left to start always add up to the devices there were to start |
| DriverTheorems.NoSpareTurn | src/driver_framework.c:144-196 | if every registered device is to be started, the result is OK exactly if all were, for all drivers and callbacks |
| DriverTheorems.StartedButNotOk | src/driver_framework.c:144-196 | with a turn to spare, drivers for all and a callback among them, one failing call starts every device and returns an error |
| DriverTheorems.ResultIsTruthful | src/driver_framework.c:144-196 | the result is right about whether all devices were started, for every behaviour of the callbacks, exactly if no turn is to spare, or a driver is missing, or no callback is called |
| DriverTheorems.KeepsFailing | src/driver_framework.c:166-189 | a device that cannot start is tried until the turns run out, and no other is |
| DriverTheorems.StartedExactly | src/driver_framework.c:144-196 | with callbacks that succeed, a device is started exactly if its priority is below 255 and neither it nor a pending one before it lacks a driver |
| DriverFramework.Framework.DriverRegister | src/driver_framework.c:28-51 | each status exactly in its case; names stay unique |
| DriverFramework.Framework.DriverLookup | src/driver_framework.c:53-65 | refines the model's lookup |
| DriverFramework.Framework.DeviceRegister | src/driver_framework.c:69-92 | each status exactly in its case; names stay unique |
| DriverFramework.Framework.FindNext | src/driver_framework.c:151-164 | the scan finds the pending device that comes first |
| DriverFramework.Framework.DeviceInitAll | src/driver_framework.c:144-196 | the nested loops refine the model's start-up, devices and result |

## Left out

- Heap.Allocator.RtosFree: bytes that are no header but read as one, magic word included, are excluded by precondition.
- Heap.Allocator.RtosRealloc: a pointer that was released already is excluded by precondition, and so is a size for which the code would copy past the end of the new block.
- Heap.Allocator.RtosCalloc: a product within 3 of the word size, for which the code would clear past the end of the block, is excluded if it can be served.
- Pool.MemoryPool.MemoryPoolDestroy: a record whose pointers are neither those of a pool nor those a failed creation leaves is excluded by precondition.
- Uart.UartInit: configuration other than the two buffer sizes, which are 16-bit, is not modelled.
- Scheduler.Kernel.TaskCreate: name, stack and parameters are not modelled.
- Scheduler.Kernel.TaskDelete: the task must not be on the delayed list, which is empty in every reachable state; likewise for TaskSuspend.
- SchedDelayed.WakesOnTime: the tick counter must not wrap.
- HeapStats.FragmentationBound: the percentage is computed in exact reals, not in `double`.
- The heap's size is the constant of the header file; bytes written by a client never form a header in the model.
- Null handles of pools, queues and UARTs, and null data pointers: single guards at the head of each call.
- Control blocks of queues are objects beside their heap block; only the block's place in the heap is modelled.
- Critical sections, interrupts and context switches: every call is one atomic step; `printf` is dropped.
- The timeout arguments of the message queue: the code ignores them.
- UART callbacks and the DMA path, the I2C and SPI drivers: simulated hardware.
- Semaphores and mutexes: counters and flags that never block; they would add only easy members.
- The interrupt dispatcher: one table lookup.
- `bootloader_verify_image` and `bootloader_jump_to_app`: a magic-number test; the CRC is not called there.
- `memory_check_stack_overflow` and the initial stack frames: comparisons with constants.
- `device_get_by_name` and `device_get_by_driver_and_id`: lookups like `driver_lookup`.
