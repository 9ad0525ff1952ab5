# Verification of the runtime's allocators, drivers and image tools

A Dafny model of the parts of the runtime in which the order of steps matters, with proofs
about every input and every run. Nothing was executed. Addresses and sizes are mathematical
integers unless a wrap-around is part of the behaviour, in which case it is written out.

**Allocators** (`libc/malloc`). `FreeList.dfy` defines what one call does to the free list
seen as a sequence of chunks. `FreeListProofs.dfy` and `AlignProofs.dfy` relate the list to
the set of free bytes, `HeapRuns.dfy` treats whole runs. `InBandHeap.dfy` is the allocator
with headers threaded through the free memory, `ExternHeap.dfy` the one with descriptors
outside; each method is proved against the same abstract operations. `InBandRuns.dfy` has
runs of the in-band one with users that store into their blocks, `Lockstep.dfy` serves both
with the same requests.

The central fact is that the list is the only sorted, aligned, fully coalesced list of its
free bytes (`FreeList.Canonical`). Order independence and the restoration of the initial
chunk follow from it.

`__malloc_align` does not always do what it promises. A chunk header is 12 bytes
(`malloc_chunk_t` has three fields) but chunks are multiples of 8, so a header of exactly 8
bytes occurs. Then `libc/malloc/malloc_internal.c:242-245` takes the next aligned address
without adjusting the header's size, and the tail that is freed reaches beyond the reserved
block. The comment above MIN_CHUNK_SIZE says that it fits the chunk header; the code is
followed. `AlignProofs.AlignExact` gives the condition for a correct call, for every list,
size and alignment.

**Mailbox** (`Mailbox.dfy`). Every source line that touches shared state is a step; any
number of cluster cores, the interrupt handler and foreign events interleave. Safety is an
invariant over all runs; liveness is deadlock freedom and a bound that every step decreases.

**Completion handshake** (`TaskHandshake.dfy`). The waiter and the releasing interrupt
handler interleave line by line; a task's stack frame is gone once the waiter returns.

**Transfer queues.** For each driver, one file describes the bookkeeping as a value and
proves facts about whole runs, and one file is the driver with its linked tasks, flags and
buffers, whose methods are proved to do the abstract steps: `UartQueue.dfy` and `Uart.dfy`,
`SpiQueue.dfy` and `Spi.dfy`, `I2cQueue.dfy` with `I2cOrder.dfy` and `I2c.dfy`. Interrupt
handlers and sections with interrupts disabled are atomic. End events occur only while a
transfer is in flight, and I2C transmit interrupts only for buffers that were queued.
Methods whose row cites only some lines of a function (`FindFit`, `FindPlace`, `Take`,
`Chain`, `TrimAround`, `TrimHeader`, `JoinNext`, `NewBefore`, `Absorb`, `LinkBehind`,
`NextSegment`, `NextTransfer`, `Append`, `Complete`, `Note`, `Launch`, `Dispatch`, `Prepare`,
`Wait`, `FillHeader`, `FillRead`, `FillWrite`) are parts of the source function that calls them. `Pmsis.dfy` has the shared task structure.

Facts about the code as it is:

- A UART transfer of more than 131068 bytes never completes: the remainder in `data[3]` is
  not cleared when the last segment is started (`UartQueue.DrainsExactly`).
- An I2C read of no bytes is dropped silently. Taken by the end handler with others behind
  it, it stalls the queue, and the next submission overtakes them
  (`I2cOrder.RunOrderExactly`). Of an I2C transfer of more than 255 bytes only the first 255
  are moved (`I2cQueue.MeantExactly`). A write of up to 510 bytes that stops the bus completes
  all the same; longer writes, writes that do not stop the bus, and all such reads never do,
  unless a transmit interrupt of an earlier transfer is still to come
  (`I2cQueue.LongEndsExactly`, `I2cQueue.StartedEnds`). Reads ignore the NO_START flag although
  the flag's documentation does not exempt them.
- An SPI transfer of less than 32 bits underflows the word count of its command
  (`SpiCommand.DataDecodes`).
- The frequency computation is undefined for 0 and from 2^30 Hz on (`Fll.DefinedExactly`),
  and `pi_fll_set_frequency` returns the request, not the frequency reached.
- The image packer clears as many bits as a word has bytes, so overlapping data is mixed
  (`StimPieces.ImageExactly`); the binary dump loops forever unless the address keys, sorted
  as strings, ascend as numbers (`StimKeys.AscendingExactly`, `StimImage.Stim.GenStimBin`).

**Command streams.** `I2cStream.dfy` interprets the byte streams of the I2C driver with the
command set of `drivers/include/i2c_periph.h`; `SpiCommand.dfy` decodes the SPI command
words.

**Frequency-locked loops** (`Fll.dfy`) with the 32768 Hz reference of the core-v-mcu, pulp
and pulpissimo targets, and **memory images** (`Decimal.dfy`, `ByteWords.dfy`,
`StimPieces.dfy`, `StimKeys.dfy`, `StimImage.dfy`). `Words.dfy` has 32-bit words.

What callers must respect is written in the contracts: sizes are positive, the size passed
to a release rounds to the size allocated, alignments are powers of two, a task is not
submitted again while it is queued, and the region given to initialisation holds a whole
chunk once its start is aligned.

## Model

| member | source | states |
|---|---|---|
| `FreeList.Canonical` | libc/malloc/malloc_internal.c:165-206 | Two sorted, aligned, fully coalesced lists with the same free bytes are equal: the list is a function of the free byte set |
| `FreeListProofs.RunInChunk` | libc/malloc/malloc_internal.c:123-127 | Consecutive free bytes always lie in one chunk, so looking at one chunk at a time misses nothing |
| `FreeListProofs.MallocNull` | libc/malloc/malloc_internal.c:117-163 | NULL if and only if no run of that many consecutive free bytes exists anywhere; NULL leaves the list alone |
| `FreeListProofs.MallocTakes` | libc/malloc/malloc_internal.c:129-158 | The block was free, is aligned, and the free bytes shrink by exactly the block; the list stays sorted and coalesced |
| `FreeListProofs.MallocChoice` | libc/malloc/malloc_internal.c:123-157 | The address is the highest place in the lowest run of free bytes that has room, and so depends on the free bytes only |
| `FreeListProofs.FreeAdds` | libc/malloc/malloc_internal.c:165-206 | Releasing whole aligned bytes that are not free adds exactly them and keeps the list sorted and fully coalesced |
| `FreeListProofs.FreeBytes` | libc/malloc/malloc_internal.c:165-206 | Whatever is released, valid or not, the described bytes become the union |
| `FreeListProofs.FreeUndoesMalloc` | libc/malloc/malloc_internal.c:117-206 | Releasing what an allocation returned restores the identical list |
| `FreeListProofs.FreeCommutes` | libc/malloc/malloc_internal.c:165-206 | Two blocks may be released in either order with the same resulting list |
| `AlignProofs.LowBitsModulo` | libc/malloc/malloc_internal.c:42-43 | The mask of a power of two computes the remainder |
| `AlignProofs.AlignNull` | libc/malloc/malloc_internal.c:221-227 | An aligned request fails if and only if no run of free bytes covers the over-allocation |
| `AlignProofs.AlignCorrect` | libc/malloc/malloc_internal.c:208-255 | Under the condition, the address is aligned, exactly the rounded block leaves the free bytes, header and tail are back on a well-formed list |
| `AlignProofs.AlignWrong` | libc/malloc/malloc_internal.c:236-252 | Without the condition, the bytes that left the list are not those of the block |
| `AlignProofs.AlignExact` | libc/malloc/malloc_internal.c:208-255 | An aligned request is served correctly if and only if sizes are whole and the first fit does not leave exactly one 8-byte chunk before the aligned address |
| `AlignProofs.AlignOverrun` | libc/malloc/malloc_internal.c:242-252 | With an 8-byte header, `align` bytes behind the reserved block are put on the free list, whoever owns them |
| `HeapRuns.InitialWellFormed` | libc/malloc/malloc_internal.c:105-115 | The initial list is well formed if and only if a whole chunk is left after aligning the start |
| `HeapRuns.InitialBytes` | libc/malloc/malloc_internal.c:107-113 | A byte is in the initial list if and only if it lies in an aligned 8-byte cell inside the region, wherever the region starts and whatever its size |
| `HeapRuns.InitialRegion` | libc/malloc/malloc_internal.c:107-113 | The free bytes of the initial list are exactly the whole cells of the region |
| `HeapRuns.StepInv` | libc/malloc/malloc_internal.c:105-255 | Every legal request keeps: live blocks and free chunks disjoint and together exactly the heap, list sorted, aligned, coalesced |
| `HeapRuns.RunPartition` | libc/malloc/malloc_internal.c:105-255 | Over every legal run from initialisation: live blocks and free chunks are disjoint and together exactly the whole cells of the region given, list sorted, aligned, coalesced |
| `HeapRuns.FreeListForgets` | libc/malloc/malloc_internal.c:165-206 | Two histories with the same live blocks have the same free list |
| `HeapRuns.ReleaseAll` | libc/malloc/malloc_internal.c:105-206 | After any run, releasing all live blocks in any order, with any sizes that round to theirs, restores the single initial chunk |
| `HeapRuns.NoneLeft` | libc/malloc/malloc_internal.c:165-206 | Whenever no block is live, the list is the initial one |
| `HeapRuns.AlignedStepInv` | libc/malloc/malloc_internal.c:208-255 | A granted aligned request keeps the partition if and only if it meets the condition of AlignExact |
| `HeapRuns.AlignOverrunExample` | libc/malloc/malloc_internal.c:242-252 | On a heap reached by one request, an aligned request puts all of a live block on the free list |
| `HeapRuns.TotalSizeCounts` | libc/malloc/malloc_internal.c:60-80 | The summed chunk sizes are the number of free bytes |
| `InBandHeap.StoredFrame` | libc/malloc/malloc_internal.c:117-206 | A store outside the header words leaves the list in memory intact |
| `InBandHeap.HeaderWordsFree` | libc/malloc/include/malloc_internal.h:31-47 | Both header words of every chunk lie within its free bytes |
| `InBandHeap.Allocator.Init` | libc/malloc/malloc_internal.c:105-115 | Builds in memory the list that covers all whole cells of the region when any byte is left behind the aligned start, changing only the two header words; otherwise leaves memory alone |
| `InBandHeap.InitInside` | libc/malloc/malloc_internal.c:105-115 | The header written stays inside the region if and only if nothing or at least 8 bytes are left behind the aligned start |
| `InBandHeap.Allocator.FindFit` | libc/malloc/malloc_internal.c:119-127 | The walk stops at the first chunk in memory that is large enough, or at the end, remembering the one before |
| `InBandHeap.Allocator.Malloc` | libc/malloc/malloc_internal.c:117-163 | The walk over memory refines the abstract first fit; only header words of free chunks are stored to |
| `InBandHeap.Allocator.Take` | libc/malloc/malloc_internal.c:129-158 | Second half of the allocation: exact fit unlinked, larger chunk shortened, list in memory again valid |
| `InBandHeap.Allocator.FindPlace` | libc/malloc/malloc_internal.c:167-175 | The walk stops where the chunk belongs by address, both parts of the list still in memory |
| `InBandHeap.Allocator.Free` | libc/malloc/malloc_internal.c:165-206 | The walk and both coalescing steps refine the abstract release; only free headers and the freed block are stored to |
| `InBandHeap.Allocator.Chain` | libc/malloc/malloc_internal.c:189-205 | Second half of the release: joined with the previous chunk or linked behind it |
| `InBandHeap.Allocator.MallocAlign` | libc/malloc/malloc_internal.c:208-255 | Over-allocation and both releases refine the abstract aligned request; no word outside the free bytes changes |
| `InBandHeap.Allocator.TrimAround` | libc/malloc/malloc_internal.c:229-254 | Second half of the aligned request: header and tail released, the header size not adjusted as in the code |
| `InBandHeap.Allocator.TrimHeader` | libc/malloc/malloc_internal.c:236-249 | The header is released and the next aligned address taken when it is too small, without adjusting its size |
| `InBandHeap.Allocator.Info` | libc/malloc/malloc_internal.c:53-81 | Number of chunks, total size and first chunk of the list |
| `ExternHeap.DistinctCount` | libc/malloc/malloc_external.c:84-184 | As many descriptors as list nodes |
| `ExternHeap.NeedsExactly` | libc/malloc/malloc_external.c:146-155 | A release needs a descriptor if and only if the byte behind the freed ones is not free |
| `ExternHeap.ExternAllocator.Init` | libc/malloc/malloc_external.c:52-77 | Status, list over all whole cells of the region, and descriptors, including the descriptor lost when the region is too small and those of an earlier initialisation |
| `ExternHeap.ExternAllocator.Deinit` | libc/malloc/malloc_external.c:79-82 | No descriptor is left if and only if the list had one chunk |
| `ExternHeap.ExternAllocator.FindFit` | libc/malloc/malloc_external.c:86-94 | The walk stops at the first chunk that is large enough, or at the end |
| `ExternHeap.ExternAllocator.FindPlace` | libc/malloc/malloc_external.c:137-144 | The walk stops where the chunk belongs by address |
| `ExternHeap.ExternAllocator.Malloc` | libc/malloc/malloc_external.c:84-132 | Refines the same abstract first fit; live descriptors equal list length |
| `ExternHeap.ExternAllocator.Take` | libc/malloc/malloc_external.c:96-126 | Second half of the allocation: an exact fit gives its descriptor back |
| `ExternHeap.ExternAllocator.Free` | libc/malloc/malloc_external.c:134-184 | Fails if and only if a descriptor is needed and none is available, and then changes nothing; otherwise refines the abstract release |
| `ExternHeap.ExternAllocator.JoinNext` | libc/malloc/malloc_external.c:146-152 | The next chunk absorbs the freed bytes in its own descriptor |
| `ExternHeap.ExternAllocator.NewBefore` | libc/malloc/malloc_external.c:153-163 | A fresh descriptor for the freed bytes |
| `ExternHeap.ExternAllocator.Absorb` | libc/malloc/malloc_external.c:167-173 | The previous chunk grows by the freed one, whose descriptor is given back |
| `ExternHeap.ExternAllocator.LinkBehind` | libc/malloc/malloc_external.c:174-177 | The freed chunk follows the previous one |
| `ExternHeap.ExternAllocator.Chain` | libc/malloc/malloc_external.c:165-183 | Merged into the previous chunk, descriptor returned, or linked behind it |
| `InBandRuns.HeaderNotLive` | libc/malloc/malloc_internal.c:117-206 | A header word is never a word of a live block |
| `InBandRuns.Serve` | libc/malloc/malloc_internal.c:117-255 | One request of any kind, with the size its caller passes: the address of the abstract heap, partition kept, no word of a block that stays live changed |
| `InBandRuns.StoreWord` | libc/malloc/malloc_internal.c:117-206 | A store of a user into its own block leaves the list in the shared memory intact |
| `InBandRuns.StoresIgnored` | libc/malloc/malloc_internal.c:117-255 | What users store does not influence the course of the requests |
| `InBandRuns.ServeAll` | libc/malloc/malloc_internal.c:117-255 | Any run of requests and user stores: the addresses are those of the requests alone, and from every point of the run on, the words of each block live there and not given back later hold what its user stored last |
| `Lockstep.ServeBoth` | libc/malloc/malloc_external.c:84-184 | One request, with the size its caller passes, with or without a descriptor available: refused exactly when a release needs one that is missing, then blocks, list, descriptors and memory stay; otherwise same address and same free intervals |
| `Lockstep.AcceptedRun` | libc/malloc/malloc_external.c:134-184 | A run with refused releases is the run of the requests that were served |
| `Lockstep.AllAvailable` | libc/malloc/malloc_external.c:153-163 | With descriptors available every request is served |
| `Lockstep.ServeAllBoth` | libc/malloc/malloc_external.c:84-184 | Any run under any schedule of available descriptors: the same addresses for the served requests, the same free intervals, descriptors equal to list length |
| `Lockstep.Lifetime` | libc/malloc/malloc_external.c:52-184 | From initialisation over any run under any schedule of descriptors after which no block is live, to deinitialisation: initial chunk restored in both, no descriptor left |
| `Lockstep.AllReturned` | libc/malloc/malloc_external.c:134-184 | Such a run is any run followed by the release of all live blocks in any order |
| `Mailbox.NextInv` | drivers/cluster/cl_to_fc_delegate.c:28-65 | Every step of any core or the handler keeps mutual exclusion, slot ownership, pending wakeups and delivery accounting |
| `Mailbox.Delivery` | drivers/cluster/cl_to_fc_delegate.c:28-65 | Over every interleaving of any number of cores: the slot is empty whenever it is written; in write order, a word with its low bit set runs the callback of the task without that bit, any other word is pushed, the task without the bit is released, and all but the word in the slot are released |
| `Mailbox.WakeupPending` | drivers/cluster/cl_to_fc_delegate.c:48-64 | A waiting core has its event bit set, or the interrupt is pending, or the handler is running |
| `Mailbox.NoDeadlock` | drivers/cluster/cl_to_fc_delegate.c:28-65 | Unless everything is done, a core or the handler can move |
| `Mailbox.CostDrops` | drivers/cluster/cl_to_fc_delegate.c:28-65 | Every step of a core or the handler decreases a bound on the remaining steps |
| `Mailbox.RunBound` | drivers/cluster/cl_to_fc_delegate.c:28-65 | The length of every run is bounded by the initial cost and the number of foreign events |
| `Mailbox.RunLength` | drivers/cluster/cl_to_fc_delegate.c:28-65 | n cores with at most k tasks each take at most n (k (2n + 10) + 7) steps, plus 2n + 1 for each foreign event |
| `Mailbox.AllDelivered` | drivers/cluster/cl_to_fc_delegate.c:28-65 | When nothing can move, every core has sent all its tasks in order, and each word was called or pushed as its low bit says and released exactly once |
| `TaskHandshake.NextInv` | drivers/pmsis_task.c:24-112 | Every interleaved line keeps the semaphore, done and destroy fields consistent |
| `TaskHandshake.HandshakeSafe` | drivers/pmsis_task.c:24-112 | Over every interleaving: a semaphore is alive whenever it is about to be given or deleted, none is deleted twice, the releaser is finished before the waiter returns; at return it was given once and deleted once, after all calls of the destruction |
| `TaskHandshake.NoMutexSafe` | drivers/pmsis_task.c:89-112 | Without a semaphore: the same safety, nothing given or deleted |
| `TaskHandshake.WaiterProgress` | drivers/pmsis_task.c:48-76 | Once released, every step of the waiter brings it closer to its return |
| `Pmsis.HandleEndOfTask` | drivers/uart.c:359-368 | A blocked caller is released; a callback task is left as it is |
| `Pmsis.LinkedPop` | drivers/uart.c:425-439 | Behind the first task a linked queue is a linked queue |
| `Pmsis.LinkedPush` | drivers/uart.c:402-422 | A task linked behind the last one makes a linked queue |
| `UartQueue.RunAccounts` | drivers/uart.c:224-439 | Over every run of submissions, end events and aborts: submitted = completed or flushed, then queued, in order, once each; completed ones got exactly one segment; issued segments are those of the transfers in order |
| `UartQueue.LargeBlocks` | drivers/uart.c:349-387 | A transfer larger than one segment stays at the head and blocks the queue until aborted |
| `UartQueue.SmallDrain` | drivers/uart.c:388-398 | Transfers of at most one segment are completed by one end event each, in order |
| `UartQueue.DrainsExactly` | drivers/uart.c:371-399 | End events can empty a queue if and only if all its transfers fit one segment |
| `UartQueue.SegmentsTile` | drivers/uart.c:341-357 | The first ceil(size / 131068) segments are contiguous, ascending, full but for the last, and end where the buffer ends |
| `UartQueue.SegmentsSum` | drivers/uart.c:341-387 | Together they move exactly the requested bytes |
| `UartQueue.Overrun` | drivers/uart.c:382-387 | The segment started after those lies behind the buffer |
| `Uart.Direction.constructor` | drivers/uart.c:105-168 | An empty queue and an idle channel |
| `Uart.Direction.CopyExec` | drivers/uart.c:341-357 | Starts the segment and leaves the remainder in the repeat word, which it never clears |
| `Uart.Direction.Enqueue` | drivers/uart.c:402-422 | The linked queue grows by the task; 0 if and only if it was empty |
| `Uart.Direction.Pop` | drivers/uart.c:425-439 | The first task leaves the linked queue; an empty queue has no tail |
| `Uart.Direction.Copy` | drivers/uart.c:303-338 | Refines a submission; a buffer outside L2 is refused and task, queue and uDMA stay as they were; the uDMA is busy exactly when the queue is not empty |
| `Uart.L2Mask` | drivers/uart.c:311 | The accepted addresses are those the mask of the source lets through |
| `Uart.Direction.Handler` | drivers/uart.c:371-399 | Refines an end event; the head exists whenever the uDMA signals; it is marked done if and only if it is complete and its caller waits, and no task changes its kind |
| `Uart.Direction.NextSegment` | drivers/uart.c:382-387 | The head goes on with its next segment and is not released |
| `Uart.Direction.NextTransfer` | drivers/uart.c:388-398 | The head is popped and marked done if its caller waits, the next transfer is started from the words it carries |
| `Uart.Direction.Abort` | drivers/uart.c:224-264 | Flushes the queue and stops the uDMA |
| `Uart.Interface.Write` | drivers/uart.c:303-338 | A submission to transmit leaves the receiving direction as it was |
| `Uart.Interface.Read` | drivers/uart.c:303-338 | A submission to receive leaves the transmitting direction as it was |
| `Uart.Interface.Handler` | drivers/uart.c:371-399 | An end event on one channel releases its head if it is complete and waited for, and leaves the other channel as it was; afterwards each channel is busy exactly when a transfer is queued there |
| `Uart.Interface.Abort` | drivers/uart.c:224-264 | An abort of one channel leaves the other and its uDMA as they were |
| `SpiQueue.NextAccounts` | drivers/spi.c:236-306 | Every step keeps: a free slot means an empty queue, started = completed then in flight, started then queued = submitted |
| `SpiQueue.RunInOrder` | drivers/spi.c:236-306 | The same over every run: at most one in flight, submission order, nothing lost |
| `SpiQueue.Drain` | drivers/spi.c:261-306 | One end event each completes everything in order |
| `SpiCommand.DataDecodes` | drivers/spi.c:365-371 | The master decodes the requested move if and only if there is at least one whole word; below, the count underflows |
| `SpiCommand.DataComplete` | drivers/spi.c:574-576 | All bits are moved if and only if the length is a positive number of whole words |
| `SpiCommand.EndDecodes` | drivers/spi.c:577-578 | The end command raises the event and keeps the chip select as the flags ask |
| `SpiCommand.BufferFits` | drivers/spi.c:353-360 | The buffer has the least number of bytes for the bits, and the limit is 8192 of them |
| `SpiCommand.CommandsPerform` | drivers/spi.c:572-578 | The four words configure, select the chip, move every whole word in the requested direction and mode, then signal and keep the select as asked, if and only if the chip select is below 4 and there is a whole word; the buffer is exhausted if and only if the length is whole words |
| `Spi.Spim.Enqueue` | drivers/spi.c:123-150 | The queue grows by a task carrying the whole transfer; also when it was empty |
| `Spi.Spim.Append` | drivers/spi.c:137-147 | The task becomes the last of the linked queue |
| `Spi.Spim.Pop` | drivers/spi.c:152-166 | The first task leaves the queue, still carrying its transfer |
| `Spi.Spim.Async` | drivers/spi.c:337-402 | Refines a submission in either direction; aborts exactly above 8192 bytes; the command buffer in flight holds the right words |
| `Spi.Spim.ExecNext` | drivers/spi.c:236-257 | A popped task starts exactly the transfer it was submitted with |
| `Spi.Spim.Complete` | drivers/spi.c:270-296 | The task in the slot is released and forgotten |
| `Spi.Spim.EotHandler` | drivers/spi.c:261-306 | Refines the end event; afterwards neither slot nor queue refers to the released task |
| `I2cStream.ReadPerforms` | drivers/i2c.c:492-544 | The command interpreter performs START, the address byte with the direction bit set, n-1 acknowledged reads and one refused read (section 3.1.6 of NXP UM10204), then goes on behind the stream; at most 16 bytes, all in byte range |
| `I2cStream.WritePerforms` | drivers/i2c.c:546-597 | Address unless NO_START, then exactly the bytes of the separately queued buffer, one by one; at most 16 command bytes |
| `I2cStream.TrailerPerforms` | drivers/i2c.c:323-336 | STOP only when asked for, then the wait and the end-of-transfer signal |
| `I2cQueue.RunAccounts` | drivers/i2c.c:358-470 | Over every run: no transfer lost or duplicated, one in flight, transmit channel = frames of the completed ones then the current one, receive windows those of the performed reads |
| `I2cQueue.RunPerforms` | drivers/i2c.c:358-597 | Over every run: interpreting everything queued on the transmit channel performs the completed transfers, at most 255 bytes of each, with their trailers, then the one in flight, and nothing else |
| `I2cQueue.MeantExactly` | drivers/i2c.c:512-524 | A transfer does on the bus what it asks for if and only if it has at most 255 bytes; otherwise the rest is missing |
| `I2cQueue.FlagBits` | drivers/include/i2c.h:84-89 | Stop and start are suppressed by the bits the interface gives to NO_STOP and NO_START |
| `I2cQueue.LongBlocks` | drivers/i2c.c:298-380 | A transfer whose trailer needs more transmit interrupts than there are buffers to signal, or that is long and must not stop the bus, is never completed, whatever happens |
| `I2cQueue.EndsExactly` | drivers/i2c.c:298-380 | Interrupts of queued buffers can complete the transfer in flight if and only if there are as many of them as its trailer needs, and it is short or stops the bus |
| `I2cQueue.StartedEnds` | drivers/i2c.c:512-596 | A started transfer can be completed if and only if it has at most 255 bytes, or stops the bus and has at most 255 bytes for each buffer still to be signalled |
| `I2cQueue.LongEndsExactly` | drivers/i2c.c:512-596 | With no buffer left over: beyond 255 bytes no read is ever completed, a write if and only if it stops the bus and has at most 510 bytes |
| `I2cOrder.SettledExactly` | drivers/i2c.c:402-421 | After the end handler a free slot means an empty queue, except exactly when it took an empty read with others waiting behind |
| `I2cOrder.Stalled` | drivers/i2c.c:501-502 | In the exceptional state no interrupt changes anything but the count of interrupts to come |
| `I2cOrder.OvertakeExample` | drivers/i2c.c:501-502 | In that state a later write overtakes an earlier one |
| `I2cOrder.OvertakenExactly` | drivers/i2c.c:402-421 | A submission finds a free slot with others waiting if and only if it comes after the end handler took an empty read with others behind it |
| `I2cOrder.OrderKept` | drivers/i2c.c:402-470 | A run without such a submission takes the transfers in the order of their submission |
| `I2cOrder.OrderExactlyFrom` | drivers/i2c.c:402-470 | For transfers that can be told apart: order of submission if and only if no submission finds a free slot with others waiting |
| `I2cOrder.RunOrderExactly` | drivers/i2c.c:402-470 | Over every run, submissions numbered so that equal ones differ: order of submission if and only if nothing is submitted after the end handler took an empty read with others behind it; the numbers do not influence the driver |
| `I2cOrder.RunInOrder` | drivers/i2c.c:402-470 | In particular without empty reads: submission order, and a free slot means an empty queue |
| `I2cOrder.Drain` | drivers/i2c.c:358-421 | Whatever the order of the interrupts: after exactly as many as there are buffers, trailers and ends to signal, everything is completed in order, for transfers of at most 255 bytes that are no empty reads; before that the hardware can always raise one |
| `I2c.Interface.constructor` | drivers/i2c.c:680-705 | Empty slot and queue, trailer with the wait limited to 255 |
| `I2c.Interface.Enqueue` | drivers/i2c.c:447-458 | The queue grows by a task carrying its transfer |
| `I2c.Interface.Pop` | drivers/i2c.c:460-470 | The first task leaves the queue; the stale tail is never followed |
| `I2c.Interface.FillHeader` | drivers/i2c.c:504-510 | The command buffer holds divider, start and address |
| `I2c.Interface.FillRead` | drivers/i2c.c:504-532 | Filling by index stays in the 16-byte buffer and yields the read commands |
| `I2c.Interface.FillWrite` | drivers/i2c.c:556-584 | Filling by index stays in the 16-byte buffer and yields the write commands |
| `I2c.Interface.Note` | drivers/i2c.c:512-525 | Flags and pending part that a started transfer leaves behind, and the size of its first part |
| `I2c.Interface.Launch` | drivers/i2c.c:586-596 | Slot and channel contents of the started transfer |
| `I2c.Interface.ExecRead` | drivers/i2c.c:492-544 | Refines the start of a read of any length; an empty read changes nothing |
| `I2c.Interface.ExecWrite` | drivers/i2c.c:546-597 | Refines the start of a write of any length |
| `I2c.Interface.Execute` | drivers/i2c.c:824-832 | Starts the transfer in its direction |
| `I2c.Interface.Prepare` | drivers/i2c.c:807-812 | The task carries the whole transfer |
| `I2c.Interface.Wait` | drivers/i2c.c:818-822 | With the slot taken the transfer is queued |
| `I2c.Interface.Copy` | drivers/i2c.c:803-834 | Refines a submission: started when the slot is free, queued otherwise; the transfer is the one asked for, with each byte of its buffer |
| `I2c.Interface.HandlePending` | drivers/i2c.c:298-321 | The next part of a long transfer is counted and its commands overwrite the buffer, but nothing is queued |
| `I2c.Interface.SendStop` | drivers/i2c.c:323-329 | The whole trailer, and nothing is due any more |
| `I2c.Interface.SendOnlyEot` | drivers/i2c.c:331-336 | The trailer without its stop |
| `I2c.Interface.Dispatch` | drivers/i2c.c:367-374 | A part is counted, or the trailer that is due is queued, once |
| `I2c.Interface.TxHandler` | drivers/i2c.c:358-380 | Refines the transmit interrupt of a queued buffer |
| `I2c.Interface.Complete` | drivers/i2c.c:402-410 | The task in the slot is released and forgotten |
| `I2c.Interface.EotHandler` | drivers/i2c.c:402-421 | Refines the end interrupt; slot, queue and head do not refer to the released task |
| `Fll.DefinedExactly` | drivers/fll.c:55-63 | For 32-bit frequencies the computation is defined if and only if 1 <= freq < 2^30 |
| `Fll.DividerIs` | drivers/fll.c:59-60 | The divider is half of 29 less the highest bit of the frequency, and at least 1 |
| `Fll.Settings` | drivers/fll.c:55-78 | For those: no step overflows, Mult fits 16 bits, Div lies in 2..15, and reading back gives exactly the predicted frequency |
| `Fll.ReadBackIs` | drivers/fll.c:71-78 | For all 16-bit Mult and 4-bit Div the read-back frequency is Fref * Mult / 2^(Div-1) rounded down, and Fref * Mult for Div 0 |
| `Fll.ErrorBound` | drivers/fll.c:55-69 | 0 <= freq - fres < Fref/2^(Div-1), no larger Mult would stay below freq, and (freq - fres)^2 < 4 * freq |
| `Fll.Reprogrammed` | drivers/fll.c:55-69 | Programming the reached frequency again gives the same setting if and only if the request was not 1 Hz, which yields 0 Hz |
| `Fll.RegisterUpdate` | drivers/fll.c:94-97 | The bits of both factors that fit their fields are read back from the register, whatever the factors, and all other fields are kept |
| `Fll.Flls.SetFrequency` | drivers/fll.c:80-110 | Programs the nearest setting from below in the right fields of one loop only, but remembers and returns the request, which is the frequency reached if and only if it lies on the grid of the divider |
| `Fll.Flls.GetFrequency` | drivers/fll.c:179-193 | The measured frequency, which replaces the remembered one, or the remembered one, as the 32-bit signed number congruent to it |
| `Decimal.IntOfStr` | scripts/stim_utils.py:61-68 | Reading an address key back gives the address, so keys are unique |
| `Decimal.SortedLike` | scripts/stim_utils.py:162 | Sorted order puts the smaller address first if and only if it is not above the larger one cut to as many digits |
| `ByteWords.OrIs` | scripts/stim_utils.py:66 | Merging leaves the new byte if and only if all bits of the old one are in it |
| `ByteWords.OrByte` | scripts/stim_utils.py:66 | Merging words merges byte by byte |
| `ByteWords.FromBytesByte` | scripts/stim_utils.py:66 | The bytes of a little-endian word are the bytes it was made of |
| `StimImage.Stored` | scripts/stim_utils.py:52-70 | Storing a chunk merges its bytes with what the mask leaves and touches no other byte of the image |
| `StimPieces.ByteExactly` | scripts/stim_utils.py:52-84 | At every address the final image holds the last byte stored there if and only if that byte has all the bits left behind by the earlier ones that no later piece cleared |
| `StimPieces.ImageExactly` | scripts/stim_utils.py:52-84 | The final image is the last-writer overlay if and only if that holds at every address |
| `StimPieces.OverlayExactly` | scripts/stim_utils.py:52-84 | The image is the overlay after every single piece if and only if no piece is stored over bits that the mask keeps and the data lacks |
| `StimPieces.DisjointPacked` | scripts/stim_utils.py:52-84 | Disjoint pieces at any alignment, either width: every covered byte is the piece's, every other byte is 0 |
| `StimPieces.OverlapExample` | scripts/stim_utils.py:65-66 | A rewritten byte becomes a mix of old and new |
| `StimKeys.AscendingExactly` | scripts/stim_utils.py:162-167 | The sorted keys ascend as numbers if and only if every shorter address is bounded by the leading digits of every larger one |
| `StimKeys.SameDigitsAscend` | scripts/stim_utils.py:162-167 | Addresses of equally many digits always ascend |
| `StimKeys.NineTenExample` | scripts/stim_utils.py:162-167 | 9 and 10 are taken in the wrong order |
| `StimKeys.Sorted` | scripts/stim_utils.py:162 | The keys in ascending string order, each once |
| `StimImage.DumpIsOverlay` | scripts/stim_utils.py:160-170 | Written bytes for disjoint pieces: at every covered address the piece's byte, 0 in the gaps, first and last byte at covered addresses |
| `StimImage.DumpExactly` | scripts/stim_utils.py:151-170 | For any pieces, the written file shows the last byte stored at every address if and only if no byte of the image is mixed |
| `StimImage.Stim.AddArea` | scripts/stim_utils.py:47-49 | The area is remembered behind the others |
| `StimImage.Stim.AddMemWord` | scripts/stim_utils.py:52-70 | One word stored: exactly the bytes up to the word boundary are merged, one key added |
| `StimImage.Stim.AddMem` | scripts/stim_utils.py:76-84 | All bytes merged across words of any alignment, keys of exactly the touched words |
| `StimImage.Stim.IsLoaded` | scripts/stim_utils.py:118-125 | A segment is loaded if and only if there are no areas or one contains it |
| `StimImage.Stim.ParseBinaries` | scripts/stim_utils.py:100-140 | The dictionary is the image of all loaded segments: when no two share an address, every byte is the one from the file, 0 behind it up to the size in memory, and 0 elsewhere |
| `StimImage.LoadedCover` | scripts/stim_utils.py:100-140 | The stored pieces cover just the memory of the loaded segments |
| `StimImage.HoldsSegments` | scripts/stim_utils.py:100-140 | For loaded segments that share no address, every byte of the image is the one they ask for |
| `StimImage.WrittenSegments` | scripts/stim_utils.py:151-170 | And so is every byte of the file, which runs from the lowest to the highest address they reach |
| `StimImage.Stim.Dump` | scripts/stim_utils.py:160-170 | Finishes within a budget if and only if the keys ascend and the gaps fit it, and then wrote every byte of the span; with keys that do not ascend it never finishes |
| `StimImage.Stim.GenStimBin` | scripts/stim_utils.py:151-170 | From segments to file: it comes to an end if and only if the covered addresses are ordered like their numerals; then the file runs from the lowest to the highest address a loaded segment reaches and, when no two share an address, holds the byte each asks for and zeros elsewhere |

## Left out

- InBandHeap.Allocator.MallocAlign: requires whole sizes, because the tail of any other size would have a misaligned header that word memory cannot hold; `AlignProofs.AlignExact` covers those sizes on the list.
- Fll.Flls.SetFrequency: requires 1 <= freq < 2^30, because C does not define the shift otherwise.
- I2c.Interface.TxHandler: requires a buffer that was queued and not yet signalled, and the flags of a reachable state, which `I2cQueue.RunAccounts` proves of every run; outside of those the command buffer of a short transfer could be overwritten.
- I2c.Interface.HandlePending: the commands it leaves are never queued, because that is unfinished in the source.
- `driver_data->pending` is assumed to be allocated; `drivers/i2c.c:683` sets it to NULL and nothing allocates it.
- I2c.Interface.Complete: the slot of a callback task is cleared but the callback is not run, because pushing tasks is not implemented in the source.
- Lockstep.ServeAllBoth: has no user stores, which the external allocator does not share memory with, and no aligned requests, because the external allocator offers none.
- ExternHeap.ExternAllocator.Deinit: requires a non-empty list, because giving NULL back to the L2 heap is up to that heap.
- Address 0 as a block of the external allocator: it would be indistinguishable from NULL.
- Addresses and sizes at or above 2^31 in the allocators; sums are assumed not to wrap.
- Pointer lists are values of a word memory in the in-band allocator; uninitialised memory is a word like any other.
- User stores are whole words; a store of a single byte changes the word it lies in.
- Locks and the per-heap wrappers around the allocators; calls are assumed to be serialised.
- `__malloc_dump`, which only prints.
- The L2 heap that descriptors come from: whether it has one is a parameter.
- Powering, cores and delegation from the fabric controller to the cluster.
- Tasks pushed as callbacks (`pi_task_push` does nothing in the source) and the time they would run at.
- The two channels of a UART are two objects instead of two entries of an array; opening, closing and configuration of all drivers.
- SpiCommand.CommandsPerform: requires at most 65536 bits, because more abort the program, and a configuration word with the opcode that `SPI_CMD_CFG` gives it.
- SPI full duplex and transfers with microcode, which abort; the chip-select list; `spim_rx_handler` and `spim_tx_handler`, which call the modelled handler; sending and receiving are one method because they differ only in the direction and in the order of the two uDMA requests.
- SPI end events for chip selects that are kept; the driver treats them alike.
- I2C bus detection, which bypasses the slot; builds without end-of-transfer interrupts; the chip-select list; a baud rate changed while a transfer waits.
- Contents of I2C write buffers changing while the transfer waits: they are fixed in the model.
- The depth of the uDMA's own queues.
- `pi_fll_init`, locking of the loops, and the 32000 Hz reference of the control-pulp target.
- ELF parsing, the text image file and the efuse generator. Sorting, which the source leaves to its language, is written out as an insertion sort.
