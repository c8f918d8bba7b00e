# Models and proofs for a 32-bit teaching kernel

Dafny models of the parts of the kernel whose correctness is hard to see from the code, with
proofs about them.  `dafny verify dfyconfig.toml` checks everything.

Each part has a value model (functions from one state to the next), lemmas over whole runs of it,
and, where the source changes things in place, classes and methods proved to compute the value
model.

- **Copy-on-write paging** (`Paging*.dfy`).  Physical memory is a sequence of tagged frames with
  reference counters and the allocator's free list.  Directories and tables are the two levels of
  32-bit paging, section 4.3 of the Intel SDM volume 3A.  Fork shares tables and pages, write faults
  privatise them, exit releases them.  Every process always sees the memory it would own if fork
  copied everything, and no frame is lost.  `PagingReadFault.dfy` shows the one fault that breaks
  this, with its exact condition, and `PagingBoot.dfy` a run from boot that meets it.
  `PagingLive*.dfy` hold the weaker invariant that the views alone rest on; with it the fork that
  copies everything, which leaves read-only entries uncounted, is compared with the one that shares.
  `PagingUnmap.dfy` and `PagingUnmapRange.dfy` have unmapping, and when it takes pages from the wrong
  process.  `PagingEntries.dfy` follows the entries outside the user part and FLAG_US, and
  `PagingRoom.dfy` says how many frames are enough.
- **Concurrent privatisation** (`CowConcurrency.dfy`, `CowProgress.dfy`).  The atomic steps of several copiers of one
  frame, with the 8-bit lock count: safe for all interleavings if and only if there are at most 256
  or the kernel holds a reference of its own, and never stuck.
- **Initial stack** (`Stack*.dfy`).  Arguments and environment written through the page tables and
  read back by the program.
- **Bounded buffer** (`Tickets.dfy`, `BoundedBuffer.dfy`, `BufferProgress.dfy`).  Atomic steps of any
  number of puts and gets, with unbounded tickets behind the modular indices: a FIFO that serves every
  call it has room or a value for.
- **Semaphore, future, queue** (`SemaphoreModel.dfy`, `FutureModel.dfy`, `EventQueue.dfy`,
  `Semaphore.dfy`).  Interleavings as values, and the objects that take their steps.
- **Heap** (`HeapModel.dfy`, `HeapArray.dfy`, `KernelHeap.dfy`).  Blocks and free list as values,
  how they live in the int array, and malloc and free on that array.
- **Bitmap radix tree and memory map** (`BitWords.dfy`, `BitTree*.dfy`, `MemoryMapping.dfy`).  A
  store of reference-counted nodes shared by copies of trees; every tree is a finite map of its own.
- **Ext2 read path** (`Ext2Format.dfy`, `FileLayout.dfy`, `SectorCache.dfy`, `FileReader.dfy`).  From the file system's
  i_block array through indirection, the chunked reader and the sector cache.
- **Paths and user ranges** (`PathResolution.dfy`, `Bounds.dfy`).
- **Dynamic linker** (`Reachability.dfy`, `ConstructorQueue.dfy`, `DependencyList.dfy`, `Linker.dfy`).

Integers are unbounded except where the source's width matters, and there it is written out: the
reference counters, the lock count, the heap's rounding, disk and user addresses.  An allocation that
panics in the source makes an operation return None or false.  Locks are taken to work; what runs
under one is a single step.

## Model

| member | source | states |
|---|---|---|
| PagingSteps.AllocStep | kernel/physmem.cc:21-44 | A frame handed out was free and unnamed; the count invariant holds with it pending, no process view changes, and leak_count minus owned frames is kept |
| PagingSteps.DeallocStep | kernel/physmem.cc:46-56 | Releasing a pending frame that nothing names keeps the invariant, every view and the conservation of leak_count |
| PagingSteps.RefIntoStep | kernel/cow.cc:24-43 | Sharing one entry turns both entries read-only and raises the counter by one or two so that it again counts the read-only entries naming the frame; every table but the one with the new entry maps what it did |
| PagingSteps.RefUpToStep | kernel/cow.cc:68-71 | After sharing any number of entries of a table, source and copy show the same pages and the invariant holds |
| PagingSteps.CopyTableStep | kernel/cow.cc:45-79 | Privatising a page table (in place on the last reference, else by a shared copy) makes the directory entry writable and changes no view of any process |
| PagingSteps.CopyDataStep | kernel/cow.cc:45-79 | Privatising a data frame makes the table entry its only, writable entry and changes no view |
| PagingRelease.UnrefDataStep | kernel/cow.cc:81-106 | Dropping a page entry clears it, frees the frame exactly when it was the last entry, and changes no other view |
| PagingRelease.UnrefTableStep | kernel/cow.cc:81-106 | Dropping a table entry releases the table and, through it, its pages exactly when it was the last reference; other directories keep their views |
| PagingRelease.FreeDirectoryStep | kernel/vmm.cc:308-320 | Freeing a directory removes its views, keeps every other one and keeps the invariant and frame conservation |
| PagingFork.CloneDirectoryStep | kernel/vmm.cc:232-251 | The copy-on-write fork: the child sees exactly what the parent sees and has its entries outside the user part, nobody else changes, the count invariant holds |
| PagingDeepCopy.DeepCloneShows | kernel/vmm.cc:198-230 | The copying fork from any state whose views are sound, counted or not: the child sees exactly what the parent sees and has its entries outside the user part, nobody else changes, no counter changes, and each copied entry keeps its flags on a frame that was free |
| PagingDeepCounts.DeepCloneKeepsCountsIff | kernel/vmm.cc:208-224 | From any sound state the copying fork keeps the count invariant if and only if every present user entry of the forked directory, and every present entry of the tables they name, is writable |
| PagingDeepCounts.CopyAfterReadFaultMiscounts | kernel/vmm.cc:198-230 | A process that has read a page it never wrote is such a case: copying its space breaks the invariant |
| PagingDeepCounts.DeepCloneSucceeds | kernel/vmm.cc:198-230 | The frames the copying fork can need at most; with that many untouched ones it does not panic |
| PagingMap.WriteFaultStep | kernel/vmm.cc:355-360 | The write fault changes no view and leaves both entries on the path writable |
| PagingMap.StoreStep | kernel/vmm.cc:355-360 | A store, with the fault it may take first, changes the one byte of the one page of the one process and nothing else |
| PagingMap.MapAddressStep | kernel/vmm.cc:67-77 | Mapping a fresh frame writable shows its contents at that page only and keeps the count invariant |
| PagingMap.DemandMapStep | kernel/vmm.cc:372-377 | The writable demand-paging branch: the page appears with the given contents, every other page of everyone is as before |
| PagingMap.ZeroMapKeepsCountsIff | kernel/vmm.cc:378-382 | The read branch shows one zero page of one process, and keeps the count invariant if and only if the page table was already there |
| PagingReadFault.ParentStoreReachesChild | kernel/vmm.cc:378-382 | From any sound state: a read fault without a page table, a fork, a store by the parent; the child reads the stored value |
| PagingReadFault.ForkUndercounts | kernel/cow.cc:24-43 | After that fork two directories name the table while its counter is 1 |
| PagingReadFault.ReadFaultRunSucceeds | kernel/vmm.cc:378-382 | Three untouched frames are enough for that sequence to run |
| PagingLive.CountedIsLive | kernel/cow.cc:24-106 | Right counters imply the weaker invariant the views rest on: among reachable entries a writable one is its frame's only one, a counter covers the read-only ones or is 0 for a single one in a table of one process |
| PagingLiveCopy.CopyTableLive | kernel/cow.cc:45-79 | Privatising a table changes no view and makes the entry writable even when the table's counter is 0 and wraps around |
| PagingLiveCopy.CopyDataLive | kernel/cow.cc:45-79 | The same for a page |
| PagingLiveRelease.UnrefTableLive | kernel/cow.cc:81-106 | Dropping a directory entry, counted or not, takes away one table from one process and nothing from the others |
| PagingLiveRelease.FreeDirectoryLive | kernel/vmm.cc:308-320 | Freeing a directory takes away its address space alone, whatever the counters say |
| PagingLiveMap.StoreLive | kernel/vmm.cc:355-360 | A store through uncounted entries changes one byte of one page of one process |
| PagingLiveMap.DemandMapLive | kernel/vmm.cc:372-377 | Demand paging shows one page of one process, whatever the counters say |
| PagingLiveMap.ZeroMapLive | kernel/vmm.cc:378-382 | Mapping the zero frame shows one zero page of one process, with or without a page table there before |
| PagingLiveFork.CloneKeepsLiveIff | kernel/vmm.cc:232-251 | From any state whose views are sound the sharing fork shows the child what the parent sees, and leaves the views sound if and only if no read-only entry of the shared space has counter 0 |
| PagingEntries.CloneUpToCopied | kernel/vmm.cc:237-245 | After any number of rounds of the sharing fork, from any state at all, the child has the entries of the parent outside the user part, no other directory's such entries changed, and FLAG_US is where it was |
| PagingEntries.CopyTableKept | kernel/cow.cc:45-79 | Privatising a table keeps the flags of the entry, FLAG_US on all user entries and all entries outside the user part |
| PagingEntries.CopyDataKept | kernel/cow.cc:45-79 | Privatising a page keeps the flags of the entry, FLAG_US on all user entries and all entries outside the user part |
| PagingLiveEntries.StoreKeeps | kernel/vmm.cc:355-360 | A store, with its faults, keeps the entries of every directory outside the user part and FLAG_US on all user entries |
| PagingLiveEntries.DemandMapKeeps | kernel/vmm.cc:372-377 | So does demand paging, whose new entries carry FLAG_US |
| PagingLiveEntries.ZeroMapKeeps | kernel/vmm.cc:378-382 | So does a read fault |
| PagingLiveEntries.FreeDirectoryKeeps | kernel/vmm.cc:308-320 | So does the exit of another process |
| PagingLiveEntries.CloneFlagged | kernel/vmm.cc:232-251 | After the sharing fork every present user entry carries FLAG_US if it did before |
| PagingLiveEntries.DeepCloneFlagged | kernel/vmm.cc:198-230 | And after the copying fork |
| PagingUnmap.UnmapTableIff | kernel/vmm.cc:266-302 | Unmapping part of one table takes exactly these pages from exactly this process if and only if the entry is absent, writable or counted once, or nothing is mapped outside, or nothing inside, the range; the counts stay right either way |
| PagingUnmapRange.UnmapPagesIff | kernel/vmm.cc:253-306 | The same for a whole range of pages, on the state before the call: exactly the pages asked for go from exactly this process if and only if the first table is harmless in the sense above and so is the last, where the counter of the last may also cover entries of the range before it; the counts stay right and the entries outside the user part stay either way |
| PagingUnmap.UnmapAfterFork | kernel/vmm.cc:276-296 | The failing case after any fork: the child loses the pages the parent unmapped and the parent keeps them |
| PagingRuns.StepRefined | kernel/vmm.cc:232-320 | Every operation (start, fork, store, page in, zero page, exit) keeps the counters right and the kernel mapped in every process, loses no frame and does to the views what it does to private memories |
| PagingRuns.StepShows | kernel/vmm.cc:198-320 | With either fork every operation does to the views what it does to private memories from any state whose views are sound; the sharing fork must find the entries it shares counted |
| PagingRuns.CowRunRefinesPrivate | kernel/vmm.cc:232-251 | Over every run, each process sees exactly the memory it would have if every fork had given the child a private copy and has the entries of the base directory outside the user part, and frames are conserved |
| PagingRuns.CowRunShowsPrivate | kernel/vmm.cc:232-251 | Over every run whose sharing forks find the entries they share counted, read faults of any kind included, each process sees exactly its private memory |
| PagingRuns.GuardedForksCounted | kernel/vmm.cc:232-251 | From right counters, read faults that find their page table are enough for every later fork to find its entries counted |
| PagingRuns.DeepRunRefinesPrivate | kernel/vmm.cc:198-230 | With the copying fork, over every run of every operation and from any state whose views are sound, each process sees exactly its private memory |
| PagingRuns.CowRunEqualsDeepCopyRun | kernel/vmm.cc:198-251 | From any state whose views are sound, the reference-count invariant not needed, both forks give every process the same memory after the same operations as long as each sharing fork finds the entries it shares counted |
| PagingRuns.UserPagesFlagged | kernel/vmm.cc:372-382 | In every state of a run a page a process has mapped carries FLAG_US on both levels |
| PagingRoom.StepSucceeds | kernel/physmem.cc:21-44 | With two frames available no operation panics, and it takes no more than two |
| PagingRoom.RunSucceeds | kernel/physmem.cc:21-44 | A run of n operations does not panic with 2n frames available |
| PagingRuns.NothingLeaks | kernel/vmm.cc:308-320 | With no process left no frame is owned by user memory |
| PagingRuns.RunConservesFrames | kernel/physmem.cc:19-56 | leak_count is back at its start once every process of a run is gone |
| PagingBoot.BootSystemInv | kernel/vmm.cc:93-123 | The invariant of the machine holds after boot |
| PagingBoot.UnguardedRunLeaks | kernel/vmm.cc:378-382 | From any sound state with three untouched frames: the run of a read fault without a page table, a fork and a store succeeds, its fork shares an uncounted entry, and it does not refine private memories |
| PagingBoot.LeakFromBoot | kernel/vmm.cc:378-382 | Such a run exists from boot |
| PagingBoot.CopyMiscountsFromBoot | kernel/vmm.cc:198-230 | From boot a process can be brought to a sound state in which the copying fork breaks the counts |
| PagingMachine.FrameAllocator.constructor | kernel/physmem.cc:58-67 | The allocator starts with an empty free list |
| PagingMachine.FrameAllocator.AllocFrame | kernel/physmem.cc:21-44 | The intrusive free list as a stack: newest released frame first, then untouched ones; fails exactly when both are exhausted |
| PagingMachine.FrameAllocator.DeallocFrame | kernel/physmem.cc:46-56 | The frame becomes the head of the linked free list |
| PagingMachine.Machine.constructor | kernel/vmm.cc:93-123 | After boot the count invariant holds and the kernel has its one reference on the zero frame |
| PagingMachine.Machine.CopyTableEntry | kernel/cow.cc:45-79 | The in-place method computes the specified privatisation of a table from any state whose views are sound |
| PagingMachine.Machine.CopyDataEntry | kernel/cow.cc:45-79 | The in-place method computes the specified privatisation of a page from any state whose views are sound |
| PagingMachine.Machine.HandleWriteFault | kernel/vmm.cc:355-360 | Table first, then page: no view changes, the store can go through, and right counters stay right |
| PagingMachine.Machine.UnrefTableEntry | kernel/cow.cc:81-106 | The nested loops release what the specification releases |
| PagingMachine.Machine.FreeDirectoryFrame | kernel/vmm.cc:308-320 | The loop over the user entries takes away one address space and no other, whatever the counters say; right counters stay right and no frame is lost |
| PagingMachine.Machine.UnmapPart | kernel/vmm.cc:266-302 | The counting loop, the copy and the loop over the table found first compute the specified round, right exactly when harmless |
| PagingMachine.Machine.UnmapPageRange | kernel/vmm.cc:253-306 | The loop over the tables computes the specified unmapping, right exactly when both ends of the range are harmless before the call |
| PagingMachine.Machine.CloneDirectoryFrame | kernel/vmm.cc:232-251 | The fork loop computes the specified copy-on-write fork: the child shows what the parent shows and has the kernel entries of the parent, the views stay sound if and only if the shared entries were counted, and right counters stay right |
| PagingMachine.Machine.CloneDirectoryNoCow | kernel/vmm.cc:198-230 | The two nested loops compute the specified full copy from any state whose views are sound; the child shows what the parent shows and has the kernel entries of the parent, and the counts survive if and only if the space was writable throughout |
| PagingMachine.Machine.FaultInPage | kernel/vmm.cc:372-377 | Allocation and mapping show one page of one process, whatever the counters say, or fail with the specification; right counters stay right |
| PagingMachine.Machine.FaultInZeroPage | kernel/vmm.cc:378-382 | The zero-frame branch shows one zero page of one process, whatever the counters say; right counters stay right iff the table was present |
| PagingMachine.Machine.StoreByte | kernel/vmm.cc:355-360 | A user store updates one byte of one view, whatever the counters say; right counters stay right |
| CowConcurrency.StepInv | kernel/cow.cc:45-79 | With at most 256 entries, or any number and a reference of the kernel's, every atomic step of any copier keeps counter, lock count, the uniqueness of the last copier and the truth of partial copies |
| CowConcurrency.CopiersAreSafe | kernel/cow.cc:45-79 | In every interleaving of at most 256 copiers, or of any number on a frame the kernel holds on to such as the zero frame, no entry turns writable in place while another still reads, at most one does, and finished copies are exact |
| CowConcurrency.ManyCopiersAreUnsafe | kernel/cow.cc:52-61 | For every larger number, and no reference of the kernel's, there is an interleaving in which the 8-bit lock count reads 0 while copiers are reading |
| CowConcurrency.SafeIff | kernel/cow.cc:45-79 | All interleavings are safe if and only if at most 256 entries name the frame or the kernel holds a reference on it |
| CowProgress.EveryCopierFinishes | kernel/cow.cc:45-79 | From every state of every interleaving, of any number of copiers, they can all finish: the counter is then down to the kernel's references and the lock count to 0, exactly one copier keeps the frame unless the kernel does, and the others have copies, exact where the interleaving is safe |
| Tickets.CommitInOrder | kernel/bounded_buffer.h:46-50 | The modular compare-and-swap of a commit succeeds exactly for the operation whose unbounded ticket is next |
| Tickets.ClaimStep | kernel/atomic.h:75-82 | A fetch_add_mod, load and exchange as separate steps, gives out tickets in order and keeps permits, indices and queue in step |
| Tickets.SideIsSemaphore | kernel/semaphore.h:26-38 | Count and queue of a side step as the semaphore does, and an operation is admitted exactly when the semaphore lets it through |
| BoundedBuffer.Window | kernel/bounded_buffer.h:32-78 | Gets claim only committed puts, and no slot is claimed again before it was given back |
| BoundedBuffer.ActRefines | kernel/bounded_buffer.h:32-78 | Every atomic action keeps the buffer invariant and is one step of a FIFO of capacity n |
| BoundedBuffer.RunRefinesFifo | kernel/bounded_buffer.h:32-78 | Under every interleaving of any number of puts and gets the buffer is a FIFO of capacity n |
| BoundedBuffer.KthGetReadsKthPut | kernel/bounded_buffer.h:61-78 | The k-th get to claim a slot reads the value of the k-th put to claim one |
| BoundedBuffer.PutKeepsItsValue | kernel/bounded_buffer.h:32-36 | The value a put was called with is the one its record keeps through any run |
| BoundedBuffer.OldestPutMoves | kernel/bounded_buffer.h:46-50 | The oldest uncommitted put can always take its next step towards its commit |
| BoundedBuffer.OldestGetMoves | kernel/bounded_buffer.h:69-73 | The oldest uncommitted get can always take its next step towards its commit |
| BoundedBuffer.ReachableStatesDrain | kernel/bounded_buffer.h:46-73 | From every reachable state all claimed puts, and all claimed gets, can be brought to commit: the spin loops never deadlock |
| BufferProgress.EveryCallServed | kernel/bounded_buffer.h:32-78 | From every reachable state a run without new calls ends with exactly the first min(puts, n + gets) puts and the first min(puts, gets) gets done, each such get with the value of the put that has its ticket, and no ticket twice |
| SemaphoreModel.RunInv | kernel/semaphore.h:26-55 | In every run waiters exist only at count 0 (the assertion of up), tokens are conserved and downs are let through in the order asked |
| SemaphoreModel.GrantedExactly | kernel/semaphore.cc:6-17 | After any run the downs let through are the first min(asked, initial + ups) of those asked |
| Semaphore.Semaphore.Up | kernel/semaphore.cc:6-17 | The object method is the modelled step: head waiter to the ready queue, or count plus one; its assertion holds |
| Semaphore.Semaphore.Down | kernel/semaphore.h:26-38 | The object method is the modelled step: last in the ready queue if there is a token, else last in the waiting queue |
| Semaphore.Semaphore.AwaitReady | kernel/semaphore.h:45-55 | The object method is the modelled step, without waiting |
| Semaphore.Future.Set | kernel/future.h:23-31 | Called once, it is the modelled step: from here on the callbacks asked for, left to themselves, can all be brought to work on exactly this value, and the first of them is scheduled |
| Semaphore.Future.Get | kernel/future.h:33-42 | The callback waits while the value is not set, and is scheduled at once when it is and no other callback holds the token |
| Semaphore.Future.RunCallback | kernel/future.h:38-41 | A scheduled callback always finds the value set, does its work on it, and leaves exactly one token for the others |
| Semaphore.Future.AwaitReady | kernel/future.h:79-87 | True exactly when the value is set and the token is free; the value is then there, and semaphore and queues are as before |
| FutureModel.RunInv | kernel/future.h:28-42 | In every interleaving, once set, exactly one token is in the semaphore or with one granted callback |
| FutureModel.CallbacksSeeTheValue | kernel/future.h:23-42 | No callback runs before set, and every one that runs sees exactly the value set |
| FutureModel.Drains | kernel/future.h:23-27 | From every state after set the callbacks alone can run until every one of them has done its work on the value: no waiter is lost |
| FutureModel.InternalRunsEnd | kernel/future.h:36-42 | However they are scheduled, the steps of the callbacks under way are bounded by the measure |
| EventQueue.Queue.Add | kernel/queue.h:25-34 | The linked list holds the old elements and the new one at the end |
| EventQueue.Queue.AddStack | kernel/queue.h:36-43 | The linked list holds the new element and then the old ones |
| EventQueue.Queue.Remove | kernel/queue.h:45-56 | The first element leaves, null exactly when there is none |
| EventQueue.Queue.RemoveAll | kernel/queue.h:58-64 | The head of the whole list is returned and the queue is empty |
| EventQueue.Queue.TransferAll | kernel/queue.h:69-86 | The elements of the other queue follow in their order and it is empty |
| HeapModel.InitOk | kernel/heap.cc:127-139 | The heap after heapInit is well formed |
| HeapModel.ScanOk | kernel/heap.cc:153-175 | The scan returns the first smallest of the first twenty fitting blocks in list order |
| HeapModel.CarveOk | kernel/heap.cc:177-187 | Taking a block, whole or split, keeps the heap well formed |
| HeapModel.MallocContract | kernel/heap.cc:141-194 | Null exactly when no available block holds the request between its tags; otherwise the smallest of the first twenty that do, cut to the least size when a block can be made of the rest; no block taken before is touched, and the heap stays well formed |
| HeapModel.WordsLeast | kernel/heap.cc:146-147 | The words asked for are the least block size whose payload holds the request, and for a request that wraps around 32 bits the least size there is |
| HeapModel.PayloadHoldsRequest | kernel/heap.cc:144-147 | The payload holds the request if and only if rounding it up does not wrap around 32 bits |
| HeapModel.FreeContract | kernel/heap.cc:196-229 | The heap stays well formed (tiling, tags, coalesced, list exactly the available blocks, count) and exactly that block stops being live |
| HeapModel.FreeUndoesMalloc | kernel/heap.cc:141-229 | Freeing what malloc returned restores the tiling and the count |
| HeapModel.LiveBlocksDisjoint | kernel/heap.cc:141-194 | Two live blocks do not overlap |
| HeapModel.RunOk | kernel/heap.cc:141-229 | The heap is well formed after every sequence of malloc and free calls |
| HeapArray.UnlinkOk | kernel/heap.cc:86-100 | The two link writes of remove take the block out of the doubly linked list in the array |
| HeapArray.PushOk | kernel/heap.cc:105-110 | The link writes of makeAvail put the block at the head of the list in the array |
| HeapArray.CarveSplitHolds | kernel/heap.cc:177-187 | The writes of a splitting malloc leave the array holding exactly the specified heap, and no word of a live block changes |
| HeapArray.FreeHolds | kernel/heap.cc:217-228 | The writes of free leave the array holding exactly the specified heap, and no word of another live block changes |
| KernelHeap.KernelHeap.constructor | kernel/heap.cc:127-139 | The array holds the initial heap |
| KernelHeap.KernelHeap.MakeTaken | kernel/heap.cc:113-116 | Header and footer carry the negative size |
| KernelHeap.KernelHeap.MakeAvail | kernel/heap.cc:102-111 | Tags and links of a block that becomes the list head |
| KernelHeap.KernelHeap.Remove | kernel/heap.cc:86-100 | The block leaves the linked list |
| KernelHeap.KernelHeap.FindFit | kernel/heap.cc:153-175 | The loop over the linked list finds what the scan specifies; it never meets a taken block |
| KernelHeap.KernelHeap.Malloc | kernel/heap.cc:141-194 | The method computes the specified malloc on the array, null exactly when no available block holds the request, and changes no word of a live block |
| KernelHeap.KernelHeap.Free | kernel/heap.cc:196-229 | The method computes the specified free; null and the array pointer are ignored, a block that is not taken is refused; no word of another live block changes |
| BitWords.ComputeIndexOk | kernel/bit_tree.h:247-271 | The shifts and zero counts find the nearest set bit on the asked side, 32 exactly if there is none |
| BitTreeKeys.LeqIff | kernel/bit_tree.h:243-245 | Comparing level indices from the top is comparing the indices |
| BitTreeRelease.FreeOk | kernel/bit_tree.h:27-50 | Giving up a reference keeps the counts, frees a node only with its last reference, and changes nothing any other reference shows |
| BitTreeCopy.PrivatiseOk | kernel/bit_tree.h:162-177 | An edited node with several owners is replaced by a copy with the same entries; every other owner keeps its view |
| BitTreeCopy.CopyTreeOk | kernel/bit_tree.h:72-73 | A copied tree shows the same entries through shared nodes, all counts in order |
| BitTreeEdit.EditOk | kernel/bit_tree.h:151-211 | Insert and remove return the old entry, change that slot alone, drop emptied nodes and change nothing any other tree shows |
| BitTreeQuery.QueryOk | kernel/bit_tree.h:213-241 | The query returns the entry nearest to the index on the asked side, null exactly if there is none |
| BitTreeRuns.StepRefines | kernel/bit_tree.h:65-140 | Each call does to its tree what it does to a finite map and nothing to the other trees |
| BitTreeRuns.RunRefinesMaps | kernel/bit_tree.h:65-140 | After any run of creating, copying, inserting, removing and destroying, every tree is exactly its finite map |
| BitTreeRuns.LookupExactOk | kernel/bit_tree.h:97-108 | lookup_exact agrees with the map |
| BitTreeRuns.LookupNearOk | kernel/bit_tree.h:110-124 | lookup_floor and lookup_ceil return the entry at the greatest key not above, the least key not below |
| BitTreeRuns.AllReleased | kernel/bit_tree.h:75-77 | With no tree left every node and item has been released exactly once, or was handed back to a caller |
| BitTreeMachine.TreeHeap.constructor | kernel/bit_tree.h:65-70 | An empty forest |
| BitTreeMachine.TreeHeap.OwnNode | kernel/bit_tree.h:162-177 | The copying loops compute the specified private copy |
| BitTreeMachine.TreeHeap.Free | kernel/bit_tree.h:27-50 | The recursive release computes the specified one |
| BitTreeMachine.TreeHeap.EditEntry | kernel/bit_tree.h:151-211 | The recursive in-place edit computes the specified one |
| BitTreeMachine.TreeHeap.CopyOfTree | kernel/bit_tree.h:72-73 | A new tree with the entries of the other |
| BitTreeMachine.TreeHeap.DestroyTree | kernel/bit_tree.h:75-77 | The tree goes, the others stay, and after the last one nothing is left |
| BitTreeMachine.TreeHeap.EditTree | kernel/bit_tree.h:85-140 | Insert and remove on the map of one tree, with the old entry returned |
| BitTreeMachine.TreeHeap.Lookup | kernel/bit_tree.h:97-108 | The entry of the map |
| BitTreeMachine.TreeHeap.Nearest | kernel/bit_tree.h:110-124 | The nearest entry of the map |
| MemoryMapping.FloorFindsCover | kernel/memory_mapping.cc:54-72 | Over disjoint mappings the floor entry covers an address exactly when some mapping does |
| MemoryMapping.MemoryMap.CheckAddress | kernel/memory_mapping.cc:67-72 | The linear scan for a covering mapping |
| MemoryMapping.MemoryMap.FindRange | kernel/memory_mapping.cc:32-43 | The lowest free page-aligned range below the shared page, none exactly if nothing fits; the search terminates |
| MemoryMapping.SearchOn | kernel/memory_mapping.cc:33-40 | Skipping a mapping skips no range that fits |
| MemoryMapping.InsertKeeps | kernel/memory_mapping.cc:46-51 | A mapping placed on a free range keeps the mappings disjoint |
| MemoryMapping.FixedMapDisjointIff | kernel/memory_mapping.cc:25-30 | Probing first and last byte keeps the mappings disjoint if and only if none starts strictly inside |
| MemoryMapping.FixedMapOverlaps | kernel/memory_mapping.cc:25-30 | A concrete accepted fixed mapping that overlaps |
| MemoryMapping.MemoryMap.Map | kernel/memory_mapping.cc:14-52 | All outcomes: EINVAL, ENOMEM, the lowest fit, or the fixed range with the exact condition for staying disjoint |
| MemoryMapping.MemoryMap.Unmap | kernel/memory_mapping.cc:54-65 | The covering mapping goes, nothing exactly if there is none |
| Bounds.CheckBoundsIff | kernel/kernel.cc:16-30 | The 32-bit check equals the range check on unbounded numbers |
| Bounds.ValidateOffsetIff | kernel/kernel.cc:32-38 | Both ends of the range lie in user memory, unbounded |
| Bounds.ValidatePointerIff | kernel/kernel.h:26-31 | The template accepts exactly the arrays all of whose bytes lie in user memory |
| Bounds.ValidatePointerRange | kernel/kernel.h:26-31 | The same as an inequality, for any count including 0 |
| PathResolution.FindNoSymlink | kernel/kernel.cc:40-98 | A lookup that succeeds never returns a symbolic link, on any inode graph |
| PathResolution.FindResolves | kernel/kernel.cc:40-98 | A lookup returns a node if and only if the path stands for it through fewer than depth nested links: a leading slash starts at the root, any other path at the given directory, empty components and dots stay, every other component is an entry of the directory, and a link is a path from its own directory |
| PathResolution.FindDeeper | kernel/kernel.cc:79-91 | Allowing more link depth never changes an answer |
| PathResolution.SelfLinkFails | kernel/kernel.cc:79-91 | A link to itself fails at every depth |
| PathResolution.RestStep | kernel/kernel.cc:54-94 | One turn of the character loop is one component of the path |
| PathResolution.FindFsNode | kernel/kernel.cc:40-98 | The loop over characters terminates and returns exactly the node the path stands for, nothing when there is none within the depth |
| PathResolution.Resolve | kernel/kernel.cc:79-91 | The link loop ends after at most one link and computes the specified node |
| Ext2Format.PlaceOfBlock | kernel/ext2.cc:251-271 | The pointer slot of a logical block is well formed and gives the block back |
| Ext2Format.PlaceIff | kernel/ext2.cc:251-271 | With p pointers to a block, exactly the blocks below 12 + p + p^2 + p^3 have a slot |
| Ext2Format.BlockAtPlace | kernel/ext2.cc:251-271 | Every well-formed slot, at each of the three levels of indirection, is the slot of its block |
| Ext2Format.PlacesDistinct | kernel/ext2.cc:251-271 | Distinct logical blocks use distinct pointer slots |
| Ext2Format.WordBytes | kernel/ext2.cc:286 | A block pointer and its four bytes, least significant first, determine each other |
| FileLayout.BlockIsListed | kernel/ext2.cc:251-295 | The index arithmetic finds the b-th entry of the list the inode spells out: the direct pointers, then the leaves below each indirect pointer in order, and 0 behind its end |
| SectorCache.SectorCache.constructor | kernel/cache.cc:3-4 | An empty cache |
| SectorCache.SectorCache.ReadBlock | kernel/cache.cc:10-30 | The sector of the disk, whatever was read before; the cache stays truthful and holds this sector in its place afterwards |
| FileReader.BlockIO.RecurseRadixTree | kernel/ext2.cc:273-295 | The recursion follows the digits of the block number through the indirect blocks |
| FileReader.BlockIO.GetDataBlock | kernel/ext2.cc:251-271 | The loop finds the disk block of the logical one, the one FileLayout.BlockIsListed characterises, 0 for a hole or beyond the last |
| FileReader.BlockIO.ReadFileBlock | kernel/ext2.cc:130-139 | A block of the file, zeros for a hole |
| FileReader.BlockIO.ReadBlock | kernel/block_io.h:37 | A block of either device |
| FileReader.BlockIO.Read | kernel/block_io.cc:6-33 | One chunk: its exact length and bytes, -1 behind the end, 0 at the end |
| FileReader.BlockIO.ReadAll | kernel/block_io.cc:35-47 | Exactly min(n, size - offset) bytes of the device, nothing else in the buffer changed |
| ConstructorQueue.WalkUp | libc/musl/ldso/dynlink.c:1550-1563 | When an object is queued each dependency is queued before it or reaches it |
| ConstructorQueue.WalkRoom | libc/musl/ldso/dynlink.c:1542-1563 | Queue, stack and current object together never exceed the reached objects, so the two ends of the buffer never meet |
| ConstructorQueue.WalkEnd | libc/musl/ldso/dynlink.c:1550-1564 | With the stack empty the queue lists everything reached, each once, in order |
| DependencyList.ScanEnd | libc/musl/ldso/dynlink.c:1325-1348 | Once every listed object is expanded the list is the closure |
| DependencyList.ExpandTurn | libc/musl/ldso/dynlink.c:1342-1346 | An appended dependency fits the room counted first |
| Linker.Linker.ExtendBfsDeps | libc/musl/ldso/dynlink.c:1303-1352 | The list keeps the direct dependencies as prefix, holds each object reached by one or more edges once, and no mark is left |
| Linker.Linker.ClearMarks | libc/musl/ldso/dynlink.c:1519-1527 | The marks the walk looks at are clear and the count bounds the objects it can meet |
| Linker.Linker.Descend | libc/musl/ldso/dynlink.c:1552-1561 | The inner loop goes down unmarked dependencies to an object that has none left, and terminates on cycles |
| Linker.Linker.QueueCtors | libc/musl/ldso/dynlink.c:1508-1575 | The queue holds everything reached, each once, direct dependencies first unless they depend on their dependent in turn; the marks set are cleared |
| StackImage.RoundTrip | kernel/vmm.cc:158-196 | Any memory holding these words and strings is read back as argc, the arguments, the environment and both null pointers |
| StackImage.DecodeUnique | kernel/vmm.cc:158-196 | What is read back is unambiguous |
| StackImage.StackPointerOk | kernel/vmm.cc:161-169 | For every image no larger than user memory the pointer is 16-byte aligned and pointers and strings fit, one after the other, below the stack start |
| StackImage.ImageInUserMemoryIff | kernel/vmm.cc:161-169 | With the 32-bit subtraction and mask, every byte of the image has its address in user memory if and only if the space needed is at most 0x70000000 |
| StackImage.LongArgumentLeavesUserMemory | kernel/sys.cc:573-588 | An argument that needs one byte more puts the stack pointer below user memory |
| StackImage.RepeatedArgumentLeavesUserMemory | kernel/sys.cc:573-588 | So does a vector of 28672 pointers to one string of 65531 bytes, because the string is counted for every pointer |
| StackPages.DemandMapKeeps | kernel/vmm.cc:147-150 | Mapping a stack page changes no entry that was there, so a remembered frame stays right |
| StackPages.PatchPage | kernel/vmm.cc:153-155 | A write through the frame shows at its addresses and nowhere else |
| StackFrames.DemandMapSlack | kernel/vmm.cc:147-150 | Mapping an absent stack page takes exactly the frames for it and for its table if that is absent, and fails only if the frames are fewer than the absent pages and tables of the range |
| StackWriter.StackBuilder.WriteStackData | kernel/vmm.cc:136-156 | The bytes are at the address as the process sees it, earlier bytes stay, the remembered frame is that of the page, and it fails only for want of frames for the image |
| StackWriter.StackBuilder.PushVector | kernel/vmm.cc:175-183 | Pointers and strings of one array with its null pointer |
| StackWriter.SetUpStack | kernel/vmm.cc:158-196 | Through the page tables of a new directory the program reads back exactly argc, the arguments and the environment; it succeeds if and only if there is a frame for each absent page and page table of the image |

## Left out

- PagingMachine.Machine.constructor: the identity tables that global_init fills are frames whose contents the model does not hold, because no operation on user memory reads them.
- PagingUnmapRange.UnmapPagesIff: takes page numbers in the user part of the directory, after the division of addresses.
- PagingRuns.CowRunRefinesPrivate: requires each read fault to find its page table, because its conclusion includes right counters and no lost frame; CowRunShowsPrivate has the views without it.  In both, reads are views of the tables; translation caches are taken to be flushed at once.
- CowConcurrency.CopiersAreSafe: covers copiers of one data frame; a concurrent ref or unref, and concurrent copies of a page table, whose flag update is not atomic, are sequential steps in the other modules.
- HeapModel.MallocContract: the lock the heap allocates for itself in heapInit is not one of its blocks, and growth of heap_count past 32 bits is not modelled, because fewer blocks than that exist.
- KernelHeap.KernelHeap.Free: the argument is the payload of some block between the sentinels, as the source demands; other pointers are undefined there.
- BitTreeRuns.RunRefinesMaps: takes the removed item out of its slot before its node is released, where the source reads the slot after; and covers 2 to 6 levels, because the copy constructor takes the children of a one-level root for nodes and seven levels exceed 32 bits.
- MemoryMapping.MemoryMap.CheckAddress: the file contents it can also read in are not modelled.
- FileReader.BlockIO.ReadAll: requires the block pointers of the inode to lie within the 32-bit range of the disk, and block sizes 1024, 2048 and 4096.
- SectorCache.SectorCache.ReadBlock: block number 0xFFFFFFFF is excluded, because the cache uses it for an empty entry.
- Linker.Linker.ExtendBfsDeps: requires the direct dependencies of the object to be distinct and all marks clear, as left by every caller; allocation succeeds.
- Linker.Linker.QueueCtors: always allocates its buffer, where the source may use a static one of the same size; the check for threads lost in a fork, after the queue is complete, is not modelled.
- StackWriter.SetUpStack: requires the image to fit into user memory, the exact condition of ImageInUserMemoryIff, because beyond it the writes go to kernel frames whose contents the model does not hold.
- PathResolution.FindFsNode: directories are maps from names to inodes; the scan of directory entries on disk is not modelled.
- Semaphore.Semaphore.Up: the 64-bit count is unbounded.
- The concurrency of the heap, the allocator, the cache and the tree is not modelled beyond their locks making each call one step.
- Device drivers, boot, interrupts, scheduling, ELF loading, system calls, descriptor tables and smart pointers are not modelled; they are hardware access or plumbing.
- The ext2 superblock and group descriptors are not modelled; the location of an inode is taken as given.
- The rest of the C library, and relocation and file search in the dynamic linker, are not modelled; they are thin wrappers or system calls.
