# SGOS2 verification project

A Dafny model of the algorithmic core of SGOS2, a small i386 operating system, with machine-checked proofs.
`dafny verify dfyconfig.toml` checks the whole project.

* **FAT32 over a block cache** (`Fat32Layout`, `Fat32Table`, `Fat32Volume`, `Fat32File`, `BlockCache`, `CachedVolume`): the 32-bit
  address arithmetic, the table as a map of links, cluster loads and stores through blocks, file reads and writes
  that grow chains, and the reference-counted write-back cache over linked buffers. `Volume.disk` is the logical disk
  that `BlockCache` proves every client of the cache sees; `CachedVolume` does its two block operations over the cache.
* **Heap** (`HeapSpec`, `Heap`): the allocator with its address list and bins as linked headers, refining an
  operation on lists of extents, about which runs are reasoned.
* **Virtual regions** (`RegionSpec`, `VirtualMemory`): the ordered region list with its three placements.
* **Threads** (`SchedulerSpec`, `WaitingSpec`, `Scheduler`, `ThreadSteps`): the chains by thread state, the timer that
  edits the list it walks, the choice of the next thread, the calls of threads as steps of a system, and who waits how
  long through any run of them.
* **Queue and semaphore** (`Queue`, `SemaphoreSpec`, `Semaphore`): the linked queue, and the lock as a step system that
  the code over the queue refines.
* **BXML** (`BxmlTree`, `BxmlBinary`, `BxmlCodec`, `BxmlText`, `BxmlReading`, `BxmlRoundTrip`, `BxmlNotation`,
  `BxmlXml`, `BxmlWalk`, `BxmlPath`): the binary and the textual form of a document, each with its specification, its reader and its writer,
  what printing and reading does to any document, and access by path.
* **Calendar and numbers** (`CalendarSpec`, `Calendar`, `NumberSpec`, `Numbers`): civil time and number formatting.

The user-mode copies of the calendar and formatting routines (`sgos2/api/time.c`, `sgos2/api/vsprintf.c`) have the same
function bodies and are not modelled twice. `Formats` states the disk formats in plain numbers. `Arith`, `ByteSeq`, `Lists` and `Wrappers`
hold shared facts about division, byte sequences, lists without repetition and optional values.

Where the code does not do what its comments or callers expect, the model follows the code and states exactly when the
expectation holds: the write that runs out of clusters (`File.Write`), the wrapping reference count (`BufferGet`), the
unheld buffer that is put back (`BufferPut`), the initial block of a small heap (`FreshHeap`), the high placement in
front of all regions (`AllocateHigh`, `LostRegion`), the fixed placement over a predecessor or off a page boundary
(`AllocateFixed`), the queue's count (`PopBack`, `MiscountedQueue`), initial semaphore values other than 1
(`OnlyOneGrants`), the waiting thread that a tick passes over and that sleepers can starve (`TickEntry`, `WaitLaw`,
`Starving`), unlocking a free semaphore (`UnlockKeepsInv`), sleeps of 2^31 milliseconds and more (`SleepOneTick`), the
limits of both BXML round trips (`BinaryRoundTrip`, `TextRoundTrip`, `OneLetterAttribute`), end tags by another name and
a slash behind the name (`EndTagCloses`, `SlashWithoutBlank`), the path that does not
name what it made (`ParsePath`; with `..` in a path the exact condition is not stated), dates before 1968 (`MkTime`),
two-digit years (`DateRoundTrip`) and the upper-case hexadecimal prefix (`PrefixedRoundTrip`). The heap's header has
24 bytes, as its structure says; the comment's 20 is not followed.

## Model

| member | source | states |
|---|---|---|
| Fat32Layout.ClusterAddressing | sgos2/apps/fs/fat32.c:354-361 | The two 32-bit expressions the source marks as not understood name exactly the first byte of the cluster: block times block size plus offset is the data address plus (clu-2) clusters, the offset is inside the block and no intermediate wraps, for every cluster of a volume below 2^32 sectors and every cluster size and block size |
| Fat32Layout.EveryClusterSizeFits | sgos2/tools/wf/fat32.c:341-346 | Both builds, with 4096-byte and with 1024-byte blocks, meet the addressing bound for every cluster size a boot sector can state |
| Fat32Layout.ClustersApart | sgos2/apps/fs/fat32.c:47-54 | Different clusters never share a byte, and none overlaps the table |
| Formats.LowestFirst | sgos2/apps/fs/fat32.c:338-345 | The words of the table are read with the lowest byte first |
| Formats.TableEntry | sgos2/apps/fs/fat32.c:328-345 | Entry c of the table is the word at 4c behind the reserved sectors of 512 bytes |
| Formats.ClusterBytes | sgos2/apps/fs/fat32.c:354-361 | Cluster c is at c - 2 clusters behind the tables |
| Formats.ChainIs | sgos2/apps/fs/fat32.h:78-82 | A chain: numbers from 2 on, each the entry of the one before, the last with an entry of 0x0ffffff8 or more |
| Formats.GrownChain | sgos2/apps/fs/fat32.c:195-203 | The old last entry of a grown chain is the new cluster, whose own entry is 0xffffffff; no other entry changes |
| Fat32Table.WithEntryEffect | sgos2/apps/fs/fat32.c:179-205 | Storing a word of the table changes that entry only, and no cluster |
| Fat32Table.WithCluEffect | sgos2/apps/fs/fat32.c:362-380 | Storing a cluster changes that cluster only, and no entry of the table |
| Fat32Table.ChainAcyclic | sgos2/apps/fs/fat32.h:78-82 | A chain that reaches an end mark visits no cluster twice |
| Fat32Table.SharedTail | sgos2/apps/fs/fat32.h:78-82 | Two chains that meet in a cluster have the rest in common |
| Fat32Table.ChainsApart | sgos2/apps/fs/fat32.h:78-82 | Chains with different last clusters are disjoint |
| Fat32Table.ChainNotFree | sgos2/apps/fs/fat32.h:78-82 | No cluster of a chain is marked free |
| Fat32Table.AppendChain | sgos2/apps/fs/fat32.c:173-205 | Linking a free cluster behind the last one gives a longer chain |
| Fat32Table.AppendKeepsOthers | sgos2/apps/fs/fat32.c:173-205 | Growing one chain leaves every disjoint chain a chain, and disjoint |
| Fat32Table.StarvedChainBroken | sgos2/apps/fs/fat32.c:197-204 | When no entry is free, the 0 that is linked breaks the chain |
| Fat32Volume.EntryAddressing | sgos2/apps/fs/fat32.c:328-337 | The table address of an entry, cut to 32 bits, is the true one and lies inside one block |
| Fat32Volume.ScanWindow | sgos2/apps/fs/fat32.c:214-243 | One block of the free-entry scan covers exactly the entries that its countdown subtracts |
| Fat32Volume.Volume.NextClu | sgos2/apps/fs/fat32.c:324-347 | Following a link returns the entry of the table |
| Fat32Volume.Volume.SetEntry | sgos2/apps/fs/fat32.c:195-203 | Storing an entry updates the table there and changes no cluster |
| Fat32Volume.Volume.GetClu | sgos2/apps/fs/fat32.c:207-246 | The scan takes the lowest free entry and marks it as an end, or returns 0 and changes nothing when none is free |
| Fat32Volume.Volume.AllocClu | sgos2/apps/fs/fat32.c:169-205 | The chain grows by the lowest free cluster; with none free its last link becomes 0 |
| Fat32Volume.Volume.WriteClu | sgos2/apps/fs/fat32.c:350-382 | The copy loop stores exactly one cluster; the table and every other cluster keep their bytes |
| Fat32Volume.Volume.ReadClu | sgos2/apps/fs/fat32.c:385-417 | The load loop returns exactly the bytes of the cluster |
| Fat32File.StoredPiece | sgos2/apps/fs/fat32.c:835-862 | One turn of the write loop extends the stored prefix by one piece |
| Fat32File.StoredAppend | sgos2/apps/fs/fat32.c:837-844 | Growing the chain in the middle of a write keeps what was stored |
| Fat32File.OtherFilesUntouched | sgos2/apps/fs/fat32.c:825-877 | A file whose chain is disjoint from the written one keeps its chain and all its bytes |
| Fat32File.ContentInClu | sgos2/apps/fs/fat32.c:776-790 | The bytes of a file from k clusters on are those of the k-th cluster of its chain |
| Fat32File.CountReaches | sgos2/apps/fs/fat32.c:833-866 | A chain holds a write exactly when it has the rounded-up number of clusters |
| Fat32File.File.CluByOrder | sgos2/apps/fs/fat32.c:747-760 | The walk returns the cluster of that number, or 0 when the chain is too short |
| Fat32File.File.Read | sgos2/apps/fs/fat32.c:763-794 | For every position and recorded size below 2^32, the wrapping difference included: reads exactly the file bytes from the position, limited by count and size, and advances; 0 when the size overstates the chain |
| Fat32File.File.Write | sgos2/apps/fs/fat32.c:825-877 | Answers 0 and changes nothing from a position at or behind the end of the chain; from any other succeeds exactly when the free entries suffice: the bytes are stored, those before stay, those behind a write within one cluster stay unless it begins on its boundary, the chain has grown by formerly free clusters only and to no more clusters than the write needs, position and size move; otherwise returns -1, has linked every free cluster and leaves the chain broken; the file is marked dirty exactly when its size has changed or it was so before |
| Fat32File.File.WriteThenRead | sgos2/apps/fs/fat32.c:763-877 | Reading from where a successful write began returns exactly the written bytes |
| Fat32File.File.Close | sgos2/apps/fs/fat32.c:949-969 | Records the size in the directory entry exactly when the file is dirty and its entry is found, answers -1 exactly when it is dirty and the entry is not found; the file is no longer dirty |
| Fat32File.File.WriteAndClose | sgos2/apps/fs/fat32.c:825-969 | After any run of writes from any positions, one that runs out of clusters ending it, and a close, the recorded size is the size of the file, and no mark is left |
| Fat32File.ReachedIsGreatest | sgos2/apps/fs/fat32.c:866-875 | That size is the greatest of the size before and the ends of the writes that stored something |
| BlockCache.Cache.constructor | sgos2/apps/fs/buffer.cpp:114-137 | All buffers start empty and free, in a well-formed cache |
| BlockCache.Cache.TakeFree | sgos2/apps/fs/buffer.cpp:22-33 | Taking a buffer off the free list keeps the list well linked with the right head and tail |
| BlockCache.Cache.FreePut | sgos2/apps/fs/buffer.cpp:35-44 | A released buffer becomes the newest free one |
| BlockCache.Cache.FindHeld | sgos2/apps/fs/buffer.cpp:144-149 | Finds the referenced buffer of a block exactly when there is one |
| BlockCache.Cache.FindFree | sgos2/apps/fs/buffer.cpp:151-163 | Finds the free buffer that still caches the block exactly when there is one |
| BlockCache.Cache.WriteBack | sgos2/apps/fs/buffer.cpp:170-171 | Writing back an evicted dirty buffer does not change what clients see |
| BlockCache.Cache.Load | sgos2/apps/fs/buffer.cpp:172-181 | Loading a block into a clean buffer does not change what clients see |
| BlockCache.Cache.BufferGet | sgos2/apps/fs/buffer.cpp:140-192 | Returns the one buffer of the block, holding the logical block, with its count raised; a cached block keeps its buffer, any other takes the oldest free one; the logical disk is unchanged; null exactly when the block is not cached and no buffer is free; the invariant is kept exactly when the 16-bit count does not wrap |
| BlockCache.Cache.BufferPut | sgos2/apps/fs/buffer.cpp:199-210 | Drops one reference; with the last one the buffer goes to the newest end of the free list; the logical disk is unchanged; a count of 0 wraps to 65535, and exactly then the invariant is lost |
| BlockCache.Cache.Modify | sgos2/apps/fs/fat32.c:372-375 | A client write to a held buffer changes the logical disk at that block only |
| BlockCache.Cache.Do | sgos2/apps/fs/buffer.cpp:140-210 | One get, put or client write by block: refused exactly when a get would take the count of the block past 65535, or nobody holds the block that is put back or written. A get raises the count of its block by one exactly when the block is cached or a buffer is free, and otherwise leaves it at 0; a put lowers it by one; a write leaves it; the count of every other block stays |
| BlockCache.Cache.Run | sgos2/apps/fs/buffer.cpp:140-210 | Through any run of gets, puts and client writes, dirty evictions included, every buffer stays on exactly one list, at most one buffer caches a block, clients see exactly the writes, and every block is held as often as it was plus its granted gets minus its puts; a get is not granted only for a block that nobody holds; it stops only at a refused operation |
| BlockCache.TallyIs | sgos2/apps/fs/buffer.cpp:140-210 | The reckoning of counts that the run keeps: for each block the count before, the granted gets of it added and the puts of it taken off |
| CachedVolume.FlatBlock | sgos2/apps/fs/fat32.c:337-345 | With the blocks of a device laid end to end, replacing one block patches exactly its bytes: the volume as one sequence of bytes |
| CachedVolume.GetBlock | sgos2/apps/fs/fat32.c:366-370 | Getting a block through the cache and putting it back shows the block as clients see it and changes nothing they see; nothing is shown exactly when the block is not cached and no buffer is free |
| CachedVolume.PutDirty | sgos2/apps/fs/fat32.c:366-375 | Getting a block, changing it and putting it back replaces exactly that block for all clients; refused exactly when the block is not cached and no buffer is free |
| HeapSpec.HashIndexMonotone | sgos2/kernel/mm/allocator.c:46-58 | Bigger blocks never belong to a lower bin |
| HeapSpec.BinRange | sgos2/kernel/mm/allocator.c:29-41 | Bin i holds blocks from 2^(i+5) to below 2^(i+6) bytes, the last bin everything above |
| HeapSpec.InitialBin | sgos2/kernel/mm/allocator.c:205-217 | The last bin, fixed for the initial block, is its own bin exactly from 512 KiB on |
| HeapSpec.BlocksApart | sgos2/kernel/mm/allocator.c:62-112 | Blocks of a tiled region never overlap, headers included |
| HeapSpec.AllocKeepsInv | sgos2/kernel/mm/allocator.c:79-104 | Cutting a block keeps the exact tiling and leaves no two free neighbours |
| HeapSpec.GrantedInNumbers | sgos2/kernel/mm/allocator.c:79-104 | A block with less than 32 bytes to spare is handed out whole, of any other exactly the size asked for, with a free block of the rest, 24 bytes of header taken off, behind it; the other blocks stay |
| HeapSpec.FreeKeepsInv | sgos2/kernel/mm/allocator.c:176-187 | Two-sided coalescing keeps the exact tiling and leaves no two free neighbours |
| HeapSpec.FreeUndoesAlloc | sgos2/kernel/mm/allocator.c:62-191 | Freeing what was just allocated restores the same list of extents |
| HeapSpec.NothingLiveIsInitial | sgos2/kernel/mm/allocator.c:161-191 | With nothing handed out the heap is the single initial block |
| HeapSpec.RunKeepsInv | sgos2/kernel/mm/allocator.c:62-191 | Every state of every run of allocations and frees tiles the region with no free neighbours |
| HeapSpec.LiveFree | sgos2/kernel/mm/allocator.c:161-191 | A free takes exactly its own block off the live ones |
| HeapSpec.FreeingAllRestoresHeap | sgos2/kernel/mm/allocator.c:161-191 | Freeing all live blocks in any order leaves the single initial block |
| HeapSpec.LiveBlocksStay | sgos2/kernel/mm/allocator.c:62-191 | No operation moves or resizes another live block |
| Heap.CalcHashIndex | sgos2/kernel/mm/allocator.c:46-58 | The shift loop computes the bin of a size |
| Heap.BinUnlink | sgos2/kernel/mm/allocator.c:24-27 | The unlinking macro joins the neighbours in a bin |
| Heap.Allocator.constructor | sgos2/kernel/mm/allocator.c:205-217 | The region starts as one free header filed in the last bin |
| Heap.Allocator.FreshHeap | sgos2/kernel/mm/allocator.c:205-217 | A fresh heap is well filed exactly when the region has at least 512 KiB |
| Heap.Allocator.SearchBin | sgos2/kernel/mm/allocator.c:75-79 | The first header of a bin that is big enough, none exactly when none is |
| Heap.Allocator.Find | sgos2/kernel/mm/allocator.c:68-79 | The upward search finds the first fit of the lowest bin that has one, and none exactly when no free block is big enough, even when the 32-bit sum of request and header wraps |
| Heap.Allocator.Split | sgos2/kernel/mm/allocator.c:84-98 | Cutting a block in two inserts the rest into the address list |
| Heap.Allocator.Alloc | sgos2/kernel/mm/allocator.c:62-112 | Takes a free block of at least the requested size from the lowest bin with a fit: what is handed out lies 24 bytes behind its header and has fewer than 32 bytes more than asked for; keeps the whole invariant: tiling, bins, both linked lists; NULL exactly when the request is 0 or no free block is big enough |
| Heap.Allocator.Merge | sgos2/kernel/mm/allocator.c:144-157 | One of two neighbours leaves its bin and the first swallows the second |
| Heap.Allocator.Free | sgos2/kernel/mm/allocator.c:161-191 | Frees the block with coalescing on both sides and keeps the whole invariant; NULL or an already free block changes nothing and returns 0 |
| Heap.Allocator.CheckAllocated | sgos2/kernel/mm/allocator.c:116-141 | True exactly for addresses inside a block handed out |
| RegionSpec.InsertOrdered | sgos2/kernel/mm/virtual.c:23-44 | A region put between its neighbours keeps the list ordered and disjoint exactly when both sides clear it |
| RegionSpec.GapFeasible | sgos2/kernel/mm/virtual.c:64-102 | A range that clears its two neighbours clears every region |
| RegionSpec.CoverUnique | sgos2/kernel/mm/virtual.c:131-140 | At most one region covers an address |
| RegionSpec.HighestPlace | sgos2/kernel/mm/virtual.c:66-80 | The highest feasible place comes behind another region exactly when some feasible place lies behind the first region |
| RegionSpec.AlignedInsert | sgos2/kernel/mm/virtual.c:95-101 | A list of page-aligned regions stays page aligned exactly when the new address is aligned |
| RegionSpec.ReleaseUndoesPlacement | sgos2/kernel/mm/virtual.c:142-163 | Releasing by any address inside it what was just placed restores the list |
| VirtualMemory.KVirtualMemory.InsertPrevious | sgos2/kernel/mm/virtual.c:23-44 | Splices a node before another or at the end and keeps the doubly linked list |
| VirtualMemory.KVirtualMemory.AllocateLow | sgos2/kernel/mm/virtual.c:82-92 | Returns the lowest feasible address, page aligned, and fails exactly when no gap fits |
| VirtualMemory.KVirtualMemory.AllocateHigh | sgos2/kernel/mm/virtual.c:66-80 | Returns the highest feasible address and fails exactly when no gap fits; it goes behind another region exactly when, before the call, some feasible address lies behind the first region, and then the list stays well formed; a placement in front of all others keeps it so only when there were others and the new back link happened to be null |
| VirtualMemory.KVirtualMemory.AllocateFixed | sgos2/kernel/mm/virtual.c:95-101 | Accepted exactly when limits and successor allow it; the list stays disjoint exactly when the predecessor is cleared too, that is when the range was free, and page aligned exactly when the address is |
| VirtualMemory.KVirtualMemory.LostRegion | sgos2/kernel/mm/virtual.c:66-80 | A region placed high in an empty space is listed but not found by its address |
| VirtualMemory.KVirtualMemory.GetVmaByAddress | sgos2/kernel/mm/virtual.c:131-140 | Finds the unique covering region, or nothing exactly when none covers |
| VirtualMemory.KVirtualMemory.Free | sgos2/kernel/mm/virtual.c:142-163 | Removes exactly the covering region and returns its size; otherwise nothing changes |
| VirtualMemory.KVirtualMemory.Allocate | sgos2/kernel/mm/virtual.c:55-116 | Refuses sizes that are not whole pages, else places by the flags; on failure nothing changes |
| Queue.KQueue.constructor | sgos2/kernel/lib/kqueue.c:26-43 | An empty queue; size 0 stands for 0x70000000 |
| Queue.KQueue.PushBack | sgos2/kernel/lib/kqueue.c:46-71 | Adds at the back unless the count has reached the limit |
| Queue.KQueue.PushFront | sgos2/kernel/lib/kqueue.c:74-101 | Adds at the front unless the count has reached the limit |
| Queue.KQueue.PopFront | sgos2/kernel/lib/kqueue.c:103-128 | Takes the front entry unless the count is 0 |
| Queue.KQueue.PopBack | sgos2/kernel/lib/kqueue.c:130-153 | Takes the back entry; the count drops even when there is none |
| Queue.KQueue.RemoveElement | sgos2/kernel/lib/kqueue.c:156-174 | Removes exactly that entry and keeps the order of the others |
| Queue.KQueue.QuickSearch | sgos2/kernel/lib/kqueue.c:198-217 | Finds the entry nearest the back that holds the value, exactly when one does |
| Queue.MiscountedQueue | sgos2/kernel/lib/kqueue.c:130-153 | After popping an empty queue, a queued entry is not returned from the front |
| SemaphoreSpec.InitInv | sgos2/kernel/ipc/semaphore.c:45-48 | A semaphore initialised to 1 satisfies the invariant |
| SemaphoreSpec.FreeIsOne | sgos2/kernel/ipc/semaphore.c:12-42 | The counter is 1 exactly when the semaphore is free |
| SemaphoreSpec.StepKeepsInv | sgos2/kernel/ipc/semaphore.c:12-69 | Every step keeps: the signed counter is 1 minus owners minus waiters, and nobody waits while nobody owns |
| SemaphoreSpec.MutualExclusion | sgos2/kernel/ipc/semaphore.c:12-69 | A lock attempt succeeds exactly when there is no owner, and no step but an unlock changes the owner |
| SemaphoreSpec.DirectHandOff | sgos2/kernel/ipc/semaphore.c:58-69 | Unlocking hands ownership to the longest waiter while the counter stays closed to newcomers |
| SemaphoreSpec.RunInv | sgos2/kernel/ipc/semaphore.c:12-69 | The invariant holds in every state of every run from value 1, however long, with fewer than 2^32 - 1 waiters at a time |
| SemaphoreSpec.NoOvertaking | sgos2/kernel/ipc/semaphore.c:12-69 | In a run of any length: of two waiters the later one owns the semaphore only after the earlier one has |
| SemaphoreSpec.NoNewcomer | sgos2/kernel/ipc/semaphore.c:12-69 | In a run of any length: a thread that neither waits nor owns while another waits owns the semaphore only after that one has |
| SemaphoreSpec.UnlockKeepsInv | sgos2/kernel/ipc/semaphore.c:58-69 | An unlock, by whomever, keeps the invariant exactly when the semaphore is not free |
| SemaphoreSpec.SpareUnlockBlocks | sgos2/kernel/ipc/semaphore.c:29-69 | After the unlock of a free semaphore the next lock sleeps although nobody owns it |
| SemaphoreSpec.OnlyOneGrants | sgos2/kernel/ipc/semaphore.c:51-55 | With any other initial value the first lock sleeps: only 1 makes a working lock |
| Semaphore.KSemaphore.constructor | sgos2/kernel/ipc/semaphore.c:51-55 | A new semaphore refines the initial state of the step system |
| Semaphore.KSemaphore.TryLock | sgos2/kernel/ipc/semaphore.c:12-26 | The code refines the step: through exactly when the value was 1, else the value is restored |
| Semaphore.KSemaphore.Lock | sgos2/kernel/ipc/semaphore.c:29-42 | The code over the linked queue refines the step: through, or asleep behind all waiters |
| Semaphore.KSemaphore.Unlock | sgos2/kernel/ipc/semaphore.c:58-69 | The code over the linked queue refines the step, by whoever it is called: the longest waiter is woken |
| SchedulerSpec.TickEntry | sgos2/kernel/tm/sched.c:146-157 | The fate of each waiting entry in one tick: readied, lowered by one tick, or, right behind an expired first entry, passed over |
| SchedulerSpec.FiresInTime | sgos2/kernel/tm/sched.c:146-157 | While nobody goes to sleep in between, a waiting thread is readied at the latest after its clock in ticks plus one tick for every thread ahead of it |
| WaitingSpec.TickPlace | sgos2/kernel/tm/sched.c:146-157 | In a list with one entry for each thread, a tick takes off exactly the entries that expire, lowers the others by a tick and passes over at most one; nobody moves back |
| WaitingSpec.WaitLaw | sgos2/kernel/tm/sched.c:146-157 | The law of waiting, over any run of calls and ticks in which no call is about the thread: it waits exactly as long as fewer ticks have counted for it than its clock stands for, each of these lowered its clock by one tick, and at most one tick for every entry ahead of it and every sleeper since has passed it over |
| WaitingSpec.InTime | sgos2/kernel/tm/sched.c:146-157 | In any run it is readied at the latest after the ticks of its clock, one for every entry ahead of it and one for every thread put to sleep in the meantime |
| WaitingSpec.NotBefore | sgos2/kernel/tm/sched.c:146-157 | In any run it waits while less time than its clock has passed |
| WaitingSpec.Starving | sgos2/kernel/tm/sched.c:146-157 | A thread that goes to sleep for a millisecond before every tick starves one waiting behind it, for any number of ticks and whatever its clock |
| SchedulerSpec.ChoiceAt | sgos2/kernel/tm/sched.c:188-191 | The k-th choice of consecutive schedulings, counted round the ready chain |
| SchedulerSpec.RoundRobin | sgos2/kernel/tm/sched.c:179-222 | With n ready threads n consecutive choices hit each exactly once, the running one last |
| SchedulerSpec.VisitHeadFires | sgos2/kernel/tm/sched.c:146-157 | Visiting an expired first entry steps over its successor |
| Scheduler.ThreadBox.constructor | sgos2/kernel/tm/sched.c:18-22 | Empty chains |
| Scheduler.ThreadBox.OnOwnChain | sgos2/kernel/tm/sched.c:31-54 | Every thread of the box is on the chain that the table names for its state, and on no other chain |
| Scheduler.ThreadBox.SetThreadState | sgos2/kernel/tm/sched.c:86-133 | The thread leaves the chain of its old state and heads that of the new one; every thread stays on exactly the chain of its state and all chains stay well linked |
| Scheduler.ThreadBox.MovedIs | sgos2/kernel/tm/sched.c:86-133 | A change of state, chain by chain: the thread is first on the chain of its new state, taken out of that of its old one, and the other chains are the same |
| Scheduler.ThreadBox.Visit | sgos2/kernel/tm/sched.c:146-157 | One turn of the timer loop, editing the list it walks, is one visit of the pass on values and always makes progress |
| Scheduler.ThreadBox.TickWaiting | sgos2/kernel/tm/sched.c:146-157 | The whole loop terminates and refines the pass: who stays with which clock, who becomes ready in which order; nobody else changes |
| Scheduler.ReversedAt | sgos2/kernel/tm/sched.c:86-133 | Of the threads that a tick readies the last one heads the ready chain |
| ThreadSteps.NextOrFirst | sgos2/kernel/tm/sched.c:188-191 | Following the link of the running thread, or the head of the chain, arrives at the next ready thread |
| ThreadSteps.ChoiceIs | sgos2/kernel/tm/sched.c:179-196 | The thread chosen: the next in a circle through the ready ones, the first of them when another kind of thread is running, the first idle one when nobody is ready, none without one |
| ThreadSteps.Schedule | sgos2/kernel/tm/sched.c:179-222 | Picks the next ready thread round the chain, an idle thread exactly when nobody is ready, and halts exactly when there is neither; switches at once or marks the thread as due, with a clock of 5 ticks for a ready thread and 1 for an idle one |
| ThreadSteps.IncreaseTime | sgos2/kernel/tm/sched.c:138-173 | The tick, whatever chain the running thread is on: the waiting pass, the charge to the running thread, and a scheduling exactly when its time is used up and scheduling is allowed |
| ThreadSteps.ClockInterrupt | sgos2/kernel/arch/i386/irq/irq.c:153-175 | A clock interrupt ends with a runnable thread running and the tick applied: each waiting thread is readied exactly when it expires and is not passed over, else lowered by a tick or, when passed over, left as it was; it never halts the kernel; the clock of the running thread is one less, or afresh 5 or 1 after a choice |
| ThreadSteps.Turns | sgos2/kernel/tm/sched.c:179-222 | n consecutive calls of the scheduler by whoever runs give each of n ready threads exactly one turn |
| ThreadSteps.FullRound | sgos2/kernel/tm/sched.c:179-222 | In a full round the turns are all different and cover the ready chain |
| ThreadSteps.Create | sgos2/kernel/tm/thread.c:138-146 | A new thread heads the paused chain |
| ThreadSteps.Resume | sgos2/kernel/tm/thread.c:216-220 | Moves the thread to the ready chain |
| ThreadSteps.Suspend | sgos2/kernel/tm/thread.c:223-229 | Moves the thread to the paused chain, keeps the clocks of all waiting threads, and gives up the processor if it was running |
| ThreadSteps.Sleep | sgos2/kernel/tm/thread.c:232-254 | Moves the thread to the waiting chain with a clock of the milliseconds asked for below 2^31, that number minus 2^32 from there on, and to the sleeping chain for 2^32 - 1; keeps the clocks of the other waiting threads, and gives up the processor if it was running |
| ThreadSteps.Wakeup | sgos2/kernel/tm/thread.c:257-264 | Readies a sleeping or waiting thread, refuses any other |
| ThreadSteps.WaitEntered | sgos2/kernel/tm/sched.c:86-133 | A thread that changes its state leaves the waiting list, heads it, or stays in its place with the new clock; all other entries are kept |
| ThreadSteps.Do | sgos2/kernel/tm/thread.c:138-264 | One call or tick: the waiting list afterwards is the one the call leads to, no other thread changes its state, and the kernel halts exactly when nobody is left to run, by the running thread giving up the processor |
| ThreadSteps.Run | sgos2/kernel/tm/thread.c:138-264 | Through any run of calls and ticks, also about threads made in the run, every thread is on the one chain of its state and a runnable thread runs; the waiting list is the one that the calls lead to; a waiting thread that no call is about is readied exactly when as many ticks have not passed it over as its clock stands for; only the running thread giving up the processor with nobody left ends the run |
| ThreadSteps.SleepOneTick | sgos2/kernel/tm/thread.c:240-252 | A sleep is over with the first tick exactly when it asked for at most a tick or, because the clock field is signed, for 2^31 milliseconds or more, and the tick does not pass the thread over, as it can only if it waited already |
| ThreadSteps.SleepFor | sgos2/kernel/tm/thread.c:232-254 | Through any run after the call in which nobody names the thread: it waits while five times the ticks are fewer than the milliseconds asked for, and is ready exactly when the ticks that have not passed it over are at least that time divided by 5, rounded up, and at least one; 2^31 milliseconds or more end with the first such tick, and 2^32 - 1 never |
| ThreadSteps.StarveOnce | sgos2/kernel/tm/thread.c:240-252 | The starving round on the linked chains: a short sleep and a tick leave the only other waiting thread as it was |
| ThreadSteps.Boot | sgos2/kernel/start/kstart.c:66-75 | From the empty thread box, making and readying the first thread reaches a state from which every run keeps the invariant |
| ThreadSteps.BecomeIdle | sgos2/kernel/start/kstart.c:116 | The first thread becomes an idle thread and goes on running |
| BxmlTree.MirrorTwice | sgos2/apps/msg/bxml.c:58-92 | Reversing every list at every level twice is the identity |
| BxmlTree.MirrorIs | sgos2/apps/msg/bxml.c:58-92 | The mirror image: the same name and value, and in each list the last first, each a mirror image itself |
| BxmlBinary.EncodeSize | sgos2/apps/msg/bxml.c:415-425 | The encoded size never exceeds the calculated one and equals it exactly when no list passes 256 attributes or 65536 children |
| Formats.SampleBytes | sgos2/include/bxml.h:8-22 | The bytes of a document with a header, a value, an attribute and a child, one by one |
| BxmlBinary.DecodeEncode | sgos2/apps/msg/bxml.c:278-479 | Within the count limits, decoding an encoded node gives its mirror image and stops exactly behind it |
| BxmlBinary.MirroredIsWithin | sgos2/apps/msg/bxml.c:278-479 | A node that comes back as its mirror image was within the limits at every level |
| BxmlBinary.ExactSize | sgos2/apps/msg/bxml.c:427-430 | The buffer size set aside always suffices and is used exactly unless a list is cut |
| BxmlBinary.BinaryRoundTrip | sgos2/apps/msg/bxml.c:331-500 | Building and parsing gives the mirror image exactly when no node has more than 255 attributes or 65535 children |
| BxmlBinary.BinaryRoundTripTwice | sgos2/apps/msg/bxml.c:331-500 | Two round trips are the identity |
| BxmlCodec.CalcNodeSize | sgos2/apps/msg/bxml.c:415-425 | The loops compute the size of the whole subtree |
| BxmlCodec.BuildNode | sgos2/apps/msg/bxml.c:432-479 | At every depth: writes the encoding and answers the room left exactly when it fits, else an error; never writes outside its room |
| BxmlCodec.Build | sgos2/apps/msg/bxml.c:482-500 | Succeeds exactly when the buffer holds the document, returns its exact size, leaves zeros behind it and never writes past the buffer |
| BxmlCodec.ParseNode | sgos2/apps/msg/bxml.c:278-328 | The moving-pointer reader computes the decoding and its end position |
| BxmlCodec.Parse | sgos2/apps/msg/bxml.c:331-345 | The header is checked and read, then the root node |
| BxmlText.RunConcat | sgos2/apps/msg/bxml.c:130-274 | The reader over a text is the reader over its parts one after the other, with one character of lookahead |
| BxmlNotation.HeaderIgnored | sgos2/apps/msg/bxml.c:134-163 | A header or a comment in front of a text, up to its first closing bracket, leaves what is read as it is |
| BxmlNotation.PrintSample | sgos2/apps/msg/bxml.c:354-402 | What is printed for a document with attributes, a missing value, a child with text and one closed at once, character by character |
| BxmlNotation.BlanksAlike | sgos2/apps/msg/bxml.c:164-243 | Behind the name of a tag and between its attributes the four blank characters are read alike |
| BxmlNotation.BetweenTags | sgos2/apps/msg/bxml.c:131-155 | Outside tags everything is passed over up to the next opening bracket |
| BxmlNotation.BeforeValue | sgos2/apps/msg/bxml.c:253-273 | Between the equals sign and the first quote everything is passed over |
| BxmlNotation.SlashInside | sgos2/apps/msg/bxml.c:244-250 | The character behind a slash that does not end the tag is passed over |
| BxmlNotation.EndTagCloses | sgos2/apps/msg/bxml.c:209-218 | An end tag closes the element exactly when the shorter of the two names begins the longer one |
| BxmlNotation.SlashWithoutBlank | sgos2/apps/msg/bxml.c:164-250 | A slash right behind the name of a tag does not end the element, whose text follows |
| BxmlReading.RunAttr | sgos2/apps/msg/bxml.c:219-271 | One printed attribute is read as one attribute in front of those before it; with a one-character name as the value of the node itself, with the reader one level up |
| BxmlReading.RunNode | sgos2/apps/msg/bxml.c:113-275 | A printed node is read, from any place in a document and even after the reader has left all elements, as what the reading of its tree gives |
| BxmlReading.RunFrom | sgos2/apps/msg/bxml.c:113-275 | Printed siblings are read one behind the other |
| BxmlReading.TextIsRead | sgos2/apps/msg/bxml.c:113-402 | For every document whose names, values and text avoid the delimiters, one-character attribute names included: reading the printed text computes exactly the reading of the tree, with the same failures |
| BxmlRoundTrip.NormalIsSame | sgos2/apps/msg/bxml.c:354-402 | The printed form drops nothing exactly when text sits only on leaves and every attribute is a name and a value |
| BxmlRoundTrip.NormalIs | sgos2/apps/msg/bxml.c:368-397 | What print does not show of a node: text beside children, everything below attributes, and missing values, shown as a placeholder |
| BxmlRoundTrip.AttrMirrorIs | sgos2/apps/msg/bxml.c:219-269 | The order that the reader leaves: the last attribute first, the children in their places |
| BxmlRoundTrip.TextRoundTrip | sgos2/apps/msg/bxml.c:113-402 | For every such document: printing and parsing returns the tree with attribute lists reversed and children in order exactly when text sits only on leaves and every attribute is a name of at least two characters and a value; with long names it always returns the normal form |
| BxmlRoundTrip.ShortLosesNode | sgos2/apps/msg/bxml.c:222-239 | A document with a one-character attribute name anywhere never comes back: the reader makes fewer nodes than there are |
| BxmlRoundTrip.TextRoundTripTwice | sgos2/apps/msg/bxml.c:113-402 | Printing and parsing twice is the identity |
| BxmlRoundTrip.AttrMirrorTwice | sgos2/apps/msg/bxml.c:77-92 | Reversing the attribute lists twice is the identity |
| BxmlRoundTrip.OneLetterAttribute | sgos2/apps/msg/bxml.c:222-239 | An outermost leaf with one attribute of a one-character name is read as that leaf without attributes, the value being its text |
| BxmlXml.Turn | sgos2/apps/msg/bxml.c:130-274 | One turn of the character loop, on positions in memory, is one or two steps of the state machine |
| BxmlXml.ParseXml | sgos2/apps/msg/bxml.c:113-275 | The loop over positions computes the document that the state machine reads from the string |
| BxmlXml.BuildXmlNode | sgos2/apps/msg/bxml.c:354-402 | Charges the exact length of the printed siblings, writes as much as fits, and nothing once a piece did not fit |
| BxmlXml.BuildXml | sgos2/apps/msg/bxml.c:405-412 | Answers the length of the whole text whether or not it fits; the buffer holds all of it exactly when text and terminator fit, else a beginning, and zeros behind |
| BxmlXml.SaveAndLoad | sgos2/apps/msg/bxml.c:331-412 | An expressible document printed into a big enough buffer is read back from it with attribute lists reversed |
| BxmlWalk.FindsFirst | sgos2/apps/msg/bxml.c:529-537 | The node found in a list is the first of its name |
| BxmlWalk.StepMeans | sgos2/apps/msg/bxml.c:554-590 | A component is a name or, with a colon, an attribute: three dots lead to the first child or stay, two dots to the parent or stay, one dot stays, another name leads to the first child of that name or nowhere; an attribute is the first of its name |
| BxmlWalk.SplitJoined | sgos2/apps/msg/bxml.c:675-701 | A path is taken apart at its slashes, empty components and those of 256 bytes and more passed over |
| BxmlWalk.FindInExtended | sgos2/apps/msg/bxml.c:529-552 | Putting a node of a new name in front does not change what other names find |
| BxmlWalk.Ahead | sgos2/apps/msg/bxml.c:656-706 | Walking on from inside a chain of nodes with more names than nodes are left leads nowhere |
| BxmlWalk.DotsThenName | sgos2/apps/msg/bxml.c:560-565 | A first-child component followed by a name goes astray exactly from a node without children |
| BxmlPath.Document.GetAttrNode | sgos2/apps/msg/bxml.c:529-552 | Finds the attribute, or makes it in front of the others when asked; nothing else changes |
| BxmlPath.Document.GetChildNode | sgos2/apps/msg/bxml.c:554-590 | Finds the child, the special targets included, or makes it in front of the others when asked; nothing else changes |
| BxmlPath.Document.WalkKept | sgos2/apps/msg/bxml.c:656-706 | Creating further nodes does not change where a walk already made leads |
| BxmlPath.Document.AbsolutePath | sgos2/apps/msg/bxml.c:663-667 | A path with a slash in front leads where its components lead from the root |
| BxmlPath.Document.RelativePath | sgos2/apps/msg/bxml.c:668-670 | Any other path leads where its components lead from the current node |
| BxmlPath.Document.OneComponent | sgos2/apps/msg/bxml.c:656-706 | A path of one component names a child, by its name, or the first attribute of that name: of the root with a slash in front, of the current node without |
| BxmlPath.Document.SameFromRoot | sgos2/apps/msg/bxml.c:664-667 | Two documents that differ in nothing but the current node name the same by a path with a slash in front |
| BxmlPath.Document.ParsePath | sgos2/apps/msg/bxml.c:656-706 | Without creation the node named, or none; with creation a node always; nodes are added only where the path led nowhere. Without `..` in it, the path names that node from then on exactly when it did not go astray, that is when no first-child component came to a childless node with a name to follow; if it did, the path names nothing |
| BxmlPath.Document.Read | sgos2/apps/msg/bxml.c:724-735 | Copies as much of the value as the buffer takes, -1 when there is none; the document is unchanged |
| BxmlPath.Document.Write | sgos2/apps/msg/bxml.c:738-750 | Sets the value of the named node only; a path that already names a node creates none |
| BxmlPath.Document.WriteThenRead | sgos2/apps/msg/bxml.c:724-750 | A written non-empty value is read back, a second write reaches the same node and makes none, every other value is unchanged; after a path that went astray nothing is read |
| CalendarSpec.SameDay | sgos2/kernel/lib/time.c:80-124 | Different valid dates are different days |
| CalendarSpec.SecondsInjective | sgos2/kernel/lib/time.c:80-124 | Different valid dates and times are different moments |
| CalendarSpec.YearStartClosed | sgos2/kernel/lib/time.c:99-110 | The leap-year formula counts the days from the Epoch year by year |
| Calendar.GuessImproves | sgos2/kernel/lib/time.c:102-112 | Every turn of the guess-and-correct search finds the year or brings the day count nearer to zero, also below zero |
| Calendar.FindYear | sgos2/kernel/lib/time.c:97-112 | The search ends with the year of the day and the day within it |
| Calendar.FindMonth | sgos2/kernel/lib/time.c:119-122 | The table walk ends with the month of the day |
| Calendar.OffTime | sgos2/kernel/lib/time.c:80-124 | The fields are a valid date and time of exactly the moment, with weekday, day of the year and leap flag |
| Calendar.GetTime | sgos2/kernel/lib/time.c:74-77 | The fields of every 32-bit time, in the years 1970 to 2106 |
| Calendar.MonthDayIs | sgos2/kernel/lib/time.c:52-58 | The closed form of the days before a month agrees with the calendar |
| Calendar.YearRule | sgos2/kernel/lib/time.c:36-45 | Years below 70 count from 2000, the others from 1900, and twelve months more are the same month of the next year |
| Calendar.MkTime | sgos2/kernel/lib/time.c:31-72 | The moment that the fields mean, as far as 32 bits hold it, exactly when the three truncating divisions do not slip: always from 1968 on, before that only in the years stated. For months 0 to 11 a year below 70 counts from 2000, and one from 70 on from 1900 |
| Calendar.TimeRoundTrip | sgos2/kernel/lib/time.c:31-124 | mktime of gettime returns every 32-bit time |
| Calendar.DateRoundTrip | sgos2/kernel/lib/time.c:31-124 | gettime of mktime returns every valid date and time from 1970 on that 32 bits hold field by field; a year below 70 comes back 100 higher, any other as it was |
| Calendar.PosixFormula | sgos2/kernel/lib/time.c:31-72 | The moment of a date is the one POSIX.1-2017, Base Definitions, section 4.16, gives |
| NumberSpec.FieldLength | sgos2/kernel/lib/vsprintf.c:80-124 | The field is as wide as asked for or as what it shows, for every combination of flags |
| NumberSpec.FoldDigits | sgos2/kernel/lib/vsprintf.c:36-41 | The digits of a number read in its base give the number |
| NumberSpec.PlainRoundTrip | sgos2/kernel/lib/vsprintf.c:22-124 | Without prefix and sign flags: reading a printed number in its base gives the value and uses the whole text exactly when there is no sign character and no blank |
| NumberSpec.DigitIs | sgos2/kernel/lib/vsprintf.c:75-79 | The digits are 0 to 9 and the letters, small or capital |
| NumberSpec.SignedRoundTrip | sgos2/kernel/lib/vsprintf.c:72-124 | Any field taken apart: blanks, a minus exactly for a negative signed number, else plus, blank or nothing, the prefix, and digits that read back as the absolute value; it is as wide as asked for, or as its parts if these are wider |
| NumberSpec.StopsAt | sgos2/kernel/lib/vsprintf.c:37-41 | Reading stops at the first character that is no digit of the base |
| NumberSpec.LeadingZero | sgos2/kernel/lib/vsprintf.c:26-36 | With the base left open 0x in front of a hexadecimal digit announces base 16, any other leading zero base 8; without a digit behind it the zero alone is read |
| NumberSpec.DecimalIsRead | sgos2/kernel/lib/vsprintf.c:26-41 | With the base left open a number other than 0 printed in decimal reads back, whatever follows it but a digit |
| NumberSpec.PrefixedRoundTrip | sgos2/kernel/lib/vsprintf.c:22-124 | With the alternate form and the base left open the text is read back completely, in octal always, in hexadecimal exactly with the lower-case prefix |
| Numbers.Convert | sgos2/kernel/lib/vsprintf.c:99-103 | The division loop leaves the digits in the small buffer, last one first |
| Numbers.Number | sgos2/kernel/lib/vsprintf.c:72-124 | Writes exactly the field at the position and advances by its width; refuses a base outside 2 to 36 |
| Numbers.ParseNumber | sgos2/kernel/lib/vsprintf.c:22-45 | Computes the value of the string, wrapping at 32 bits, and where it stops |

## Left out

- FAT32 volumes are taken to have 512-byte sectors, table entries 0 and 1 that are not zero, and a table that ends on a block boundary, because the free-entry scan counts down in whole blocks; device input and output succeeds. Every entry of the table has its cluster on the disk, although tables are rounded up to whole sectors: an entry behind the last cluster would name a block that the device does not have. Positions and recorded sizes are below 2^32, and a write does not carry the position past that.
- Fat32File.File.Write: the bytes behind a partial store that begins on a cluster boundary are not stated, because the source stores uninitialised memory there.
- CachedVolume.GetBlock: not for a block whose count stands at 65535, because the cache's invariant does not hold between the get and the put; the same for CachedVolume.PutDirty.
- Fat32File.File.Close: of the directory entry only the size is modelled, and whether the entry is found is a parameter; files that are closed to be deleted are left out.
- Only the first copy of the FAT is written, as in the source; directories, names, timestamps, truncation and cluster release are not modelled.
- The free-entry scan and the cluster loops see the disk block by block, but read each table word through the cache once more than the source does; `BlockCache` justifies one logical disk for all of them.
- buffer_sync and the failed input or output paths of the cache.
- The user-mode twin of the heap (19 bins, 8-byte minimum), and the accounting around the heap.
- Heap.Allocator.Split: the cut-off block is marked free before it is filed, where the source files it first; nothing runs in between.
- VirtualMemory.KVirtualMemory.Allocate: addresses are unbounded integers, so wrap-around at 2^32 is not modelled; attributes and flags that are only stored, the access lock and a failing allocation of the list node are left out.
- Runs of the semaphore do not unlock it while it is free; what that would do is stated for one step. Its operations are atomic steps, although the source increments the value after interrupts are on again; threads on a wait queue are woken only by its unlock; node allocation succeeds and the queue has room.
- ThreadSteps.Run: calls are atomic; the window between leaving the ready chain and switching is not modelled as a step of its own. Register contexts, address spaces and thread termination are not modelled.
- BXML trees of the two codecs are values: node identity, parent and sibling pointers and memory allocation are not modelled there; a list that the source links is a sequence, built in the same order. `BxmlPath` models nodes as objects.
- BxmlBinary.BinaryRoundTrip: values are shorter than 2^31 - 262 bytes, so the 32-bit room computation does not wrap; a value of length 0 is a missing one.
- BxmlCodec.ParseNode: stops with no result where the source would read past the end of its input.
- BxmlXml.ParseXml: stops with no result where the source reads or writes through a null pointer, past a 255-byte name or past the end of the text; a null current node that is not used stops nothing.
- BxmlXml.BuildXml: the position of the string's end is carried along, where the source searches for it; attributes have values, because the placeholder's length is not charged.
- BxmlPath.Document.ParsePath: `?` conditions in a component are not modelled. For paths that hold both `..` and a first-child component, after a creation, only this is stated: a path that already named a node names it still. There a second walk may stray and come back (`.../../x` from a childless root does), so the condition for the other paths is not exact.
- BxmlPath.Document.Read: a value of length 0 counts as none, so that it reads as -1 after a write of no bytes, where the source answers 0 if its allocation of no bytes succeeds.
- Calendar.MkTime: months and years that the source's 16-bit variables do not hold.
- Field widths and precisions of numbers do not wrap; the rest of the formatting routine is not modelled.
- Drivers, paging, process and module management, messages, the console and boot code: hardware effects or only easy properties.
