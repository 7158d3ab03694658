# Verified model of BareMetalRAM's memory and timing core

This project models, in Dafny 4.11, the parts of BareMetalRAM that hold its hard guarantees, and proves properties of
them. There are three independent components.

**The paged memory with its cache** (`src/PageCache.cpp`). A page table per process maps 256-byte logical pages to
frames of a 128 KB external memory; frames are reference-counted; a 4-way, 4-set write-through cache of 32-byte lines
sits in front of the memory; `pagedMalloc`, `pagedFree` and `pagedRealloc` allocate runs of pages.

- `WritebackModel` gives the effect of every public call of the code on the whole state as a function on values,
  write-backs included; `PageCacheModel` is the plainer machine that never writes back.
  `PageCacheManagers.PageCacheManager` is the class with the source's fields and loops, each method proved equal to
  its function of `WritebackModel`, up to arbitrary runs of public calls (`Calls`).
- `Writebacks` relates the two machines: they are the same while cache and memory agree, and the same in all but memory
  and line data even where they do not. What the modules below prove about the plainer machine in coherent states thus
  holds of the code there (`StepRedundant`), and what does not concern data holds of it everywhere (`StepAlike`). What
  is proved about allocation, freeing, reallocation and stored bytes is stated of the code itself.
- `PageCacheInvariants`, `PageCacheSteps`, `PageCacheRuns`: what every run of public calls keeps, and exactly when the
  cache stays in agreement with memory.
- `WrittenBack`: in any state, which lines a call drops and which bytes it writes back.
- `PageRecords`: array accesses and `pagedRealloc` are runs of the other calls, and the access count and dirty bit of a
  page tell how it was used.
- `CacheSets`, `LruOrder`, `CacheTransparency`: no caller can tell what is cached, and while the logical clock has not
  wrapped a set holds exactly the most recently used lines.
- `PagedAllocator`, `PagedViews`, `PagedLifetimes`, `AllocatorRuns`, `PackedPages`: first fit, what freeing and
  reallocating do to pages in any state, and where pages and frames go over runs of allocator calls.
- `StoredBytes`, `CachedScalars`, `ProcessContents`: single bytes followed through the cache, whatever else it gets
  wrong: round trips, isolation of processes, and what processes find again of what they stored.
- `FailingRuns`: short runs from initialisation on which the code does not do what its callers expect.

An *allocator call* is `init`, `pagedMalloc`, `pagedFree`, `pagedRealloc`, a cached read or write, or a flush or
invalidation; the raw `allocatePhysicalPage`, `freePhysicalPage`, `mapPage` and `unmapPage` are public calls but not
allocator calls. A call is *safe* unless it is an `invalidateLine` by an address inside a dirty line while the next line
is cached and the bytes that spill over into it differ; runs that give `invalidateLine` only addresses where lines start
are safe.

**The first-fit heap** (`src/ExtSRAMHeap.cpp`). Its 7-byte headers lie in the same bytes as the users' data.
`HeapBlocks` treats the heap as a sequence of blocks, `HeapHeader` and `HeapBytes` relate that sequence to bytes, and
`ExtSRAMHeap.ExtSRAM` is the class whose loops walk and rewrite the headers.

**Time** (`src/TimerSys.cpp`, `src/TimedTask.cpp`). `TimerSys` interleaves timer ticks, the compare interrupt and the
register reads of `getMicros`; `TimedTasks` compares `isDue` over runs of polls with a clock that never rolls over.

## Where the code does not do what its comments or callers expect

Each of these is a proved statement about the code as it is.

- The repository's README promises automatic eviction of physical pages when no frame is free. It never happens: an
  allocated frame always has a reference, so `findVictimPage` has no candidate (`NoVictimInRuns`) and allocation fails
  exactly when no frame is free.
- Frames never return to the pool in allocator runs, because allocation counts one reference and mapping another,
  while unmapping removes one (`RunFrames`, `FramesSinceInit`). Once 512 frames have been taken no allocation succeeds
  again (`ExhaustionIsForever`); one process that frees all it can gets there in 35 rounds (`FramesRunOut`). A refused
  `pagedMalloc` that runs out of frames part-way uses up the rest (`MallocRefused`).
- Growing with `pagedRealloc` never works in allocator runs. The valid pages of a process are always its first ones
  (`RunKeepsPacked`), so the new block is always placed right behind the old run, and the final free unmaps both; the
  address returned is not mapped (`GrowLosesBothBlocks`), while all other addresses keep what they held
  (`GrowSparesTheRest`). The new block is kept exactly when it does not start at the end of the old run
  (`ReallocKeepsBlockIff`), which takes a gap that only raw `unmapPage` or `mapPage` calls leave
  (`GrowKeepsBlockAfterRawCalls`).
- `pagedFree` unmaps the maximal valid run, so it undoes a `pagedMalloc` exactly when nothing is mapped right behind
  the block (`MallocFreeRoundTrip`). In allocator runs that always holds (`MallocFreeInRuns`); after raw calls a
  neighbour can be lost (`FreeTakesNeighbourAfterRawCalls`).
- A zero result of `pagedMalloc` reads as failure, but is also the address of a success at logical page 0; it is
  honest exactly when the first pages of the process are not what the request gets (`MallocReportsHonestly`). The
  first request of any process after initialisation is granted and answered with 0 (`FirstGrantReadsAsRefusal`).
- `invalidateLine` writes a dirty line back at the address it was given. An address inside a line shifts the line's
  bytes in memory unless they repeat with the period of the shift (`InvalidateLineKeepsMemoryIff`,
  `MisplacedWriteBack`), and leaves a cached next line stale unless the call is safe (`DropKeepsCoherentIff`,
  `StaleRead`).
- `ExtSRAM::free` refuses the first block of the heap (`RequestReleaseCompact`), but only by its address: addresses
  beyond the chip wrap around and are not refused (`FirstBlockFreedByWrappedAddress`).
- The heap's split test adds in 16 bits. From 65525 bytes on the sum wraps (`AlwaysSafeIff`). A split that leaves no
  room for the remainder's header inside the heap then leaves headers that no longer tile it (`MallocKeepsHeapIff`,
  `BreakingRun`); one that leaves room for exactly the header leaves an empty block, which walks pass over
  (`MallocNoneEmptyIff`, `EmptyRemainderRun`).
- `isDue`'s rollover branch recomputes the value the first test has just rejected, so it never fires
  (`RolloverElapsed`).

## Model

| member | source | states |
|---|---|---|
| PageCacheManagers.PageCacheManager.Calls | src/PageCache.cpp:22-795 | The fields, updated in place by any run of public calls, end as the code's model says, and every result is the model's, whatever the cache and memory hold |
| PageCacheRuns.StepRedundant | src/PageCache.cpp:356-795 | While cache and memory agree, every write-back of every call is redundant: the call does what the machine without write-backs does, and a read returns the byte of flat memory |
| PageCacheRuns.StepAlike | src/PageCache.cpp:142-795 | Even where they do not agree, frames, page table, clock, tags, validity, dirty bits, stamps and all results but those of reads are those of the machine without write-backs |
| PageCacheRuns.StepKeepsSound | src/PageCache.cpp:142-795 | Every public call on every state keeps each valid line in its set, no tag twice, each frame free iff unreferenced and at most one reference beyond its mappings |
| PageCacheRuns.RunKeepsSound | src/PageCache.cpp:34-795 | So does any run of public calls; independent of clock wrap |
| PageCacheRuns.NoVictimInRuns | src/PageCache.cpp:151-214 | In no state any run of public calls reaches is there a frame in use without a reference, so eviction has no candidate |
| PageCacheRuns.StepKeepsCoherentIff | src/PageCache.cpp:356-635 | From a coherent state a call leads to a coherent state iff it is safe |
| PageCacheRuns.CoherentThroughoutIff | src/PageCache.cpp:356-795 | Every valid line equals memory before, during and after a run iff each call is safe where it is made |
| PageCacheRuns.AlignedIsSafe | src/PageCache.cpp:555-569 | A run that gives `invalidateLine` only multiples of the line size is safe from any state |
| PageCacheRuns.DropKeepsCoherentIff | src/PageCache.cpp:555-569 | Invalidating a line by any address keeps cache and memory in agreement iff nothing dirty is written, or the next line is not cached, or it starts with the very bytes that spill over |
| PageCacheRuns.InvalidateLineKeepsMemoryIff | src/PageCache.cpp:555-569 | Memory is unchanged iff nothing dirty is written back or the line's bytes and those after it repeat with the period of the address's offset in the line; multiples of the line size are always safe |
| PageCacheSteps.CachedByteIsMemory | src/PageCache.cpp:356-400 | With a coherent cache, the byte served by hit or fill is the byte of flat memory the process maps |
| Writebacks.AccessRedundant | src/PageCache.cpp:356-464 | With a coherent cache, eviction writes nothing new: cached reads and writes do what they would without write-backs, return flat memory and stay coherent |
| Writebacks.FlushRedundant | src/PageCache.cpp:586-635 | Flushing a coherent cache, set by set and way by way, leaves memory as it was and no line resident, just as dropping all lines does |
| PagedAllocator.MallocRedundant | src/PageCache.cpp:641-715 | Allocation touches no line and no byte of memory on any state, even when it rolls back |
| CacheTransparency.CacheIsInvisible | src/PageCache.cpp:356-635 | From any two coherent states that differ only in what is cached, every run whose write-backs stay in place or change nothing returns the same results and ends in the same memory, mappings and frames |
| CacheTransparency.AlignedIsHarmless | src/PageCache.cpp:555-569 | Runs that give `invalidateLine` only multiples of the line size are such runs |
| CacheTransparency.TrueLru | src/PageCache.cpp:88-125 | From an empty set, over any run of accesses, allocations and mapping calls that drops no line, before the clock wraps: the resident tags of a set are exactly the four most recently used distinct tags, and a full set's victim is the fourth |
| CacheTransparency.OtherStepLines | src/PageCache.cpp:166-315 | Allocation, raw frame and mapping calls, and unmapping clean pages leave every line as it is and take a bounded number of ticks |
| LruOrder.RecentIsByLastUse | src/PageCache.cpp:102-113 | The recency list of a history has exactly the used tags, once each, by decreasing position of last use |
| LruOrder.AccessKeepsLru | src/PageCache.cpp:373-396 | For any number of ways, one access, hit or miss, moves its tag to the front of the recency order that stamps encode |
| LruOrder.VictimIsOldest | src/PageCache.cpp:93-113 | For any number of ways, with fewer recent tags than ways the victim way is invalid; otherwise it is the way of the oldest of them |
| LruOrder.ResidentAreRecent | src/PageCache.cpp:93-113 | For any number of ways, the resident tags are exactly that many most recent ones |
| PageCacheSteps.ScrubProcessEffect | src/PageCache.cpp:571-584 | Invalidating or flushing one process changes no memory, frame or mapping and keeps coherence and dirty tracking |
| Writebacks.ScrubClears | src/PageCache.cpp:571-626 | On any well-shaped cache, invalidating a process drops exactly the lines of its mapped pages; flushing it keeps all lines but leaves no page or line of it dirty |
| Writebacks.UnmapLeavesNoneDirty | src/PageCache.cpp:280-315 | Whatever data is cached, unmapping leaves no dirty line of the page's frame, although a clean entry skips the line scan |
| WrittenBack.UnmapLines | src/PageCache.cpp:289-310 | Whatever well-shaped cache it meets, unmapping a page marked dirty drops exactly the lines of its frame, puts exactly its dirty lines back in their places and leaves every other line as it was; unmapping any other page leaves cache and memory as they were |
| WrittenBack.FreeLines | src/PageCache.cpp:717-752 | `pagedFree` does so with the lines of all dirty pages it unmaps, and with no others |
| WrittenBack.UnmapTables | src/PageCache.cpp:311-315 | The entry ends invalid, clean and without accesses; its frame loses one reference and is free iff that was the last; no other entry or frame changes |
| WrittenBack.ProcessCalls | src/PageCache.cpp:571-626 | On any well-shaped cache, invalidating a process drops exactly the lines of its valid pages and leaves the tables alone; flushing it keeps them, clean, and clears exactly these pages' dirty bits; either puts exactly their dirty lines back in their places |
| WrittenBack.FlushLines | src/PageCache.cpp:586-635 | On any well-shaped cache, flushing puts every dirty line back in its place and changes no other byte; dropping all lines writes nothing; neither leaves a line |
| WrittenBack.ReadLines | src/PageCache.cpp:356-400 | On any well-shaped cache, a cached read pushes out only lines of its set, writes a dirty one back to its place, brings a missing line in as memory then holds it, and leaves every other line as it was but for the stamp of the one it serves |
| WrittenBack.WriteIsReadThenStore | src/PageCache.cpp:402-464 | A cached write is a cached read, then the byte in memory and in the resident line, which is now dirty, and the page marked dirty |
| PageCacheSteps.MapCounted | src/PageCache.cpp:243-278 | Mapping, also over a valid entry or the same frame, keeps every frame's count within its mappings plus one |
| PagedAllocator.TakeSucceedsIffFree | src/PageCache.cpp:142-184 | A frame can be taken iff one is free, and the count of free frames drops by one exactly then |
| PagedAllocator.PlaceIsFirstFit | src/PageCache.cpp:646-678 | The place searched for is the least start with enough consecutive invalid pages, and there is none iff no such start exists |
| PagedAllocator.MallocGranted | src/PageCache.cpp:680-715 | In any state, a granted request maps its run to distinct frames that were free and touches no other entry, busy frame, byte or line; allocator invariants and exact counts are kept where they hold |
| PagedAllocator.MallocRefused | src/PageCache.cpp:641-699 | In any state, a refused request returns 0 and leaves memory, cache, every valid bit and every valid entry unchanged; with exact counts one out of frames uses up the free ones |
| PagedAllocator.MallocReportsHonestly | src/PageCache.cpp:701-714 | In any state, a nonzero result means granted iff the request is not granted at page 0 |
| PagedAllocator.UnmapKeepsFrames | src/PageCache.cpp:216-230 | With exact reference counts unmapping a page frees no frame |
| PagedAllocator.ReleaseOutcome | src/PageCache.cpp:216-230 | Releasing a frame with one reference frees it and adds one to the free frames; one with more loses exactly one and stays in use; no other frame changes |
| PagedAllocator.TakeThenRelease | src/PageCache.cpp:166-230 | A frame taken belongs to its process with one reference; releasing it restores which frames are free, and the next one taken is the same |
| StoredBytes.CachedWriteIsolation | src/PageCache.cpp:402-464 | With no frame mapped twice, after a cached write exactly that (process, address modulo 2^24) pair reads the byte written, and every other pair on whose byte cache and memory agreed reads what it read before, whatever is evicted |
| PagedViews.TranslateInjective | src/PageCache.cpp:317-335 | With no frame mapped twice, two mapped addresses share a byte iff they are the same address of the same process |
| StoredBytes.RunIsolation | src/PageCache.cpp:402-464 | So does a write in every state an allocator run reaches; if its calls were safe, for every pair without exception |
| StoredBytes.CachedArrayRoundTrip | src/PageCache.cpp:466-476 | Whatever other lines hold, an array written through the cache over mapped, distinct bytes is what memory holds and what cached reads return, across lines, pages and evictions |
| StoredBytes.RunArrayRoundTrip | src/PageCache.cpp:466-476 | After any run of public calls, mapped arrays up to a page, or over distinct bytes, or after allocator calls any mapped array, read back as written |
| PagedViews.ShortRangeDistinct | src/PageCache.cpp:317-335 | Up to one page length, array positions are distinct bytes without any injectivity |
| PagedViews.InjectiveRangeDistinct | src/PageCache.cpp:317-335 | Longer mapped ranges are distinct bytes when no frame is mapped twice |
| CachedScalars.Scalar16RoundTrip | src/PageCache.cpp:482-502 | Whatever other lines hold, a 16-bit value, signed or unsigned, written at two mapped addresses reads back unchanged |
| CachedScalars.Scalar32RoundTrip | src/PageCache.cpp:504-532 | Likewise a 32-bit value at four mapped addresses |
| CachedScalars.RunScalarRoundTrips | src/PageCache.cpp:482-532 | Both after any run of public calls |
| PageRecords.ReadArrayIsRun | src/PageCache.cpp:466-470 | Reading an array ends in the state of the byte reads in order and hands out their results |
| PageRecords.WriteArrayIsRun | src/PageCache.cpp:472-476 | Writing an array ends in the state of the byte writes in order |
| PageRecords.PageRecordsTell | src/PageCache.cpp:127-136 | After any run of public calls the access count of a mapped page is the number of cached accesses to it since it was mapped, modulo 2^16, and it is marked dirty iff it was written since and its process not flushed after |
| PageRecords.AccessTables | src/PageCache.cpp:127-136 | A cached access counts once and stamps its page and, a tick later, its frame; a read marks nothing dirty; no other entry or frame changes |
| PagedLifetimes.FreeOutcome | src/PageCache.cpp:717-752 | In any state, a free unmaps exactly the maximal valid run from its page on, and nothing for address 0 or an unmapped address; with a coherent cache it changes no memory |
| PagedLifetimes.MallocFreeRoundTrip | src/PageCache.cpp:641-752 | In any state, after a nonzero malloc, freeing it restores which pages are valid iff the page behind the block was invalid or out of range; with exact counts the frames stay taken |
| PagedLifetimes.ReallocKeepsBlockIff | src/PageCache.cpp:754-795 | In any state, exactly which pages a granted growing call leaves valid: without the old run, and with the new block iff it does not start at the run's end; otherwise without the block and without the pages mapped right behind it |
| PagedLifetimes.ReallocDelivers | src/PageCache.cpp:782-794 | When the block is kept, each of its first old-size bytes is mapped and reads as the old block read before, for any old address in the run's first page |
| PagedLifetimes.ReallocLeavesOthers | src/PageCache.cpp:754-795 | Every address of every other process, and of the process every address outside the new block and the pages the final free unmaps, is mapped and reads as before, wherever the block is placed |
| PagedLifetimes.ReallocSparesBystandersIff | src/PageCache.cpp:754-795 | The process keeps everything outside the old run and the new block iff the block does not start at the run's end or nothing is mapped right behind the block |
| PagedLifetimes.ReallocFailureKeeps | src/PageCache.cpp:782-785 | In any state, a growing call that returns 0 unmaps nothing and changes no line and no byte that was mapped |
| PagedLifetimes.ReallocWithoutGrowing | src/PageCache.cpp:754-780 | In any state, a call the old run has room for changes nothing and returns the old address; one on an unmapped address changes nothing and returns 0; size 0 unmaps exactly the old run and returns 0; address 0 has the outcome of an allocation |
| PagedLifetimes.ReallocLeavesTail | src/PageCache.cpp:782-794 | When the block is kept, its bytes behind the old run's length are what its frames held |
| PageRecords.ReallocIsRun | src/PageCache.cpp:754-795 | A call to `pagedRealloc` ends in the state of an allocation, byte reads and writes in order, and a free, or of one of these alone, or of none |
| AllocatorRuns.StepKeepsAllocSound | src/PageCache.cpp:356-795 | Every allocator call on any state keeps exact counts, ownership, single mapping, dirty tracking and the shape of the cache |
| AllocatorRuns.RunKeepsAllocSound | src/PageCache.cpp:34-795 | So does every run of allocator calls |
| AllocatorRuns.SafeRunKeepsAllocInv | src/PageCache.cpp:34-795 | In a run of safe allocator calls every line equals memory as well |
| AllocatorRuns.RunFrames | src/PageCache.cpp:166-315 | Over any allocator run the free frames fall by the frames taken and by nothing else |
| AllocatorRuns.FramesSinceInit | src/PageCache.cpp:809-817 | Since initialisation the free pages are 512 less all frames taken, and a frame in use has exactly one reference more than mappings |
| AllocatorRuns.ExhaustionIsForever | src/PageCache.cpp:641-699 | With no free frame left, every later allocation of every allocator run is refused |
| ProcessContents.StepKept | src/PageCache.cpp:356-795 | Across any allocator call on any state an address that stays mapped keeps its frame, and its byte if cache and memory agreed on it, unless it is the one written or a misplaced write-back covers it |
| ProcessContents.StoredBytesPersist | src/PageCache.cpp:356-795 | Over any run of allocator calls of all processes, what a process last stored at an address is in memory and is what its cached read returns, if the page was mapped ever since and no misplaced write-back covered the byte |
| PackedPages.RunKeepsPacked | src/PageCache.cpp:641-795 | In every state an allocator run reaches, the valid pages of each process are its first ones |
| PackedPages.PackedPlace | src/PageCache.cpp:654-678 | Then first fit places a block right behind all valid pages, where every run ends, with nothing mapped behind the block |
| PackedPages.MallocFreeInRuns | src/PageCache.cpp:641-752 | In allocator runs a malloc that returns a nonzero address and the free of that address always restore which pages are valid |
| PackedPages.GrowLosesBothBlocks | src/PageCache.cpp:754-795 | In allocator runs every granted growing call returns a nonzero address and unmaps it, the whole new block and the old run; the process keeps exactly the pages before the old address |
| PackedPages.GrowSparesTheRest | src/PageCache.cpp:754-795 | After it, in a run of safe calls, every address of other processes and every address on an earlier page is mapped and read as before |
| FailingRuns.FirstGrantReadsAsRefusal | src/PageCache.cpp:701-714 | The first request of any process after initialisation, for up to sixteen pages, is granted and returns 0 |
| FailingRuns.MisplacedWriteBack | src/PageCache.cpp:555-569 | Malloc, write and `invalidateLine` by an address inside the line put a byte at an address where it was never written |
| FailingRuns.StaleRead | src/PageCache.cpp:555-569 | After such a call a cached read of the next line returns what memory no longer holds |
| FailingRuns.GrowKeepsBlockAfterRawCalls | src/PageCache.cpp:754-795 | After a malloc and two raw unmappings a growing call keeps its block |
| FailingRuns.FreeTakesNeighbourAfterRawCalls | src/PageCache.cpp:717-752 | After the same calls a free of the block just handed out unmaps a page behind it |
| FailingRuns.FramesRunOut | src/PageCache.cpp:166-315 | A run of 71 allocator calls of one process uses up all frames, and every later request of any process is refused |
| PageCacheManagers.PageCacheManager.CacheReadByte | src/PageCache.cpp:356-400 | Returns the byte of the line served, which is what the process sees in flat memory if the cache agrees with it; the new state is that of one access, a dirty victim written back |
| PageCacheManagers.PageCacheManager.CacheWriteByte | src/PageCache.cpp:402-464 | Writes line and memory, marks line and page dirty; the new state is that of one write, a dirty victim written back |
| PageCacheManagers.PageCacheManager.CacheReadArray | src/PageCache.cpp:466-470 | Fills the buffer with the bytes of the reads in order, with a coherent cache those the process saw before the first read, and changes nothing beyond |
| PageCacheManagers.PageCacheManager.CacheWriteArray | src/PageCache.cpp:472-476 | Ends in the state of the byte writes in order |
| PageCacheManagers.PageCacheManager.FindLRULine | src/PageCache.cpp:102-113 | The first way with the least access stamp |
| PageCacheManagers.PageCacheManager.FindFreePhysicalPage | src/PageCache.cpp:142-149 | The lowest free frame, or -1 |
| PageCacheManagers.PageCacheManager.FindVictimPage | src/PageCache.cpp:151-164 | The first unreferenced frame in use with the least access time, if one has been touched before the clock's last value |
| PageCacheManagers.PageCacheManager.AllocatePhysicalPage | src/PageCache.cpp:166-214 | Takes the lowest free frame or fails without one; the eviction code is unreachable |
| PageCacheManagers.PageCacheManager.MapPageAt | src/PageCache.cpp:243-278 | The new state of mapping; succeeds iff all three indices are in range |
| PageCacheManagers.PageCacheManager.UnmapPageAt | src/PageCache.cpp:280-315 | The new state of unmapping, with the write-backs and dropped lines of a dirty page |
| PageCacheManagers.PageCacheManager.InvalidateLineAt | src/PageCache.cpp:555-569 | The new state of invalidating by any address, with the write-back at the address as given |
| PageCacheManagers.PageCacheManager.FlushAllLines | src/PageCache.cpp:586-597 | The new state of flushing, with the write-backs in order of sets and ways |
| PageCacheManagers.PageCacheManager.FindRun | src/PageCache.cpp:654-678 | The one-pass scan finds the least start with n consecutive invalid pages, or reports that there is none |
| PageCacheManagers.PageCacheManager.PagedMallocAt | src/PageCache.cpp:641-715 | The new state and result of allocation, including rollback |
| PageCacheManagers.PageCacheManager.PagedFreeAt | src/PageCache.cpp:717-752 | The new state of freeing |
| PageCacheManagers.PageCacheManager.PagedReallocAt | src/PageCache.cpp:754-795 | The new state and result of reallocation |
| PageCacheManagers.PageCacheManager.GetFreePages | src/PageCache.cpp:809-817 | Counts the free frames |
| HeapHeader.DecodeEncode | src/ExtSRAMHeap.h:20-27 | A header written as seven bytes reads back the same |
| HeapHeader.EncodeDecode | src/ExtSRAMHeap.h:20-27 | Seven bytes read as a header and written again are the same bytes |
| HeapHeader.Layout | src/ExtSRAMHeap.h:20-25 | Four bytes of size, the lowest first, then free flag, magic byte and owner |
| HeapBlocks.AlwaysSafeIff | src/ExtSRAMHeap.cpp:42 | The split test is sound for every block that can serve the request iff the request is below 65525 bytes |
| HeapBlocks.ServedIff | src/ExtSRAMHeap.cpp:28-41 | A request is served iff some free block has at least the bytes asked for, and then by the first such block |
| HeapBlocks.MallocOk | src/ExtSRAMHeap.cpp:24-62 | A safe request keeps free blocks unowned and the whole heap exactly covered |
| HeapBlocks.MallocNoneEmptyIff | src/ExtSRAMHeap.cpp:42-51 | A safe request leaves no empty block iff its split does not leave room for a header and nothing else, which takes a wrapped sum |
| HeapBlocks.MallocBlockSize | src/ExtSRAMHeap.cpp:41-56 | The block handed out is in use, has the owner, and is at least as large as asked by at most eleven bytes |
| HeapBlocks.SplitThreshold | src/ExtSRAMHeap.cpp:42-51 | Below 65525 bytes a block is split iff it has more than eleven bytes to spare, so every remainder has at least five; it is handed out whole otherwise; from there on a safe request always splits |
| HeapBlocks.MallocFreeDefragRoundTrip | src/ExtSRAMHeap.cpp:24-104 | From blocks with no two adjacent free ones, request, free and defrag restore the very same blocks iff the block is not the first |
| HeapBlocks.DefragLeavesNoAdjacentFree | src/ExtSRAMHeap.cpp:80-104 | One pass leaves no two adjacent free blocks |
| HeapBlocks.DefragFixpoint | src/ExtSRAMHeap.cpp:80-104 | A pass changes nothing iff there are no two adjacent free blocks |
| HeapBlocks.DefragIdempotent | src/ExtSRAMHeap.cpp:80-104 | A second pass changes nothing |
| HeapBlocks.DefragKeeps | src/ExtSRAMHeap.cpp:80-104 | A pass keeps address, size and owner of every block in use and turns one header into free bytes per merge |
| HeapBlocks.Conservation | src/ExtSRAMHeap.cpp:106-123 | Free bytes, live bytes and one header per block always add up to what the blocks cover |
| HeapBlocks.UsedBytes | src/ExtSRAMHeap.cpp:125-127 | The bytes reported in use never underflow and are live bytes plus every header but one |
| HeapBytes.MallocTiles | src/ExtSRAMHeap.cpp:41-57 | The bytes a safe request writes make memory tile into the model's blocks |
| HeapBytes.MallocKeepsLive | src/ExtSRAMHeap.cpp:41-57 | Bytes of blocks in use stay in use and keep their values |
| HeapBytes.MallocKeepsHeapIff | src/ExtSRAMHeap.cpp:42-51 | A served request leaves headers that tile the heap iff it is not one whose wrapped split test leaves no room for the remainder's header inside the heap |
| HeapBytes.StrayHeader | src/ExtSRAMHeap.cpp:42-51 | The one unsafe split that keeps the heap writes its stray header over the first bytes after the heap |
| HeapBytes.MergeTiles | src/ExtSRAMHeap.cpp:90-99 | Rewriting one header merges two adjacent free blocks in the tiling |
| HeapBytes.LiveByteAway | src/ExtSRAMHeap.cpp:24-104 | A byte in use lies in no header and no free block |
| HeapBytes.LiveDataDisjoint | src/ExtSRAMHeap.cpp:24-62 | No byte is data of two blocks |
| ExtSRAMHeap.ExtSRAM.Malloc | src/ExtSRAMHeap.cpp:24-62 | Returns 0 iff the size is 0 or no free block is large enough, else the lowest such block's data address; gives the bytes written and keeps all live bytes when safe |
| ExtSRAMHeap.ExtSRAM.Free | src/ExtSRAMHeap.cpp:64-78 | The bytes written for any 32-bit address, wrapping around the chip; for an address behind a block's header exactly that block becomes free, addresses up to the first block's data are refused |
| ExtSRAMHeap.ExtSRAM.Defrag | src/ExtSRAMHeap.cpp:80-104 | Terminates with the blocks coalesced, every live byte still live and unchanged |
| ExtSRAMHeap.ExtSRAM.GetFree | src/ExtSRAMHeap.cpp:106-123 | The sum of free block sizes |
| ExtSRAMHeap.ExtSRAM.GetUsed | src/ExtSRAMHeap.cpp:125-127 | Live bytes plus every header but one |
| ExtSRAMHeap.ExtSRAM.Init | src/ExtSRAMHeap.cpp:15-22 | One free block covers the heap |
| ExtSRAMHeap.ExtSRAM.Calls | src/ExtSRAMHeap.cpp:15-104 | Any admissible run of calls and user writes in live blocks leaves memory tiling into the blocks the model says, answers every request with the lowest fitting block's data address or 0, and keeps every byte last stored in a block still in use |
| ExtSRAMHeap.FreeTiles | src/ExtSRAMHeap.cpp:64-78 | Freeing a block's address keeps the tiling and every live byte |
| ExtSRAMHeap.FirstBlockFreedByWrappedAddress | src/ExtSRAMHeap.cpp:65-77 | The first block's data address is refused, the same address one chip size further on frees the block |
| ExtSRAMHeap.RunOk | src/ExtSRAMHeap.cpp:15-104 | Every admissible run keeps the blocks well-formed |
| ExtSRAMHeap.RequestReleaseCompact | src/ExtSRAMHeap.cpp:24-104 | By the address returned: request, release and compact restore the blocks iff it is not the first data address |
| ExtSRAMHeap.BreakingRun | src/ExtSRAMHeap.cpp:42-51 | After requests of 64502 and 65526 bytes from initialisation no sequence of blocks tiles the heap |
| ExtSRAMHeap.EmptyRemainderRun | src/ExtSRAMHeap.cpp:42-51 | With 65525 bytes as the second request the heap stays tiled and ends in a free block of no bytes |
| TimerSys.SystemTimer.CompareInterrupt | src/TimerSys.cpp:18-20 | When enabled and pending, the interrupt adds 1000 to the counter modulo 2^32 and clears the flag; otherwise nothing changes |
| TimerSys.ServiceCounts | src/TimerSys.cpp:18-20 | An enabled interrupt that is pending counts its period and leaves only lost periods uncounted; a masked or idle one changes nothing |
| TimerSys.NothingLostIff | src/TimerSys.cpp:18-20 | Over any run from the start no period is lost iff the interrupt could be taken between any two compare matches; the flag says whether the last match is unserved |
| TimerSys.MicrosWhenPrompt | src/TimerSys.cpp:16-47 | Over every such run the value is the true tick count at the TCNT1 read modulo 2^32 iff the reads are made in time |
| TimerSys.RunConsistent | src/TimerSys.cpp:16-20 | In every interleaving the counter lags the true time by exactly the pending and the lost periods |
| TimerSys.ReadingExactIff | src/TimerSys.cpp:32-47 | Without lost interrupts the value is the true tick count at the TCNT1 read modulo 2^32 iff the reads are made in time |
| TimerSys.MicrosOverRuns | src/TimerSys.cpp:16-47 | The same after any run of ticks, interrupts and masking from the start |
| TimerSys.ReadingExact | src/TimerSys.cpp:37-46 | A pending match under 499 ticks old and under 502 ticks between the reads suffice |
| TimerSys.SlowReadFails | src/TimerSys.cpp:37-46 | In a run from the start, 502 ticks between the reads give a wrong value |
| TimerSys.SystemTimer.GetMicros | src/TimerSys.cpp:32-47 | The register reads, with any ticks in between, give that value, restore the interrupt mask and lose no tick |
| TimedTasks.RolloverCorrect | src/TimedTask.cpp:57-74 | With gaps of at most 2^32 less the interval, polls fire exactly when the true time since the last firing reaches the interval |
| TimedTasks.RolloverCorrectIff | src/TimedTask.cpp:57-74 | With polls in any order-preserving spacing, they fire exactly when they should all along iff at no poll 2^32 or more has passed since the last firing with a remainder below the interval |
| TimedTasks.FiringsApart | src/TimedTask.cpp:57-74 | Under such polling two firings are at least the interval apart |
| TimedTasks.GapBoundIsTight | src/TimedTask.cpp:62-65 | One tick more in one gap and a due firing is missed, for every interval |
| TimedTasks.RolloverElapsed | src/TimedTask.cpp:66-71 | The rollover branch computes the value already tested |
| TimedTasks.TimedTask.IsDue | src/TimedTask.cpp:57-74 | Due iff active and the 32-bit elapsed time reaches the interval; the last firing time moves exactly then |
| TimedTasks.TimedTask.Poll | src/TimedTask.cpp:57-74 | A run of polls fires as the run functions say |

## Left out

- The `stats` counters of the cache: they count and influence nothing else.
- The eviction code of `allocatePhysicalPage` (src/PageCache.cpp:186-213): proved unreachable, so its effect is not modelled.
- The failure branch of `pagedMalloc` after `mapPage` (src/PageCache.cpp:692-698): proved unreachable in the method.
- `getPageEntry`: it hands out a table entry that callers can write through; runs assume that they do not.
- `getPageInfo`, `getUsedPages`, `getProcessPages`, `getProcessMemory`, `cacheReadFloat`, `cacheWriteFloat`: would only add easy members.
- `PageCacheManagers.PageCacheManager.PagedReallocAt`: requires a process index in range where the code indexes the page table with it unchecked, and so does `Calls`; what the code finds outside the table is not modelled.
- `CacheTransparency.TrueLru`: covers runs in which no line is dropped, before the 32-bit logical clock wraps; after a wrap stamps no longer order accesses.
- `ExtSRAMHeap.ExtSRAM.Free`: an address that is no block's is described by the bytes written only, since forged headers in user data cannot be told from real ones.
- `ExtSRAMHeap.ExtSRAM.Malloc`: a heap already broken by an unsafe split is not modelled further.
- The SPI transfers of `SRAMsimple`, chip selection and mode: the chip is an array of bytes with block transfers that wrap at its end.
- The heap and the paged memory on one chip at once: they overlap by design without coordination, so each has the chip for itself.
- The contents of the external memory at power-up: any bytes.
- `TimedTask::check`, `TaskScheduler`, `Process` and `ProcessManager`: foreign callbacks, or only a header is present.
- Timer1's register setup and AVR cycle timing: the compare flag is raised when the count clears after OCR1A, and reads may be any number of ticks apart.
- Serial output and the `print` and `walk` functions.
