# CSCE 410 teaching kernel: memory, files and scheduling, modelled in Dafny

This project models the sequential bookkeeping of a small x86 teaching
kernel and proves what that bookkeeping guarantees. It covers four parts.

- **Virtual memory.**
  - `PageTable` builds a two-level IA-32 translation structure (Intel SDM
    Vol. 3A, section 4.3, "32-bit paging"). It has an identity-mapped low
    table behind directory slot 0 and a self-map slot through which the
    directory and the tables are reached at fixed virtual windows.
  - Its fault handler validates the address against the registered
    `VMPool`s, links in a missing table and binds a fresh frame.
  - `VMPool` bump-allocates page-rounded regions after a reserved first
    page and releases a region by freeing its pages and compacting its
    descriptor table.
- **The flat file system.**
  - `FileSystem` formats a disk into a node table and a free-block bitmap.
  - It allocates blocks first-fit, and creates, looks up, deletes and
    erases files by scanning the node table for the first record of an id.
- **Files.** A `File` is a cursor (block index, position, current block)
  over the block list of its node. `Read`, `Write`, `EoF`, `Reset` and
  `Rewrite` move that cursor.
- **Scheduling.**
  - A singly linked FIFO `Queue` of threads.
  - A FIFO `Scheduler` whose `size` counter tracks the ready queue through
    `add`, `resume`, `yield` and `terminate`.
  - A variant that gives priority to a blocking disk's wait queue.

The modules follow the program:

| module | file | models |
|---|---|---|
| `Common` | common.dfy | `Option`, 32-bit words and their wrap-around, `int` conversion |
| `FramePools` | frame_pool.dfy | the frame pool's interface |
| `PagingEntries` | paging_entries.dfy | entry words and address indices |
| `VmRegions` | vm_regions.dfy | region descriptors, rounding, layout, the release search |
| `VirtualMemory` | virtual_memory.dfy | `PageTable`, its static state, and `VMPool` |
| `ThreadQueues` | thread_queue.dfy | the linked queue |
| `Termination` | termination.dfy | the rotation loop of `terminate` |
| `ReadySchedulers` | schedulers.dfy | the MP5 scheduler |
| `DiskSchedulers` | schedulers.dfy | the MP6 scheduler and the disk's wait queue |
| `BlockMaps` | block_map.dfy | the bitmap |
| `FileNodes` | file_nodes.dfy | format arithmetic, node records, first-fit allocation, read counting |
| `FileData` | file_data.dfy | where written bytes land and which bytes a read delivers |
| `FileSystems` | file_system.dfy | `FileSystem` and `File` |

Some state is held outside the objects that own it in the source:

- The static members of `PageTable` live in a `PagingState` object. It also
  holds the physical frames that contain translation structures, as a map
  from frame number to a 1024-entry array.
- The disk is a sequence of 512-byte blocks. The node records, which the
  source stores in blocks 0 to `m_blocks - 1`, are a separate sequence
  beside them (see "Left out").
- `dispatch_to` becomes an append to a `dispatched` log.
- The faulting address (`cr2`) and the disk's readiness are parameters.

An `assert` in the source that halts the kernel becomes a result `ok ==
false`, and the model promises which state is left unchanged in that case.

## Model

| member | source | states |
|---|---|---|
| Common.Add32 | MP4_final/vm_pool.C:83 | `unsigned long` addition: the sum, less 2^32 when it overflows |
| Common.AsInt32 | MP7_Final/file.C:53 | `int x = n` for an unsigned `n`: unchanged below 2^31, negative from 2^31 on |
| FramePools.FramePool.GetFrame | MP4_final/page_table.C:115 | `get_frames(1)`: a non-zero frame leaves the free set for the used set; 0 and no change on an empty pool; the frames owned stay the same |
| FramePools.FramePool.ReleaseFrame | MP4_final/page_table.C:148 | `release_frames(f)`: a used frame returns to the free set; any other frame changes nothing |
| PagingEntries.EntryFields | MP4_final/page_table.C:10-12 | an entry built from a frame and flags gives back that frame; it is present iff bit 0 of the flags is set, and writable iff bit 1 is |
| PagingEntries.DirIndex | MP4_final/page_table.C:95 | `addr >> 22`: a slot below 1024, the 4 MiB region that holds the address |
| PagingEntries.TableIndex | MP4_final/page_table.C:96 | `(addr >> 12) & 0x3FF`: a slot below 1024, the page of the address within its 4 MiB region |
| PagingEntries.WindowAddress | MP4_final/page_table.C:119 | `0xFFC00000 OR (pd << 12)`: a page-aligned address, pd pages above the table window |
| PagingEntries.PageSplit | MP4_final/page_table.C:95-96 | the page number of an address is its directory index times 1024 plus its table index |
| PagingEntries.DistinctPagesDistinctSlots | MP4_final/page_table.C:95-96 | two different pages never share both a directory slot and a table slot |
| PagingEntries.WindowIndices | MP4_final/page_table.C:114 | `0xFFFFF000` selects slot 1023 twice; `0xFFC00000` or-ed with `pd << 12` selects slot 1023, then slot pd |
| VmRegions.RoundedLengthIsSmallestMultiple | MP4_final/vm_pool.C:70-78 | a recorded length is a multiple of PAGE_SIZE, at least the request and less than one page more |
| VmRegions.RoundedLengthWraps | MP4_final/vm_pool.C:70-78 | a request in the last page of the address space rounds to length 0, because the 32-bit product wraps |
| VmRegions.PageAddressStep | MP4_final/vm_pool.C:102-105 | the release loop's address moves on by PAGE_SIZE each page, wrapping at 2^32 |
| VmRegions.PagesBelowWindow | MP4_final/vm_pool.C:101-105 | pages of a region below the table window do not wrap, and none of them uses the self-map slot |
| VmRegions.RegionPagesDistinct | MP4_final/vm_pool.C:101-105 | different turns of the release loop free different virtual pages |
| VmRegions.OrderedAbovePage | MP4_final/vm_pool.C:75-80 | in a laid-out table, every live region starts above the pool's first page, where the descriptors live |
| VmRegions.OrderedDisjoint | MP4_final/vm_pool.C:83-89 | live regions of a laid-out table do not overlap: each starts no lower than the previous one ends |
| VmRegions.AppendKeepsOrder | MP4_final/vm_pool.C:83-89 | without overflow, the next base is the end of the last region, and appending there keeps the layout |
| VmRegions.RemoveKeepsOrder | MP4_final/vm_pool.C:106-109 | removing a descriptor and closing the gap keeps the live regions increasing and disjoint |
| VmRegions.FindSlotAsWritten | MP4_final/vm_pool.C:93-99 | the search over all slots, stale ones included: a found slot is the first slot with that base; no result means no slot has it |
| VmRegions.FindRegion | MP4_final/vm_pool.C:93-100 | the first live descriptor with that base; no result exactly when no live descriptor has it |
| VmRegions.StaleSlotSearch | MP4_final/vm_pool.C:93-109 | after A and B are allocated and B released, the as-written search finds stale B while the live search finds nothing |
| VirtualMemory.PagingState.constructor | MP4_final/page_table.C:20-24 | no pools, shared size 0, no current table, paging off, no table frames |
| VirtualMemory.PagingState.InitPaging | MP4_final/page_table.C:28-37 | records both pools and the shared size and changes nothing else |
| VirtualMemory.PagingState.EnablePaging | MP4_final/page_table.C:83-89 | the paging flag is set |
| VirtualMemory.PagingState.SelfMapWindow | MP4_final/page_table.C:93-119 | through the self-map slot, the directory window reaches the directory's frame, and table window pd reaches the frame of directory entry pd, or nothing when that entry is absent |
| VirtualMemory.PagingState.WindowFrame | MP4_final/page_table.C:113-119 | the array reached through a window address: the directory, or the table that directory entry pd names |
| VirtualMemory.LinkKeepsTablesDistinct | MP4_final/page_table.C:117-123 | linking a new table frame into an absent slot keeps every present slot's table a different array |
| VirtualMemory.PagingState.HandleFault | MP4_final/page_table.C:91-129 | a fault with the present bit set changes nothing. Otherwise it succeeds iff a registered pool claims the address, and a fresh process frame is taken. Below the top 4 MiB the address then maps to it through a present, writable entry; with a resident table only that entry changes, otherwise a kernel frame becomes a new table in the directory slot with every other entry not present; unaliased tables stay unaliased. In the top 4 MiB the frame is written into the directory and the self-map breaks |
| VirtualMemory.PagingState.MapPage | MP4_final/page_table.C:113-126 | the three branches of demand paging, chosen by the directory entry and the address's slot, with those branches' results and frames |
| VirtualMemory.PagingState.MapInDirectory | MP4_final/page_table.C:113-116 | in the top 4 MiB, table window 1023 is the directory: the fresh frame goes into directory slot `(addr >> 12) & 0x3FF`, nothing else changes, and the self-map no longer holds |
| VirtualMemory.PagingState.MapInTable | MP4_final/page_table.C:113-116 | the address's entry in its resident table becomes a fresh process frame, present and writable; no other table or directory changes |
| VirtualMemory.PagingState.MapWithNewTable | MP4_final/page_table.C:117-126 | a kernel frame becomes a new table linked in present and writable, all its other entries not present; no existing array but the directory changes; the address maps to a fresh process frame; unaliased tables stay unaliased |
| VirtualMemory.PagingState.AllocateKernelFrame | MP4_final/page_table.C:118 | one kernel frame leaves the free set and becomes addressable as a new array, holding whatever the frame held; nothing else changes |
| VirtualMemory.PagingState.AllocateKernelFramePair | MP4_final/page_table.C:45-47 | two distinct kernel frames leave the free set and become two new arrays |
| VirtualMemory.PagingState.LinkTable | MP4_final/page_table.C:118-123 | the directory entry points to a new kernel frame, present and writable, and only that entry changes |
| VirtualMemory.FillNotPresent | MP4_final/page_table.C:121-123 | every entry of the table is PAGE_LEVEL, which is not present |
| VirtualMemory.PageTable.constructor | MP4_final/page_table.C:43-73 | directory and low table come from two distinct kernel frames; the low table identity-maps the shared region; the directory layout is as written; no pools are registered |
| VirtualMemory.PageTable.FillIdentity | MP4_final/page_table.C:48-54 | low-table entry i is frame i, present and writable, for each i below the shared frame count; the other entries are untouched |
| VirtualMemory.PageTable.FillDirectory | MP4_final/page_table.C:56-64 | slot sh-1 is the directory itself; with sh > 1, slot 0 is the low table and slots 1 to sh-2 are writable but not present (with sh = 1 the self-map is written over slot 0); the slots from sh on are untouched |
| VirtualMemory.PageTable.FullSharedDirectoryIsReady | MP4_final/page_table.C:56-64 | with a 4 MB shared region the self-map lands in slot 1023, so the window lookups hold, and the two present slots name different arrays |
| VirtualMemory.PageTable.IdentityMapped | MP4_final/page_table.C:48-56 | every address of the shared region translates to its own frame |
| VirtualMemory.PageTable.EmptyPoolList | MP4_final/page_table.C:66-70 | a fresh pool list with every entry null |
| VirtualMemory.PageTable.FindPool | MP4_final/page_table.C:102-112 | the first registered, non-null pool that accepts the address, or -1 exactly when none does |
| VirtualMemory.PageTable.Load | MP4_final/page_table.C:76-81 | this table becomes the current one |
| VirtualMemory.PageTable.RegisterPool | MP4_final/page_table.C:131-139 | below capacity the pool is appended and the count rises by one; when full nothing changes |
| VirtualMemory.PageTable.FreePage | MP4_final/page_table.C:141-151 | succeeds iff the page's table is present. Then the page's entry becomes writable and not present, its frame goes back to the process pool if the pool had handed it out, and the page no longer translates; no other entry changes, no unmapped page becomes mapped, and with unaliased tables every other page keeps its translation |
| VirtualMemory.VMPool.constructor | MP4_final/vm_pool.C:47-59 | fields set, no regions, and the pool registered with its page table exactly once |
| VirtualMemory.VMPool.IsLegitimate | MP4_final/vm_pool.C:114-121 | without overflow, an address is legitimate iff it is in [base, base + size); a pool whose end wraps past 2^32 accepts no address |
| VirtualMemory.VMPool.Allocate | MP4_final/vm_pool.C:61-90 | pool size 0 returns 0 and changes nothing. A full table is refused, which is the source's assert. Otherwise exactly one descriptor is appended at the next base with the rounded length, the first one at base + PAGE_SIZE, and the layout stays ordered when it does not overflow |
| VirtualMemory.VMPool.AppendPreserves | MP4_final/vm_pool.C:83-89 | a laid-out table that ends below 2^32 stays laid out after the next allocation |
| VirtualMemory.VMPool.FreePages | MP4_final/vm_pool.C:101-105 | frees each page of the region in turn; succeeds iff every page's table is present, and then none of the pages translates. Frames only return to the pool; with unaliased tables, pages outside the region keep their translations, and on success every pool frame the region held is free |
| VirtualMemory.VMPool.FreeOnePage | MP4_final/vm_pool.C:102-104 | one more page of the region is unmapped, keeping the earlier ones unmapped; its frame is returned, and with unaliased tables every other page keeps its translation |
| VirtualMemory.VMPool.RemoveSlot | MP4_final/vm_pool.C:106-109 | the live descriptors lose exactly the one at c, in order; the count drops by one; stale slots are left as they were |
| VirtualMemory.VMPool.Release | MP4_final/vm_pool.C:92-112 | succeeds iff a live region starts at the address and its tables are present in the loaded address space. Then its pages are unmapped there, its descriptor is removed in order, the layout stays ordered, and this pool's table is loaded. With unaliased tables, pages outside the region keep their translations and the region's pool frames are free. On failure the descriptors and the loaded table are unchanged, and with no such region no frame is freed |
| VirtualMemory.VMPool.ReleaseAt | MP4_final/vm_pool.C:101-109 | the page loop and the descriptor shift for a found slot, with the same results as `release` except the final `load` |
| ThreadQueues.Queue.constructor | MP5_Final/queue.H:11-14 | an empty queue |
| ThreadQueues.Queue.Single | MP5_Final/queue.H:16-19 | a queue holding the thread, or empty for null |
| ThreadQueues.Queue.Enqueue | MP5_Final/queue.H:21-27 | a non-null thread is appended at the tail; null adds nothing |
| ThreadQueues.Queue.Dequeue | MP5_Final/queue.H:29-40 | the head is returned and only it removed, the rest in order; an empty queue gives null and no change; removing the last thread empties the head node |
| ThreadQueues.FifoOrder | MP5_Final/queue.H:21-40 | threads enqueued into a fresh queue come out in the order they went in |
| Termination.RotationStep | MP5_Final/scheduler.C:73-77 | one turn of the loop: the head is the next unvisited thread, and it is dropped when it matches, or moved to the tail otherwise |
| Termination.Rotation | MP5_Final/scheduler.C:73-77 | the queue after i turns loses one thread per match among the i threads looked at |
| Termination.Sweep | MP5_Final/scheduler.C:73-77 | the queue where the loop stops is never longer than the queue it started from |
| Termination.Terminated | MP5_Final/scheduler.C:72-78 | the ready queue after `terminate` is never longer than before |
| Termination.SweepStops | MP5_Final/scheduler.C:73-77 | the loop, whose bound shrinks with each drop, stops at a point where the queue is the unvisited tail followed by the kept visited threads |
| Termination.TerminatedKeepsOthers | MP5_Final/scheduler.C:72-78 | `terminate` keeps every thread of another id, each as often as before, and never lengthens the queue |
| Termination.TerminatedAbsent | MP5_Final/scheduler.C:72-78 | terminating a thread that is not queued leaves the queue and its order unchanged |
| Termination.TerminatedOnce | MP5_Final/scheduler.C:72-78 | a thread queued once is removed and the queue shrinks by one; unless it was last, the old last thread moves to the front and the others keep their order |
| Termination.WithoutAppend | MP5_Final/scheduler.C:75-76 | dropping the matches of a concatenation drops them from each part |
| Termination.WithoutAbsent | MP5_Final/scheduler.C:75-76 | no thread matches exactly when dropping the matches keeps the queue whole |
| Termination.TerminateIn | MP5_Final/scheduler.C:72-78 | the rotation loop turns the ready queue into Terminated of it and leaves the counter equal to its length |
| ReadySchedulers.Scheduler.constructor | MP5_Final/scheduler.C:48-51 | size 0, an empty ready queue, nothing dispatched |
| ReadySchedulers.Scheduler.Yield | MP5_Final/scheduler.C:53-60 | size 0 changes nothing; otherwise size drops by one and the ready head is dispatched and removed; size stays equal to the ready queue's length |
| ReadySchedulers.Scheduler.Add | MP5_Final/scheduler.C:67-70 | appends the thread and counts one more; size stays equal to the ready queue's length for a non-null thread |
| ReadySchedulers.Scheduler.Resume | MP5_Final/scheduler.C:62-65 | the same as `add` |
| ReadySchedulers.Scheduler.Terminate | MP5_Final/scheduler.C:72-78 | the ready queue becomes Terminated of it, the count stays equal to its length, and nothing is dispatched |
| DiskSchedulers.BlockingDisk.constructor | MP6_Final/blocking_disk.C:33-37 | an empty wait queue and a zero counter |
| DiskSchedulers.BlockingDisk.EnqueueOnDisk | MP6_Final/blocking_disk.C:50-53 | the thread is appended to the wait queue and the counter rises by one |
| DiskSchedulers.Scheduler.constructor | MP6_Final/scheduler.C:48-52 | size 0, an empty ready queue, no disk |
| DiskSchedulers.Scheduler.AddDisk | MP6_Final/scheduler.C:88-90 | only the disk reference changes |
| DiskSchedulers.Scheduler.Yield | MP6_Final/scheduler.C:54-68 | with a ready disk whose counter is non-zero, the disk head is dispatched, and only the disk queue and its counter change. Otherwise it acts as the FIFO `yield` and leaves the disk alone |
| DiskSchedulers.Scheduler.Add | MP6_Final/scheduler.C:75-78 | appends to the ready queue and counts one more; the disk is untouched |
| DiskSchedulers.Scheduler.Resume | MP6_Final/scheduler.C:70-73 | the same as `add` |
| DiskSchedulers.Scheduler.Terminate | MP6_Final/scheduler.C:80-86 | the ready queue becomes Terminated of it; the disk queue and its counter are untouched |
| BlockMaps.BitIsShift | MP7_Final/file_system.C:207 | Bit(k) is `1 << k` |
| BlockMaps.SetBitMeaning | MP7_Final/file_system.C:211 | marking a block sets it and leaves every other block as it was |
| BlockMaps.ClearBitMeaning | MP7_Final/file_system.C:225-230 | the or-then-xor of `FreeBlock` clears that block and leaves every other block as it was |
| BlockMaps.FreeIdempotent | MP7_Final/file_system.C:225-230 | freeing a block twice is freeing it once |
| BlockMaps.FreeUndoesSet | MP7_Final/file_system.C:225-230 | freeing a block that was just marked gives back the earlier map |
| BlockMaps.LowestClear | MP7_Final/file_system.C:204-220 | the lowest clear block in the searched bytes, with every block below it in use; none exactly when all are in use |
| BlockMaps.FullByte | MP7_Final/file_system.C:205 | a byte equal to 0xFF has all eight blocks in use |
| BlockMaps.LowestClearBit | MP7_Final/file_system.C:206-209 | the inner loop stops at the lowest clear bit, below 8 for a byte that is not full |
| BlockMaps.LowestClearBitIs | MP7_Final/file_system.C:206-209 | a clear bit with all lower bits set is the one the inner loop finds |
| BlockMaps.FirstFitInByte | MP7_Final/file_system.C:204-216 | the lowest clear bit of a byte that is not full is the search's answer from that byte on |
| BlockMaps.SetBitInByte | MP7_Final/file_system.C:211-212 | block 8i + j is bit j of byte i |
| BlockMaps.AllBitsSet | MP7_Final/file_system.C:205 | a byte with all eight bits set is 0xFF |
| BlockMaps.ClearBitOfByte | MP7_Final/file_system.C:206-212 | the bit found is a free block, and the blocks before it in the byte are in use |
| BlockMaps.ReserveByte | MP7_Final/file_system.C:68-71 | the intended partial byte: bit k set exactly for k below the count |
| BlockMaps.PartialByteAsWritten | MP7_Final/file_system.C:68-71 | on byte 0 the `i << j` reservation gives 0, so the search hands out block 0; the intended byte hands out block `count` |
| BlockMaps.ReserveByteAsWritten | MP7_Final/file_system.C:68-71 | the partial byte built from `i << j`: on byte 0 it stays 0, whatever the count |
| FileNodes.FormatLayout | MP7_Final/file_system.C:55-57 | each of num_blocks, m_nodes and m_blocks is the least count that strictly covers what it stands for, and at most one unit over |
| FileNodes.LayoutFits | MP7_Final/file_system.C:55-57 | when a node is at most half a block, the node table takes at least one block and no more blocks than the disk has |
| FileNodes.FormatByte | MP7_Final/file_system.C:59-71 | bit k of map byte j is set exactly when block 8j + k is a node-table block |
| FileNodes.FormatByteAsWritten | MP7_Final/file_system.C:59-71 | as written, map byte j is the intended one except at the partial byte, and is 0 throughout with fewer than 8 node-table blocks |
| FileNodes.AsWrittenMapClear | MP7_Final/file_system.C:64-71 | with fewer than 8 node-table blocks, no block of the map as written is in use |
| FileNodes.FormattedMap | MP7_Final/file_system.C:59-71 | after the intended format a block is in use exactly when it is one of the node-table blocks |
| FileNodes.NodeTableLeftFree | MP7_Final/file_system.C:64-71 | with fewer than 8 node-table blocks, the as-written map leaves them all free, so the first allocation is block 0; the intended one starts after them |
| FileNodes.EmptyNode | MP7_Final/file_system.C:152-160 | node id 0 and an empty block list, as `DeleteFile` leaves a node and a zeroed metadata block holds it |
| FileNodes.ZeroBlock | MP7_Final/file_system.C:73-74 | 512 zero bytes |
| FileNodes.FirstFrom | MP7_Final/file_system.C:86-91 | the first node of the id from a given slot on; none exactly when no node there has it |
| FileNodes.FirstNode | MP7_Final/file_system.C:86-91 | the record every scan stops at: the first node of the id, none exactly when no node has it |
| FileNodes.UniqueFirst | MP7_Final/file_system.C:86-91 | with unique ids, the first node of an id is its only node |
| FileNodes.TakeKeepsUnique | MP7_Final/file_system.C:126-135 | giving the first free node an absent id keeps ids unique, and that node is then found for the id |
| FileNodes.FreeKeepsUnique | MP7_Final/file_system.C:150-162 | clearing the only node of an id keeps ids unique, and the id is no longer found |
| FileNodes.SameIdsKeepUnique | MP7_Final/file_system.C:181-193 | a node change that keeps its id keeps ids unique and every search result |
| FileNodes.Created | MP7_Final/file_system.C:127-133 | the intended created node: the id, block 0 the block obtained, `b_size` 0 naming the last used slot, other fields kept |
| FileNodes.CreatedAsWritten | MP7_Final/file_system.C:127-133 | the created node as written: the same but with `b_size` 1 |
| FileNodes.WithBlock | MP7_Final/file_system.C:262-264 | `b_size` rises by one and the block goes into the slot it then names; nothing else changes |
| FileNodes.AppendBlocksMeaning | MP7_Final/file_system.C:262-264 | recording blocks in turn puts them in the slots after `b_size`, in order, and leaves the other slots |
| FileNodes.AppendBlocksStep | MP7_Final/file_system.C:262-264 | recording one more block is appending it to those recorded |
| FileNodes.TableAppendStep | MP7_Final/file_system.C:262-265 | in a table, recording a block on node k appends it to the blocks recorded there |
| FileNodes.Erased | MP7_Final/file_system.C:181-192 | the erased node: the id and first block are kept; size, `b_size` and every other slot are 0 |
| FileNodes.BlockListStaysContiguous | MP7_Final/file_system.C:127-133 | with `b_size` starting at 0, creating, recording a block and erasing each keep the block list free of gaps |
| FileNodes.SecondSlotSkipped | MP7_Final/file_system.C:263-264 | after the as-written create, the next recorded block goes to slot 2, slot 1 stays 0, and the list has a gap; the intended create puts it in slot 1 |
| FileNodes.Allocate | MP7_Final/file_system.C:200-223 | the map keeps its length, and the block returned is 0 or in the searched range |
| FileNodes.AllocateMeaning | MP7_Final/file_system.C:204-222 | the search fails exactly when every searched block is in use, and then returns 0 and changes nothing. Otherwise it marks exactly the lowest clear block and returns it |
| FileNodes.AllocateTakes | MP7_Final/file_system.C:204-216 | a successful allocation returns a block that was free and is now in use |
| FileNodes.AllocateKeeps | MP7_Final/file_system.C:211 | an allocation never frees a block |
| FileNodes.FreeAfterAllocate | MP7_Final/file_system.C:225-230 | `FreeBlock(GetBlock())` gives back the map it started from |
| FileNodes.LowestClearIs | MP7_Final/file_system.C:204-216 | a free block with every block below it in use is the one the search finds |
| FileNodes.AllocateFull | MP7_Final/file_system.C:221-222 | on a full map the allocation returns 0 and changes nothing |
| FileNodes.FirstFitFound | MP7_Final/file_system.C:204-216 | when bytes below i are full and j is the lowest clear bit of byte i, the allocation sets that bit and returns 8i + j |
| FileNodes.AllocateN | MP7_Final/file.C:99-102 | k allocations in a row return k blocks, each 0 or in the searched range |
| FileNodes.AllocateNDistinct | MP7_Final/file.C:99-102 | allocations that all succeed hand out distinct blocks, all left in use |
| FileNodes.AllocateNGrows | MP7_Final/file.C:99-102 | a block in use stays in use across any number of allocations |
| FileNodes.AllocateNFresh | MP7_Final/file.C:99-102 | blocks handed out by allocations that all succeed were free at the start |
| FileNodes.FreeAll | MP7_Final/file_system.C:155-160 | freeing a list keeps the map's length |
| FileNodes.FreeAllMeaning | MP7_Final/file_system.C:155-160 | after freeing a list, a block is in use exactly when it was before and is block 0 or not in the list |
| FileNodes.ReadSteps | MP7_Final/file.C:60-75 | the bytes a read copies: none, or at most the request; never past the LAST_INDEX blocks |
| FileNodes.ReadStepsCount | MP7_Final/file.C:60-75 | with the intended end-of-file test, a read copies the least of the request, the bytes left before the size, and the bytes left in the first 15 blocks; nothing at end of file or for a request that is not positive |
| FileNodes.ReadsPastEnd | MP7_Final/file.C:131-134 | with the strict test as written, a read that asks for more than is left copies one byte past the size |
| FileNodes.MulMono | MP7_Final/file_system.C:57 | multiplication by a larger factor gives no less |
| FileData.WriteBytes | MP7_Final/file.C:94-107 | the write loop's end state: the disk keeps its shape; one block is taken per filled buffer; the cursor is the start position plus the data length, in blocks and bytes |
| FileData.WriteAllocates | MP7_Final/file.C:99-102 | the blocks a write takes, and the map it leaves, are those of as many `GetBlock` calls in a row |
| FileData.WritePlacement | MP7_Final/file.C:94-109 | when the blocks involved are distinct, each byte lands in its block at its offset, no other block changes, and the first block keeps its bytes outside the written range |
| FileData.WriteLandsData | MP7_Final/file.C:94-109 | a write that starts on a block in use, and in which every `GetBlock` succeeds, places every byte of the data |
| FileData.LandsWithin | MP7_Final/file.C:95-98 | a byte placed in the current block, plus the rest placed from the next position, place the whole data |
| FileData.LandsCross | MP7_Final/file.C:99-106 | a byte that fills the block, plus the rest placed at byte 0 of the next block, place the whole data |
| FileData.CursorByte | MP7_Final/file.C:61 | the byte under the cursor is byte pos of the block the cursor is on |
| FileData.ReadIntoStep | MP7_Final/file.C:61-63 | copying the next file byte into the buffer extends the read by one byte |
| FileData.RemainingPut | MP7_Final/file.C:95-98 | a byte that leaves room goes into the buffer, and the write still ends as a whole |
| FileData.RemainingCross | MP7_Final/file.C:99-106 | a byte that fills the buffer writes it back and takes the next block, and the write still ends as a whole |
| FileData.RemainingDone | MP7_Final/file.C:107-108 | once no byte is left, the loop's state is the end of the whole write |
| FileSystems.FileSystem.constructor | MP7_Final/file_system.C:29-36 | no disk, and every count is 0 |
| FileSystems.FileSystem.Mount | MP7_Final/file_system.C:42-49 | takes the disk only when there is none yet, and always succeeds |
| FileSystems.FileSystem.Format | MP7_Final/file_system.C:51-79 | the intended format, with `1 << j` for the partial byte (FormatAsWritten is the source's): the layout is as computed; a map bit is set exactly for the node-table blocks; bytes beyond the map are untouched; every block of the file system is zeroed; the node table is all free |
| FileSystems.FileSystem.FormatAsWritten | MP7_Final/file_system.C:51-79 | the same layout and disk writes, with each map byte the as-written format value, so with fewer than 8 node-table blocks no searched block is in use |
| FileSystems.FileSystem.PlaceLayout | MP7_Final/file_system.C:52-57 | the disk and size are taken and the layout is as computed, with between 1 and num_blocks node-table blocks |
| FileSystems.FileSystem.FormatDisk | MP7_Final/file_system.C:73-78 | the file system's blocks are zeroed, other blocks untouched, and the node table is all free |
| FileSystems.FileSystem.FormatMap | MP7_Final/file_system.C:59-71 | the intended map (FormatMapAsWritten is the source's): each map byte is its format value; a block is in use exactly when it is a node-table block |
| FileSystems.FileSystem.FormatMapAsWritten | MP7_Final/file_system.C:59-71 | each map byte is its as-written format value; with fewer than 8 node-table blocks no block is in use |
| FileSystems.FileSystem.FillMap | MP7_Final/file_system.C:59-66 | the searched bytes become 0, the bytes the node table covers entirely 0xFF, the rest untouched; the index returned is the partial byte's |
| FileSystems.FileSystem.ZeroBlocks | MP7_Final/file_system.C:73-77 | blocks below the count hold zeros; the others are unchanged |
| FileSystems.FileSystem.WriteBlock | MP7_Final/file.C:100 | `disk->write(j, buf)`: block j holds buf, no other block changes, and the model's separate node records are unchanged |
| FileSystems.FileSystem.Find | MP7_Final/file_system.C:86-91 | the table position of the first record of the id, or -1 exactly when there is none |
| FileSystems.FileSystem.LookupFile | MP7_Final/file_system.C:81-112 | null exactly when no record has the id. Otherwise a new file on that first record: its size, a copy of its block list, the cursor at the start of block 0, this file system |
| FileSystems.FileSystem.OpenOn | MP7_Final/file_system.C:92-100 | a new file holding the node's id, size and blocks, with the cursor at the start |
| FileSystems.FileSystem.CopyList | MP7_Final/file_system.C:97-99 | the array holds the node's block list |
| FileSystems.FileSystem.CreateFile | MP7_Final/file_system.C:114-140 | the intended create, with `b_size` 0 (CreateFileAsWritten is the source's): refused with no change when the id is present or no node is free. Otherwise the first free node takes the id and the block `GetBlock` gives, the map is as `GetBlock` leaves it, and the id is then found there |
| FileSystems.FileSystem.CreateFileAsWritten | MP7_Final/file_system.C:114-140 | as `CreateFile`, but the new record is the as-written one with `b_size` 1 |
| FileSystems.FileSystem.SetNode | MP7_Final/file_system.C:134 | `disk->write` of a node record: record k becomes n, and the model's separate data blocks are unchanged |
| FileSystems.FileSystem.DeleteFile | MP7_Final/file_system.C:142-168 | refused with no change when the id is absent. Otherwise its first node is cleared, exactly its blocks are freed, and a non-zero id is no longer found |
| FileSystems.FileSystem.EraseFile | MP7_Final/file_system.C:170-198 | no change when the id is absent. Otherwise the node keeps its id and first block, every listed block is zeroed on disk, and all but the first are freed |
| FileSystems.FileSystem.FreeList | MP7_Final/file_system.C:155-160 | frees every non-zero entry of the list, in order |
| FileSystems.FileSystem.EraseBlocks | MP7_Final/file_system.C:184-192 | zeros over every non-zero entry; the entries after the first are freed; other blocks are unchanged |
| FileSystems.FileSystem.EraseEntry | MP7_Final/file_system.C:185-190 | one more entry handled in the erase loop |
| FileSystems.FileSystem.ZeroEntry | MP7_Final/file_system.C:185-186 | one more listed block zeroed |
| FileSystems.FileSystem.FreeEntry | MP7_Final/file_system.C:187-189 | one more listed block after the first freed |
| FileSystems.FileSystem.GetBlock | MP7_Final/file_system.C:200-223 | the map and block are those of the first-fit allocation, and the block is 0 or one the map covers |
| FileSystems.FileSystem.FirstClearBit | MP7_Final/file_system.C:206-209 | the lowest clear bit of a byte that is not full |
| FileSystems.FileSystem.FreeBlock | MP7_Final/file_system.C:225-230 | the map with that block's bit cleared |
| FileSystems.FileSystem.UpdateSize | MP7_Final/file_system.C:232-251 | the first record of the id grows by the delta, and the file takes the new size; with no record nothing changes |
| FileSystems.FileSystem.UpdateBlockData | MP7_Final/file_system.C:253-272 | the first record of the id records the block after its last one; with no record nothing changes; every search result is kept |
| FileSystems.Wanted | MP7_Final/file.C:90-94 | the bytes the loops handle for a request n, read as `int`: n itself below 2^31, none when the top bit is set, and never more than n |
| FileSystems.File.constructor | MP7_Final/file.C:30-40 | id -1, size 0, no current block, the cursor at the start, no file system |
| FileSystems.File.EoF | MP7_Final/file.C:127-135 | the intended test: the cursor offset has reached the size |
| FileSystems.File.EoFAsWritten | MP7_Final/file.C:127-135 | the test as written: the cursor offset is past the size |
| FileSystems.File.EndOfFile | MP7_Final/file.C:127-135 | the test as written or the intended one, chosen by a flag |
| FileSystems.File.EoFDiffers | MP7_Final/file.C:127-135 | the strict test as written and the intended one differ exactly on the offset just past the last byte |
| FileSystems.File.Read | MP7_Final/file.C:46-77 | the intended read, with the end-of-file test `offset >= size` (ReadAsWritten is the source's): an uninitialised file or one at end of file reads 0 and changes nothing. Otherwise it copies as many bytes as ReadStepsCount gives, each the file's byte at its offset, leaves the rest of the buffer alone, and moves the cursor past them, stopping at LAST_INDEX |
| FileSystems.File.ReadAsWritten | MP7_Final/file.C:46-77 | `Read` with the strict end-of-file test: as `Read`, with the byte count ReadSteps gives for that test, which includes the byte at the size |
| FileSystems.File.ReadFrom | MP7_Final/file.C:52-76 | from a cursor not at end of file by either test: as many bytes as ReadSteps counts for that test, and the cursor as for `Read` |
| FileSystems.File.ReadLoop | MP7_Final/file.C:60-75 | the loop from offset o: it copies as many bytes as ReadSteps counts, each the file's byte at its offset, and ends either past block LAST_INDEX at byte 512 or on the offset o plus the bytes read |
| FileSystems.File.ReadByte | MP7_Final/file.C:61-74 | one byte copied and the cursor moved on; a stop exactly when the cursor leaves block LAST_INDEX |
| FileSystems.File.Advance | MP7_Final/file.C:64-74 | one byte on; at a block's end, on to the next listed block at byte 0, or a stop past LAST_INDEX |
| FileSystems.File.Write | MP7_Final/file.C:80-110 | an uninitialised file changes nothing. Otherwise disk, map and cursor end as WriteBytes computes, with the last buffer written back; the node gains the taken blocks and the written byte count of size, and the file takes that size |
| FileSystems.File.WriteFrom | MP7_Final/file.C:89-109 | the same, for an initialised file |
| FileSystems.File.WritingStarts | MP7_Final/file.C:89-93 | before the loop nothing is written and no block is taken |
| FileSystems.File.WriteLoop | MP7_Final/file.C:94-107 | the loop runs over every byte of the data, keeping the write in step with WriteBytes |
| FileSystems.File.WriteByte | MP7_Final/file.C:95-106 | one more byte written, in step with WriteBytes |
| FileSystems.File.PutByte | MP7_Final/file.C:95-98 | a byte that leaves room changes only the buffer and the position |
| FileSystems.File.CrossByte | MP7_Final/file.C:99-106 | a byte that fills the buffer: the block is written back, and the write goes on in the block taken |
| FileSystems.File.NextBlock | MP7_Final/file.C:99-106 | the full buffer goes to its block; the next block is allocated first-fit and recorded in the node; the cursor is at its byte 0 |
| FileSystems.File.WriteFinish | MP7_Final/file.C:108-109 | the size grows by the bytes written, and the last buffer goes to its block |
| FileSystems.File.Reset | MP7_Final/file.C:112-116 | the intended reset: the cursor is at offset 0 on the first block |
| FileSystems.File.ResetAsWritten | MP7_Final/file.C:112-116 | the reset as written: position 0 and the first block, but the block index is kept, so the offset is `(index - 1) * 512` |
| FileSystems.File.Rewrite | MP7_Final/file.C:118-124 | the file is erased on the file system, and every entry of its own block list but the first becomes 0 |
| FileSystems.File.ClearList | MP7_Final/file.C:121-123 | entries 1 to 15 become 0, and entry 0 is kept |

## Left out

- Hardware: the CR0, CR2 and CR3 registers are not modelled. `enable_paging` sets a flag, `load` sets the current table, and the faulting address is a parameter of `HandleFault`.
- The contiguous frame pool (`cont_frame_pool.C`) is not part of this model. `FramePool` is a set of free frames with `get_frames(1)` and `release_frames`.
- `MP3_Ver4/page_table.C` is an earlier version that `MP4_final/page_table.C` supersedes, so it is not modelled.
- `Console::puts`/`puti` logging is not modelled.
- `Thread::dispatch_to`, the context switch and `Thread` itself are not modelled. A dispatch is recorded in a `dispatched` log, and a thread is its id.
- The `BlockingDisk` device is not modelled: `read`, `write`, `wait_until_ready` and `is_ready`. Only its wait queue and counter are. Readiness is a parameter of `DiskSchedulers.Scheduler.Yield`.
- The `SimpleDisk` protocol and the `(m_node*)buf` casts are not modelled.
  - The node records are kept as a sequence beside the data blocks, rather than as bytes inside metadata blocks.
  - A scan over `m_blocks` blocks of `NODES_PER_BLOCK` records each is one scan over `mBlocks * nodesPerBlock` records, in the same order.
- `sizeof(m_node)` and the length of `block_map` are fixed by headers that are not part of this model. They are constructor parameters of `FileSystem`.
- `VM_POOL_SIZE` and `MAX_REGIONS` are defined in headers that are not part of this model. They are the capacities passed to `PageTable` and `VMPool`.
- `LookupFile` uses the global `FILE_SYSTEM`; the model uses the file system the method is called on.
- Integer widths of counts are not modelled. `int`/`long` overflow of sizes, counters and block numbers is ignored. The 32-bit wrap of addresses, region lengths and `int to_read = _n` is modelled.
- There is no lemma that reads back what a write stored. `Write` and `Read` are each tied to the disk contents, but the two are not composed.
- VirtualMemory.VMPool.IsLegitimate: compares as unsigned against `(base + size) mod 2^32`. The source stores both bounds in `int`, which the comparison converts back to unsigned, so the result is the same, but the model does not follow the signed intermediate values.
- VirtualMemory.PagingState.HandleFault: requires a free frame in each pool it will draw from. `get_frames` returns 0 when a pool is empty, and the source does not check for that.
- VirtualMemory.PageTable.constructor: requires two free kernel frames, and a shared region of 1 to 1024 frames, for the same reason.
- VirtualMemory.PageTable.FreePage: returns `ok == false` and changes nothing when the page's directory entry is absent. The source would fault through the table window in that case.
- VirtualMemory.PageTable.FreePage: requires the page to lie below the top 4 MiB, whose directory slot 1023 is the self-map. There the table window is the directory itself; `release` never reaches such a page, since its regions lie below the table window.
- VirtualMemory.PageTable.FreePage: states that every other page keeps its translation only when no two present directory slots name the same table (`TablesUnshared`). The source never links one table into two slots. The constructor's 4 MiB directory is unaliased, and `HandleFault` keeps that, but the model does not carry it as an invariant of every table.
- VirtualMemory.VMPool.FreePages: states that pages outside the region keep their translations, and that the region's frames are free again, under the same `TablesUnshared` hypothesis.
- VirtualMemory.VMPool.Release: states the same two facts under the same `TablesUnshared` hypothesis.
- VirtualMemory.PagingState.HandleFault: states that unaliased tables stay unaliased. It does not state which pages other than the faulting one keep their translations; it states instead which arrays stay unchanged.
- VirtualMemory.PagingState.AllocateKernelFrame: a frame from `get_frames` holds whatever it held before, so the model does not claim any entry the source does not write. In the constructor, entries from `shared_size / PAGE_SIZE` on keep those contents.
- VirtualMemory.VMPool.constructor: the descriptor table `to_alloc` is a separate array. The source places it at the pool's base address, in the pool's first page, and reaches it through paging.
- VirtualMemory.VMPool.Release: requires the matching region to lie below the table window (`0xFFC00000`), so that its page loop neither wraps nor touches the self-map slot.
- VirtualMemory.VMPool.Release: uses the live-descriptor search; the search as written is VmRegions.FindSlotAsWritten (see Findings).
- ReadySchedulers.Scheduler.Terminate and DiskSchedulers.Scheduler.Terminate: require `size` to equal the ready queue's length. Otherwise the source's loop dequeues NULL and dereferences it.
- FileSystems.FileSystem.Format: requires the map array to cover the bytes it writes. The source writes `block_map` without bounds.
- FileSystems.FileSystem.CreateFile: checks for an existing id with the same scan as `LookupFile`, without allocating the `File` that `LookupFile` returns and the source then leaks.
- FileSystems.FileSystem.LookupFile: returns null without allocating when the id is absent. The source allocates a `File` first and leaks it.
- FileSystems.FileSystem.UpdateBlockData: requires the slot it writes to be inside the block list. The source does not check `b_size`.
- FileSystems.FileSystem.UpdateSize: compares ids as integers. The source compares an `int` with an `unsigned long`.
- FileSystems.FileSystem.WriteBlock: keeps the node records apart from blocks 0 to `m_blocks - 1`, where the source stores them. A data write to such a block leaves the model's records unchanged, while in the source it overwrites them. That happens for block 0 when `GetBlock` finds no free block (file_system.C:221-222), and for the first blocks handed out after the as-written format with `m_blocks` below 8.
- FileSystems.FileSystem.SetNode: a record write changes only the model's record sequence. In the source it rewrites the bytes of the metadata block holding the record, so a later read of that block as data sees them.
- FileSystems.File.Write: inherits both separations. A write whose blocks include a metadata block (block 0 after a failed `GetBlock`, or the blocks `FormatAsWritten` leaves free) leaves the node records unchanged in the model.
- FileSystems.File.Write: requires the node to have room for every block the write takes. It does not update the file's own `blocks` array, and neither does the source.
- FileSystems.File.Read: requires the cursor and the listed blocks to be on the disk. It tests end of file once before the loop, which is equivalent to the loop's own test on the first pass.
- FileSystems.File.Write: requires `pos` below 512. The source leaves `pos` at 512 only when `Read` returns early after block 15, and a `Write` from there stores `buf[512]`, past the end of its 512-byte buffer.
- FileSystems.File.Read: requires the block index to be at most LAST_INDEX (15), and `pos` below 512, when not at end of file. The only states outside this arise after a read that stopped past block 15. From there the source reads `buf[512]` past its buffer, or, after `ResetAsWritten`, reads block 0 again with index 16. The model does not cover those states.
- FileSystems.File.ReadAsWritten: has the same requirement.

## Findings

| source | as written | input that shows it | evidently intended | confidence | as-written member | corrected member |
|---|---|---|---|---|---|---|
| MP4_final/vm_pool.C:93-99 | `release` searches all MAX_REGIONS slots, stale ones included | allocate A, allocate B, release B, release B: the second release matches stale slot 1, drops the live count to 0 and forgets A, so the next allocation overlaps A | search only the `region` live descriptors, so the second release is fatal | medium; not executed | VmRegions.StaleSlotSearch | VmRegions.FindRegion |
| MP7_Final/file_system.C:68-71 | the partial map byte is built from `i << j`, with i the byte index, not `1 << j` | Format with fewer than 8 node-table blocks: byte 0 stays 0, so the node table is free and `GetBlock` hands out block 0 | set the low `m_blocks % 8` bits, so the node-table blocks are in use | high; not executed | BlockMaps.PartialByteAsWritten | FileSystems.FileSystem.Format |
| MP7_Final/file_system.C:133 | `CreateFile` sets `b_size = 1`, and `UpdateBlockData` increments before storing (file_system.C:263-264) | create a file, then write 512 bytes: the second block goes to slot 2, slot 1 stays 0, and a read past the first block goes to block 0, the node table | the second block in slot 1: `b_size` names the last used slot and starts at 0 | high; not executed | FileNodes.SecondSlotSkipped | FileNodes.BlockListStaysContiguous |
| MP7_Final/file.C:131-134 | `EoF` is `offset > size`, a strict comparison | a 10-byte file read from offset 0 with n = 20 copies 11 bytes, the last one past the end | `offset >= size` | high; not executed | FileNodes.ReadsPastEnd | FileNodes.ReadStepsCount |
| MP7_Final/file.C:112-116 | `Reset` sets `pos` and `curr_block` but not `index` | read 1024 bytes (index 3), then reset: the cursor offset is 1024 on block 0, and the next block change goes to `blocks[3]` | also `index = 1`, so the cursor is at offset 0 | high; not executed | FileSystems.File.ResetAsWritten | FileSystems.File.Reset |

In each row the model uses the corrected member:

- `FileSystems.FileSystem.Format` builds the map with `BlockMaps.ReserveByte` and proves `FileNodes.FormattedMap`. `FileSystems.FileSystem.FormatAsWritten` is the method as written; it leaves a small node table free.
- `FileSystems.FileSystem.CreateFile` builds the node with `FileNodes.Created`. `FileSystems.FileSystem.CreateFileAsWritten` builds it with `FileNodes.CreatedAsWritten`.
- `FileSystems.File.Read` uses `FileSystems.File.EoF`. `FileSystems.File.ReadAsWritten` uses `EoFAsWritten`, and `FileSystems.File.EoFDiffers` relates the two tests.
- `VirtualMemory.VMPool.Release` searches with `VmRegions.FindRegion`.
