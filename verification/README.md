# Verified model of the kernel's memory subsystem

This project models the parts of the kernel that hand out and translate memory, and three small codecs, and proves
what they keep.

| file | module | models |
|---|---|---|
| `Division.dfy` | `Division` | quotients and remainders |
| `Layout.dfy` | `Layout` | page size and the kernel's view of memory |
| `Sequences.dfy` | `Sequences` | bytes, and sequences backwards |
| `Blocks.dfy` | `Blocks` | the buddy heap as a map from aligned blocks to free, used or split |
| `HeapRuns.dfy` | `HeapRuns` | runs of allocations and releases; conservation of bytes |
| `Lists.dfy` | `Lists` | doubly linked lists threaded through structs |
| `Pool.dfy` | `PoolAllocator` | the object pool of `source/alloc/pool.c` |
| `BlockStructs.dfy` | `BlockStructs` | what a set of block structs says about a heap |
| `Buddy.dfy` | `BuddyAllocator` | the buddy allocator of `source/alloc/buddy.c` |
| `HeapSupply.dfy` | `HeapSupply` | when the heap can serve a request in pieces; the order of the pieces |
| `HeapCounts.dfy` | `HeapCounts` | the allocator on numbers of free blocks |
| `HeapCalls.dfy` | `HeapCalls` | whole programs of allocator calls |
| `MemTest.dfy` | `MemTest` | the kernel's own heap test |
| `Radix.dfy` | `Radix` | translation tables as a map from entry positions to entries; address arithmetic |
| `PageTable.dfy` | `PageTables` | `source/memory/pagetable.c` on tables in memory |
| `Regions.dfy` | `Regions` | several mapped regions on top of the kernel's own tree |
| `AddressSpace.dfy` | `AddressSpaces` | `source/memory/address_space.c` |
| `Process.dfy` | `Processes` | the process switch of `source/process/process.c` |
| `Vmalloc.dfy` | `Vmalloc` | `source/alloc/vmalloc.c` |
| `Boot.dfy` | `Boot` | start-up: the tables of `source/memory/virtual_memory.c`, the heap, the kernel's address space |
| `EntryArgs.dfy` | `EntryArgs` | the argv image of `source/process/process.c` |
| `DeviceTree.dfy` | `DeviceTree` | the structure block parser of `source/dev/device_tree.c` |
| `Fat32.dfy` | `Fat32` | the directory row parser of `source/fs/fat32.c` |
| `Numbers.dfy` | `Numbers` | the decimal printer and reader of `source/string/string.c` |

**Heap.** The buddy heap is a forest of binary trees of blocks of orders 0 to 13 (512 bytes to 4 MiB). A block is named
by its index and its order, so it is aligned to its size by construction. The class `Buddy` holds the kernel's data:
one row per struct (children, order, flag, start), link fields for the free list of the struct's order and for the list
of all structs, list heads, and the struct pool. Its invariant says that the structs represent a well-formed forest one
to one, that free list k holds exactly the free structs of order k once each with both links right, that the list of
all structs holds exactly the structs in use, and that these are exactly the objects the pool has handed out. Every
method is proved to take the forest where a function on forests takes it, and the laws of the heap (tiling, canonical
form, restoration, conservation of bytes) are proved on forests. Which allocations succeed depends on less: on how many
blocks of each order are free and how many structs. `HeapCounts` is the allocator on these numbers, and the forest
refines it; so what a whole request or the whole heap test will do can be computed beforehand, for fragmented heaps too.

**Translation.** The four-level tables in memory are tied to one map from entry positions to leaf or table entries.
Mapping is specified without its greedy loop, as an interval update: the largest aligned blocks that lie in the interval
become leaves, leaves that were in the interval are gone, and all others stay. Table entries and page contents follow
from the leaves, which is why unmapping restores every page. Table pages that are cut off when a leaf is written over a
table are kept track of (`leaked`): they stay allocated, but nothing leads to them.
The format is that of section D5.3 of the Arm Architecture Reference Manual DDI 0487. The process switch is proved on
objects (linked mappings, address spaces, processes), with the tree of the kernel's own mappings as the fixed base.

**Codecs.** Each is proved against the encoding it is meant to read: the standard token stream of section 5.4 of the
Devicetree Specification v0.3, the long-name rows of section 7 of Microsoft's FAT File System Specification, and decimal
text.

## Where the code and its documentation disagree

- `pool_create_pool_using_memory` is documented to fit the objects into the region, but divides by the size before
  widening it to 8 bytes; `PoolAllocator.Pool.SmallObjectsDoNotFit` has a region that is left,
  `PoolAllocator.Pool.ObjectsFitRegion` the exact condition.
- `page_table_map_address` reports conflicts, but only those with a leaf above a block it writes;
  `PageTables.ConflictMissesSmallerLeaf` has an overlap it misses, `PageTables.ConflictOrOverwrite` the exact
  condition, and `PageTables.PageTable.MapAddress` what happens to the tree then. It also picks block sizes from the
  virtual address alone; `Radix.PageAlignedIsNotEnough` has an interval this breaks, and `Radix.OverlayTranslates` says
  exactly when the result is linear.
- `map_memory_region` tests for overlaps, but the mapping it tests is never active at that point, so the test cannot
  fire; overlaps are found, if at all, by the page table. `AddressSpaces.OverlapIsMissed` has one that is not found,
  `AddressSpaces.AddressSpace.MapMemoryRegion` the exact condition.
- `address_space_virtual_to_physical` does not translate the first byte of a region, because its comparison is strict
  (`AddressSpaces.InsideIsTranslated`). An argv image that fills the stack is therefore written to the start of physical
  memory (`EntryArgs.StackIsTranslated`).
- The heap test leaves the same blocks live as before, but when structs run out on the way it does not leave the same
  forest: a block that was cut in vain stays cut (`MemTest.ForestStaysCut`). `MemTest.CreateAndFree` has the exact
  condition, on the numbers of free blocks and structs before the test, and a bound that suffices for it.
- `vmalloc` without the page-align flag fails for every request of 1 to 2048 bytes: the chunk taken is smaller than a
  page, which the page table refuses, and for up to 512 bytes the largest-available search takes no block at all. It
  fails likewise when the last chunk of a larger request is asked for no more than that. `source/fs/fat32.c:297` asks for file sizes this
  way. `Vmalloc.Vmalloc` has the exact condition, `Vmalloc.ThousandBytesFail` an instance.
- `source/memory/README.md:12-13` puts the vmalloc windows at 0x900000000000; the code (`source/alloc/vmalloc.c:22`) at
  0xB00000000000. Line 18 of that file gives tables 512 more entries for kernel addresses; those of the code have 512.

## Model

| member | source | states |
|---|---|---|
| Blocks.Tiling | source/alloc/buddy.c:25-41 | each heap address lies in exactly one unsplit block, and an address outside the roots in none |
| Blocks.LiveBlocksApart | source/alloc/buddy.c:302-331 | allocated blocks that share an address are the same block |
| Blocks.SplitDownKeeps | source/alloc/buddy.c:259-299 | splitting a free block down to any order keeps the forest well-formed and the live blocks, and leaves the low block of that order free |
| Blocks.AllocationKeeps | source/alloc/buddy.c:302-331 | an allocation adds exactly one live block, of the requested order, that was not live before |
| Blocks.AllocationIsApart | source/alloc/buddy.c:302-331 | the block of an allocation shares no address with any live block |
| Blocks.AllocationStaysCanonical | source/alloc/buddy.c:259-331 | an allocation never leaves two free buddies unsplit side by side |
| Blocks.MergeUpKeeps | source/alloc/buddy.c:186-220 | merging keeps the live blocks, and turns a forest that may have one free pair of buddies into a canonical one |
| Blocks.ReleaseKeeps | source/alloc/buddy.c:340-353 | a release removes exactly its block from the live ones and keeps the forest well-formed and canonical |
| HeapRuns.ForestFromLive | source/alloc/buddy.c:151-353 | in a canonical heap, which blocks exist and the state of each follow from the roots and the live blocks alone |
| HeapRuns.SameLiveSameForest | source/alloc/buddy.c:151-353 | canonical heaps with the same live blocks are the same forest |
| HeapRuns.RunStaysCanonical | source/alloc/buddy.c:151-353 | every heap of every run of requests is well-formed and canonical |
| HeapRuns.RunRestoresForest | source/alloc/buddy.c:151-353 | a run that comes back to an earlier set of live blocks comes back to the same forest |
| HeapRuns.ReleaseOrderIrrelevant | source/alloc/buddy.c:340-360 | freeing a set of live blocks leaves the same forest in every order |
| HeapRuns.LeavesFillHeap | source/alloc/buddy.c:402-449 | the unsplit blocks add up to the bytes of the heap |
| HeapRuns.BytesConserved | source/alloc/buddy.c:452-462 | allocated and free bytes add up to the bytes of the heap |
| Lists.UnlinkKeeps | source/alloc/buddy.c:68-82 | taking an element out of a linked list leaves the rest linked in order and other links alone |
| Lists.LinkFrontKeeps | source/alloc/buddy.c:85-95 | putting an element in front links the longer list |
| Lists.UnlinkAfterLinkFront | source/alloc/buddy.c:157-169 | taking the element just put in front off again restores every link and the head |
| PoolAllocator.Pool.UsingMemory | source/alloc/pool.c:77-97 | the pool is one run of objects over the region, all free, with the counters to match |
| PoolAllocator.Pool.ObjectsFitRegion | source/alloc/pool.c:81-87 | the objects stay in the region exactly if the size is at least 8 or the widening fits the remainder |
| PoolAllocator.Pool.SmallObjectsDoNotFit | source/alloc/pool.c:81-87 | two objects of 4 bytes are counted for a region of 8 bytes that holds one |
| PoolAllocator.Pool.Thread | source/alloc/pool.c:23-30 | every new object points at the next and the last at the old chain; other words are unchanged |
| PoolAllocator.Pool.AllocateNewBlock | source/alloc/pool.c:13-35 | a block's objects come before the free chain, in address order, and the counters grow by their number; no block, no change |
| PoolAllocator.Pool.Alloc | source/alloc/pool.c:107-131 | the first object of the chain, grown by a block exactly when free objects are below a fifth, is handed out; null only if the chain is empty |
| PoolAllocator.Pool.LowIsFifth | source/alloc/pool.c:108-112 | the percentage is below 20 exactly if fewer than a fifth of the objects are free |
| PoolAllocator.Pool.Free | source/alloc/pool.c:141-152 | the object is put back in front of the chain, and null changes nothing |
| PoolAllocator.Pool.OutstandingCount | source/alloc/buddy.c:475-482 | objects minus free objects is the number of objects in use |
| PoolAllocator.Pool.ObjectsDisjoint | source/alloc/pool.c:13-35 | every object is a whole slot of a donated block, and no two objects overlap |
| BlockStructs.ParentStart | source/alloc/buddy.c:190-191 | clearing one address bit of a block's start gives the start of its parent |
| BlockStructs.RightStart | source/alloc/buddy.c:153-155 | flipping one address bit of a block's start gives the start of its high half |
| BlockStructs.SameStart | source/alloc/buddy.c:194 | no two blocks share start and order |
| BlockStructs.SplitRepresents | source/alloc/buddy.c:151-174 | two new child structs make the structs represent the forest with the block split |
| BlockStructs.JoinRepresents | source/alloc/buddy.c:203-213 | taking both child structs away makes the structs represent the forest with the halves joined |
| BuddyAllocator.Buddy.RemoveFromFreeList | source/alloc/buddy.c:68-82 | the struct leaves the free list of its order and no other; links and head follow |
| BuddyAllocator.Buddy.InsertIntoFreeList | source/alloc/buddy.c:85-95 | the struct becomes the head of the free list of its order |
| BuddyAllocator.Buddy.RemoveFromAllList | source/alloc/buddy.c:98-113 | the struct leaves the list of all structs |
| BuddyAllocator.Buddy.InsertIntoAllList | source/alloc/buddy.c:116-124 | the struct becomes the head of the list of all structs |
| BuddyAllocator.Buddy.AllocNewBlock | source/alloc/buddy.c:127-148 | a pool object becomes a free block in front of both lists, or nothing changes when the pool is empty |
| BuddyAllocator.Buddy.SplitBlock | source/alloc/buddy.c:151-179 | it succeeds exactly with two free structs, splits just this block and uses both; otherwise lists, links, structs, pool chain and counters are as before |
| BuddyAllocator.Buddy.ParentFacts | source/alloc/buddy.c:190-202 | the struct found by the cleared address is the parent of the block, with both children there |
| BuddyAllocator.Buddy.MergeBlocks | source/alloc/buddy.c:186-220 | the forest is merged upwards as far as both buddies are free; the "invalid block" exit is not reached |
| BuddyAllocator.Buddy.NextFreeBlock | source/alloc/buddy.c:259-299 | it finds a block exactly if a large enough free block and the structs to split the smallest such block are there, and splits only that block |
| BuddyAllocator.Buddy.Kmalloc | source/alloc/buddy.c:302-331 | the least order that holds the request is used; without a large enough free block everything stays as it was; with one, a block is returned exactly if the structs for the splits are there, cut from the low end of a smallest fitting block; otherwise that block stays cut as far as the structs went |
| BuddyAllocator.Buddy.TryFree | source/alloc/buddy.c:340-353 | it fails, changing nothing, exactly if no allocated block starts at the address; otherwise the forest is the release of that block |
| BuddyAllocator.Buddy.KmallocLargestAvailable | source/alloc/buddy.c:363-399 | with the structs for the request's least order it takes a block of that order or the largest free order below it, never order 0, and null exactly if there is none; without them a block is cut in vain and the largest smaller free block is taken whole; the bytes reported are those of the block |
| BuddyAllocator.Buddy.MemoryAllocated | source/alloc/buddy.c:452-462 | the sum is the bytes of the live blocks, and with the bytes of the free blocks it is the size of the heap |
| BuddyAllocator.Buddy.StructCount | source/alloc/buddy.c:475-482 | objects minus free objects is the length of the list of all blocks, which has one struct for each block of the forest |
| BuddyAllocator.Buddy.FreeStructs | source/alloc/buddy.c:475-482 | the number of free structs follows from the forest and the number of the pool's blocks |
| BuddyAllocator.Buddy.BuddyReserveBlock | source/alloc/buddy.c:223-255 | it succeeds exactly if a free top-order block starts at the address and the structs for the splits are there; then the low block of the given order is taken; without the structs the block stays cut as far as they went |
| BuddyAllocator.Buddy.AddRoot | source/alloc/buddy.c:443 | a top-order block at a new place joins the forest as a free root, unless the pool is empty |
| BuddyAllocator.Buddy.GrowPool | source/alloc/pool.c:13-35 | growing the pool between operations is an allocation of one block of order 8, which becomes the pool's; it succeeds exactly if such a block and the structs to cut it are there, and adds 2048 structs; without the structs the block is cut in vain, as in kmalloc |
| BuddyAllocator.InitBuddyAllocator | source/alloc/buddy.c:402-449 | the heap is the top-order blocks between the rounded limits, canonical, with just the pool's memory live and all other top-order blocks free; the number of free structs is exact; it fails exactly if no top-order block fits |
| HeapSupply.AllocationBytes | source/alloc/buddy.c:302-331 | an allocation takes exactly the bytes of its order from the free bytes |
| HeapSupply.AllocationCredit | source/alloc/buddy.c:259-299 | an allocation pays for its splits with the orders it fills: with two structs for each order of which no block is free, two more for each allocation suffice |
| HeapSupply.ReleaseCredit | source/alloc/buddy.c:186-220 | a release brings back at least as many structs as the orders of which it takes the last free block need |
| HeapSupply.AllocationFits | source/alloc/buddy.c:363-399 | no allocation makes a larger order free |
| HeapSupply.OrderStaysFree | source/alloc/vmalloc.c:60 | a record of the least order leaves a block of order k free, if there was one and more free bytes than its own |
| HeapSupply.NextIsNoLarger | source/alloc/vmalloc.c:51-54 | after a piece was taken, no later round can take a larger one, even when the structs have run out |
| HeapSupply.RoundKeepsSupply | source/alloc/vmalloc.c:51-90 | a heap that supplies a request supplies the rest of it after a round |
| HeapSupply.StockSupplies | source/alloc/vmalloc.c:50-93 | a stock of one top-order block, 1024 bytes and six structs for each piece supplies the request |
| HeapCounts.ShortIs | source/alloc/buddy.c:259-299 | whether the structs suffice to cut a block follows from the numbers of free blocks |
| HeapCounts.CutCounts | source/alloc/buddy.c:259-299 | cutting a block down takes one from the number of its order, adds one to that of each order it passes and two to that of the last |
| HeapCounts.KmallocCounts | source/alloc/buddy.c:302-331 | success of kmalloc and the numbers it leaves, even after a cut in vain, are the same for all heaps with the same numbers |
| HeapCounts.LargestCounts | source/alloc/buddy.c:363-399 | likewise the order that kmalloc_largest_available takes, if any |
| HeapCalls.Serve | source/alloc/buddy.c:302-353 | each call is one step of the forest: an allocation with structs for its splits gives a new live block of its order exactly if one fits, a release takes away the live block at the address, if there is one; beyond the structs for missing orders an allocation costs at most two, a release none |
| HeapCalls.RunProgram | source/alloc/buddy.c:151-353 | a program that gives back its allocations at most once, with growth of the pool in between, makes a run of the forest, to its end if there are two structs for each allocation and missing order and 26 more; each result is the start of its block, the live blocks are those from before and those not given back, the pool has its old blocks and those of the growth steps, and once everything is given back, in any order, forest and structs are those from before |
| MemTest.CreateAndFree | source/monoterm/memtest.c:7-49 | after allocating any number of blocks and freeing them the same blocks are live as before, even if allocations failed; a canonical forest comes back, with its structs, exactly if no allocation cut a block in vain, which the numbers of free blocks and structs before the test decide; two structs for each allocation and missing order suffice |
| MemTest.ForestStaysCut | source/alloc/buddy.c:259-299 | wherever two or more structs do not suffice for the splits, the failed allocation leaves the same live blocks in a different forest, which is not canonical, and the request runs short again |
| MemTest.ReleaseLeavesCut | source/alloc/buddy.c:186-220 | releasing a live block does not join two free halves left behind elsewhere |
| Radix.LeafUnique | source/memory/pagetable.c:100-117 | an address passes through at most one leaf |
| Radix.SameLeavesSameTables | source/memory/pagetable.c:180-201 | without empty tables, which tables exist follows from the leaves |
| Radix.MaximalUnique | source/memory/pagetable.c:133-168 | the largest aligned blocks of an interval do not overlap |
| Radix.MaximalCovers | source/memory/pagetable.c:133-168 | the largest aligned blocks of a page-aligned interval leave no gap |
| Radix.ChosenIsMaximal | source/memory/pagetable.c:135-143 | the least level that is aligned and fits gives a largest aligned block of the interval |
| Radix.TablesAreAtEdges | source/memory/pagetable.c:146-162 | tables are needed only on the way to the two ends of an interval, so at most six are made |
| Radix.LeafIsLinear | source/memory/pagetable.c:106-109 | putting the offset bits into the output address translates a whole leaf linearly exactly if that address is aligned to the leaf |
| Radix.OverlayElsewhere | source/memory/pagetable.c:127-171 | addresses outside a mapped interval translate as before |
| Radix.OverlayTranslates | source/memory/pagetable.c:75-171 | every address of the interval translates to pa plus its distance from va exactly if pa and va agree modulo every block size used |
| Radix.PageAlignedIsNotEnough | source/memory/pagetable.c:137-143 | an interval of 2 MiB and a page-aligned target for which the result is not linear |
| PageTables.DescriptorDecodes | source/memory/pagetable.c:13-39 | a descriptor reads back as the empty, leaf or table entry it was made for, with its address |
| PageTables.TiedAfterOverwrite | source/memory/pagetable.c:75-90 | writing a leaf descriptor over any entry makes the memory hold the tree with just this leaf there, once the pages of the tables below are set aside |
| PageTables.TiedAfterTable | source/memory/pagetable.c:59-65 | hanging in a zeroed page adds exactly one empty table |
| PageTables.TiedAfterDrop | source/memory/pagetable.c:193-195 | zeroing the entry of an empty table and giving its page back removes exactly that table |
| PageTables.ConflictOrOverwrite | source/memory/pagetable.c:147-152 | an aligned interval is unmapped exactly if the conflict check finds nothing and no leaf lies at or below a written block |
| PageTables.ConflictMissesSmallerLeaf | source/memory/pagetable.c:147-165 | a tree and an interval where the check finds no conflict although part of the interval is mapped |
| PageTables.UnmapUndoesMap | source/memory/pagetable.c:127-247 | mapping an unmapped interval and taking the leaves of the interval away gives the tree from before |
| PageTables.TiedUnique | source/memory/pagetable.c:180-201 | the pages and their contents are a function of the tree |
| PageTables.PageTable.VirtualToPhysical | source/memory/pagetable.c:100-117 | the walk returns the translation of the low 48 bits of the address, 0 where they are unmapped; higher bits do not count |
| PageTables.PageTable.Alignment | source/memory/pagetable.c:255-271 | the least level whose block can begin at the address, or -1 exactly for addresses inside a page |
| PageTables.PageTable.BlockLevel | source/memory/pagetable.c:135-143 | the largest block that can begin here and ends in the interval |
| PageTables.PageTable.MapBlock | source/memory/pagetable.c:144-165 | exactly a leaf above the block stops it, changing nothing; otherwise the leaf replaces what was at or below the block, tables are added on its path only, and just the pages of the tables below are lost |
| PageTables.ProgressStep | source/memory/pagetable.c:132-168 | writing the next block takes the tree from the interval written so far to the interval with this block |
| PageTables.PageTable.MapAddress | source/memory/pagetable.c:127-171 | given pages for the missing tables it succeeds exactly for aligned intervals without a leaf above a written block; then the interval is overlaid with its largest blocks, all other leaves stay, the pages lost are exactly those of the tables in the interval, and one page is taken for each new table; a conflict leaves just the blocks before it written; each word written is the output address with the access flag, user access and the kind of entry |
| PageTables.SixPages | source/memory/pagetable.c:146-162 | six pages suffice for any interval |
| PageTables.PageTable.PruneIfEmpty | source/memory/pagetable.c:180-201 | an empty table leaves the tree and its page is given back; any other stays; the "corrupted" exit is not reached |
| PageTables.PageTable.UnmapBlock | source/memory/pagetable.c:217-243 | the leaf of the address is removed and no table is left empty; without a leaf nothing changes |
| PageTables.PageTable.UnmapAddress | source/memory/pagetable.c:210-247 | exactly the leaves of the interval are removed, no table is left empty, and no page is added |
| PageTables.RemovedElsewhere | source/memory/pagetable.c:210-247 | taking away an interval that was mapped as a unit leaves it unmapped, and all other addresses mapped to the same places |
| PageTables.PageTable.MapThenUnmap | source/memory/pagetable.c:127-247 | map and unmap of an unmapped interval give back the tree, the contents of every table page, and the set of pages in use |
| Regions.ComposedUnmapped | source/memory/address_space.c:50-63 | a region apart from the mapped ones is unmapped |
| Regions.ComposedWhole | source/memory/address_space.c:129-137 | a mapped region is mapped by its own leaves |
| Regions.ComposedMinus | source/memory/address_space.c:129-141 | removing one region's leaves leaves exactly the other regions on the kernel's tree |
| Regions.ComposedNone | source/process/process.c:147-157 | with all regions gone the tree is the kernel's own, table by table |
| Regions.OnlyBlocksInside | source/process/process.c:160-170 | every leaf that lies in a mapped region is one of the blocks of this region |
| Regions.ComposedTranslates | source/process/process.c:160-170 | inside a region the translation is linear exactly if its addresses agree modulo every block size used |
| Regions.ComposedTranslation | source/process/process.c:237-257 | the translation depends on the kernel's tree and the mapped regions, not on how they came to be mapped |
| AddressSpaces.OverlapIsSharedAddress | source/memory/address_space.c:18-35 | for active, non-empty regions the overlap test is exactly a shared address; one that is not active overlaps none |
| AddressSpaces.OverlapIsMissed | source/memory/address_space.c:45-65 | a region over a mapped one that the overlap test would find, were the new mapping active, and that nothing else finds |
| AddressSpaces.InsideIsTranslated | source/memory/address_space.c:247-256 | an address of one of several regions that are apart is translated by its region, except that the first byte gives 0 |
| AddressSpaces.NothingInside | source/memory/address_space.c:247-256 | an address inside no region gives 0 |
| AddressSpaces.AddressSpace.MapMemoryRegion | source/memory/address_space.c:45-65 | it succeeds exactly for an inactive, aligned mapping with no leaf above a block of its region; then the region is mapped and the mapping active; after a conflict the blocks before it are mapped |
| AddressSpaces.AddressSpace.UnmapMemoryRegion | source/memory/address_space.c:129-141 | an active mapping's leaves are removed and it becomes inactive; an inactive one changes nothing |
| AddressSpaces.AddressSpace.CreateMemoryRegion | source/memory/address_space.c:77-99 | an inactive mapping is added at the head of the list, or null and no change when its record cannot be allocated |
| AddressSpaces.AddressSpace.CreateMemoryRegionVirt | source/memory/address_space.c:111-119 | the new mapping leads where the page table takes the kernel address; none is made if that is unmapped or the record cannot be allocated |
| AddressSpaces.AddressSpace.Unlink | source/memory/address_space.c:154-162 | the mapping leaves the list, whose links stay right |
| AddressSpaces.AddressSpace.UnmapAndRemoveMemoryRegion | source/memory/address_space.c:151-166 | the mapping is unmapped and leaves the list, or both stay on failure |
| AddressSpaces.AddressSpace.VirtualToPhysical | source/memory/address_space.c:247-256 | the first region with the address strictly inside translates it |
| AddressSpaces.AddressSpace.Kernel | source/memory/address_space.c:197-235 | the kernel's address space lists the identity mapping and the mapping of the memory, both active |
| Processes.Process.RemoveMappings | source/process/process.c:147-157 | the tree goes back to the kernel's own and all mappings are inactive; the panic is not reached |
| Processes.Process.RestoreMappings | source/process/process.c:160-170 | all mappings are put on the kernel's tree and are active; the panic is not reached |
| Processes.Kernel.AllocateProcess | source/process/process.c:27-67 | a new process with the next pid heads the list, without mappings, and the kernel invariant is kept; when an allocation fails nothing changes |
| Processes.Kernel.CreateMapping | source/process/process.c:282-289 | giving a process that is not running another loadable mapping keeps the kernel invariant |
| Processes.Kernel.SwitchToProcess | source/process/process.c:237-257 | afterwards exactly the given process runs, exactly its mappings are active, and the shared table is the kernel's tree with its mappings |
| Processes.Kernel.Run | source/process/process.c:237-257 | every schedule of switches keeps that, and coming back to a process brings back its whole translation; a process that is switched away from ends in the state given for that switch |
| Processes.Kernel.RunningSeesItsMappings | source/process/process.c:237-257 | the running process sees a mapping linearly exactly if its addresses agree modulo every block size used |
| Processes.Kernel.OthersAreHidden | source/process/process.c:237-257 | addresses mapped only for another process are not mapped |
| Vmalloc.TotalIsMultiple | source/alloc/vmalloc.c:65 | chunks of at least an order fill a multiple of that order's size |
| Vmalloc.ChunkIsCongruent | source/alloc/vmalloc.c:65-76 | a chunk aligned to its size at both addresses is mapped by blocks for which they agree |
| Vmalloc.InitialHeapInMemory | source/alloc/buddy.c:402-449 | the heap set up at start lies inside the memory the kernel maps |
| Vmalloc.TakeChunk | source/alloc/vmalloc.c:52-63 | the chunk is a new live block of at most the order of the rest; with structs for it and two records the round succeeds exactly for more than 512 bytes, a free block of at least order 1 and the free bytes, and takes the largest order that can be had; with any structs, success, order and the numbers of free blocks left are those of the round on numbers; no more than one top-order block, 1024 bytes and six structs are gone from any stock |
| Vmalloc.MapChunk | source/alloc/vmalloc.c:65-90 | the chunk is mapped right behind the others, exactly if it is at least a page; then an active mapping for it heads the list of the kernel's address space, and otherwise the list is as before |
| Vmalloc.ChunksAreFound | source/alloc/vmalloc.c:68 | the lookup in the kernel's list leads from every byte of a chunk but its first to the chunk |
| Vmalloc.Reallocate | source/alloc/vmalloc.c:50-93 | however far it gets, chunk orders never increase, the window translates to the chunks in order, nothing else changes and no live block is lost; without the page-align flag success needs more than 2048 bytes for the last chunk, and with supplies for the whole request exactly that decides; on every heap, fragmented or short of structs, success, the orders of the chunks and the numbers left are those of the request on numbers; the mappings of the chunks, all active, stand newest first in front of the kernel's list |
| Vmalloc.FragmentsServe | source/alloc/vmalloc.c:50-93 | 12 KiB are served from free blocks of 8 and 4 KiB and four of the least order, without any structs |
| Vmalloc.ThousandBytesFail | source/fs/fat32.c:297 | a request of 1000 bytes, or of 4 MiB and 1000 bytes, does not meet the condition without the page-align flag |
| Vmalloc.WindowTablesSize | source/memory/pagetable.c:146-162 | a window needs at most three tables for each 2 MiB |
| Vmalloc.SlotWindow | source/alloc/vmalloc.c:21-26 | the windows of the slots are aligned, disjoint and above the kernel's mapping |
| Vmalloc.GetFreeVaddr | source/alloc/vmalloc.c:36-47 | the first free slot is taken and only its bit set; 0 exactly if there is none |
| Vmalloc.Vmalloc | source/alloc/vmalloc.c:96-121 | the window returned was unmapped and now translates to live blocks taken for it; one slot is taken, even when no window is returned, and only its window translates differently; no live block is lost, and how much of a stock is gone is bounded; with supplies, a window is returned exactly if a slot is free and the request is page-aligned or its last piece is above 2048 bytes; on every heap success and the orders of the chunks follow from a free slot and the numbers of free blocks and structs; the window is that of the first free slot, from 0xB00000000000 on, and the mappings of its chunks head the kernel's list |
| Vmalloc.OtherWindows | source/alloc/vmalloc.c:96-121 | after any call the windows of other slots in use translate as before |
| Boot.BootIsTree | source/memory/virtual_memory.c:103-126 | the tables set up at start form a tree without empty tables |
| Boot.BootTranslates | source/memory/virtual_memory.c:103-126 | each of the first 2^30 addresses translates to itself, and with the kernel offset added to itself too |
| Boot.BootMapsNothingElse | source/memory/virtual_memory.c:103-126 | no other address is mapped |
| Boot.PageTableInitialize | source/memory/virtual_memory.c:103-126 | whatever the lower tables held, the loops leave exactly the boot tree in memory: every word is given, without user access |
| Boot.KernelMapIsLeft | source/kernel.c:78-81 | without the identity mapping the kernel's memory is mapped as before and nothing else is |
| Boot.StartSupplies | source/alloc/buddy.c:402-449 | a heap with only the pool's block live supplies every request of fewer pieces than it has top-order blocks |
| Boot.StartUp | source/kernel.c:64-81 | from the boot tables to the end of the identity mapping: the page table is valid, everything vmalloc needs holds, all slots and pages are free, and the stock of top-order blocks, bytes and structs is stated |
| EntryArgs.StringsApart | source/process/process.c:94-100 | the strings lie one after the other without overlap |
| EntryArgs.WriteImage | source/process/process.c:108-121 | argc, pointers and strings are in place, and no byte outside the image changes |
| EntryArgs.ReadyIsSeen | source/process/process.c:108-126 | word 0 reads as argc and word i + 1 as a user address where argument i with its NUL can be read |
| EntryArgs.StackIsTranslated | source/process/process.c:106 | the new stack pointer is translated to its place in the stack's memory exactly if it is not the first byte of the stack (or the stack lies at address 0) |
| EntryArgs.ProcessEntryPointArgs | source/process/process.c:88-128 | for a new process the stack pointer moves down by the aligned image size, stays aligned to 16 if it was, and the image goes where the address space takes it; the image has the words and strings and less than 16 bytes more; if the stack is larger than the image, main finds argc and argv; otherwise nothing changes |
| DeviceTree.LoadDeviceTreeNode | source/dev/device_tree.c:128-197 | the node filled in place and the returned position are those of the recursive parser |
| DeviceTree.RoundTrip | source/dev/device_tree.c:128-197 | parsing the token stream of any node, with NOPs anywhere between its items, builds its tree and ends at its own end token |
| DeviceTree.OnlyItsTokens | source/dev/device_tree.c:128-197 | the result does not depend on anything around the node's own tokens |
| DeviceTree.ListsAreReversed | source/dev/device_tree.c:153-184 | the tree has the node's name, and its property and child lists are those of the stream backwards |
| DeviceTree.SmallTree | source/dev/device_tree.c:128-197 | a blob of ten words, given in bytes, parses to a root with one property and one child |
| Fat32.CopiedOverAt | source/string/string.c:125-136 | the copy takes over characters up to the first NUL and changes nothing outside its range |
| Fat32.ParseDirectoryEntry | source/fs/fat32.c:146-226 | for any row, return code, name buffer, type, cluster and size are as the row says, and no write is outside the buffer; return code, type, cluster and size are given by the bytes of the row |
| Fat32.WriteShortName | source/fs/fat32.c:206-222 | the 8.3 name with its dot and NUL is at the start of the buffer and the rest is unchanged |
| Fat32.RowInPlace | source/fs/fat32.c:151-189 | a row in order puts its thirteen characters in front of the rest of the name |
| Fat32.LongNameRoundTrip | source/fs/fat32.c:146-226 | the rows of any name of 1 to 234 characters and a short entry leave the name with its NUL, unprintable codes as question marks; plain ASCII names exactly; the rows are given byte by byte |
| Fat32.ReadEntry | source/fs/fat32.c:244-255 | feeding the rows to the parser gives name, type, cluster and size, the numbers by their bytes, whatever the buffer held |
| Numbers.DigitsHaveValue | source/string/string.c:23-43 | the digits of a number have its value |
| Numbers.DigitsAreUnique | source/string/string.c:63-79 | they are the only digits with that value and no leading zero |
| Numbers.DigitCount | source/string/string.c:23-29 | a number has at most k digits exactly if it is below ten to the k |
| Numbers.DigitChar | source/string/string.c:27 | the digits are the characters 0 to 9 in order |
| Numbers.Ltos | source/string/string.c:6-50 | it fails exactly if there are more digits than room, and otherwise leaves sign, digits and NUL; a failure writes just one NUL |
| Numbers.Ultos | source/string/string.c:53-85 | likewise, and with 21 bytes it prints every 64-bit number |
| Numbers.Itos | source/string/string.c:88-90 | the decimal text of an int, or failure for lack of room |
| Numbers.ValueFront | source/string/string.c:160-164 | a digit further left counts with the power of ten of the digits behind it |
| Numbers.Atoi | source/string/string.c:138-188 | it accepts exactly digits and dots with at most one sign in front, and gives their value |
| Numbers.ItosThenAtoi | source/string/string.c:88-188 | every number of up to nine digits is read back from its printed text |

## Left out

- Structs and table pages are rows of maps named by their address, not Dafny objects; that two fields of one struct could
  lie at the same address is therefore not modelled. In particular the pool's chain word is kept apart from the first
  field of a struct in use, which has the same address.
- BuddyAllocator.Buddy.SplitBlock: a request for pool growth while a split is running is answered with null, because in
  the code it re-enters the allocator with the block still on its free list; growth is the separate step `GrowPool`.
- BuddyAllocator.Buddy.AllocNewBlock: the same; only objects that are in the pool already are handed out.
- BuddyAllocator.Buddy.Kmalloc: sizes above 2^30 are not modelled, because there the code's int arithmetic overflows;
  zeroing of the memory is not modelled either.
- BuddyAllocator.Buddy.TryFree: the pool's own memory is excluded, because nothing in the code stops a caller from freeing it.
- BuddyAllocator.InitBuddyAllocator: the limits are not below the kernel's address offset; the printing of limits is left out.
- PoolAllocator.Pool.UsingMemory: sizes of 0 and regions smaller than one object are excluded (division by zero, and a loop
  over a negative count); the 32-bit overflow of the counters is not modelled. `pool_create_pool`, which is not used, is left out.
- PageTables.PageTable.MapAddress: pages for tables come from a set of pages of their own, not from the buddy heap, and
  are zeroed when taken; there must be one for each missing table, because the code writes through a null page
  otherwise. Addresses stay below 2^48.
- Boot.StartUp: the allocations of the kernel's own records and the UART's mapping are left out; all table pages count as
  pages of their own, so pruning the identity mapping's static tables just drops them.
- PageTables.PageTable.UnmapAddress: only intervals mapped as a unit; for others the code removes leaves that reach outside.
- AddressSpaces.AddressSpace.MapMemoryRegion: the failure paths free the mapping while it is still in the list; the model
  reports the failure and leaves the mapping alone.
- AddressSpaces.AddressSpace.Kernel: the exits for failed allocations of its records.
- Processes.Kernel.CreateMapping: only for a process that is not running and a region apart from its others and from the
  kernel's mappings, because the code checks none of this; the mapping's record can always be allocated.
- Processes.Kernel.SwitchToProcess: the thread context switch is a no-op on this data. The mappings of each process are
  apart from each other and from the kernel's, and its pages suffice; the code has no check for either.
- Vmalloc.Reallocate: only mappings that have no memory yet; a mapping that could not be put in place leaves the kernel's
  list, as in the code, but the frees of the failure paths are not modelled (a mapping is freed more than once), and the
  two records of a chunk are allocated before the mapping is made. Pages for the tables
  that are missing are a precondition, as for `MapAddress`.
- Vmalloc.Vmalloc: on failure the chunks taken stay allocated and the slot stays taken, as in the code; the record is not freed.
  `vmalloc_free`, which leaves the mappings in place, is left out.
- EntryArgs.ProcessEntryPointArgs: images of 4 GiB or more (the code's length wraps), below address 0, or whose place is
  outside of physical memory are excluded.
- DeviceTree.LoadDeviceTreeNode: running out of memory is not modelled; bytes behind the end of the blob, and
  of the strings block, read as 0. Child
  nodes are stored as the value they have when they are put into the list. The header and the reservation block are left out.
- Fat32.ReadEntry: the cluster loader and the directory loop around the parser are left out.
- Numbers.Itos: buffers of fewer than two bytes are excluded.
- Numbers.Ltos: the least 64-bit number (it cannot be negated) and buffers of fewer than two bytes are excluded.
- Numbers.Atoi: more than nine digits (int overflow) and a space before the sign (the loop does not end) are excluded.
- `destroy_process`, `sbrk` and the scheduler's search for the next process: they leave mappings behind, grow from the used
  size, and read a destroyed process.
- Caches, TLB, system registers, hardware drivers, the terminal and all printing.
