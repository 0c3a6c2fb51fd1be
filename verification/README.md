# Proofs about the caos kernel's memory management, locking, MP tables and console

The project models five parts of the caos kernel in Dafny and proves what they promise.

**Memory management** (`src/page.c`, `src/memory.c`, `src/page_alloc.c`, `src/slab.c`,
`src/include/list.h`). Each entity the kernel updates in place is a class: `ListHead.LinkTable` (the
circular intrusive lists), `Paging.BootMemory` (the bump allocator), `PageAlloc.Zone` (page
descriptors and the free count), `SlabAllocator.Allocator` (cache table, slab headers, memory, list
links). Every method is proved against a function of the old state; those functions are the
specification (`PageAlloc`, `SlabState`), and the invariants, run theorems and inverses are lemmas
about them. The layers:

- `ListHead`: which operations keep a circle a circle, and what they do to its order.
- `PageAlloc`, `PageLedger`: the skip-ahead scan equals the naive search; over every run, blocks do
  not overlap and no page is lost.
- `Paging`: the tables that `paging_init` leaves in memory, read by the processor's four-level walk,
  translate every address as intended.
- `MemoryInit`, `SlabInit`: booting ends in a state in which the invariants hold.
- `SlabGeometry`, `FreeList`, `SlabState`, `SlabInvariant`, `SlabSafety`, `SlabRuns`: slab layout, the
  free list of one slab, every operation on the whole state, the invariant, what one call does to live
  objects, and the guarantee over every run.

**Spinlock** (`src/spinlock.c`): a step system for any number of CPUs, one memory access a step.
**MP configuration table** (`src/mp_spec.c`; section 4 of the Intel MultiProcessor Specification,
version 1.4): the walk over bytes is a fold over the encoded entries.
**Console** (`src/screen.c`, `src/printf.c`): the 25 rows on the screen show the end of an unbounded
tape; printed numbers read back.

`Bits` holds word arithmetic; C's unsigned division is `Quot` and `Rem`.

## Where the code does less than intended

The model keeps the code as it is. Each point names the members that say exactly when it matters.

- The page scan never compares a run's end with the zone's (`src/page_alloc.c:88-94`).
  `PageLedger.BlockEscapesZone` and `PageLedger.StaysInsideIff` say exactly when a block sticks out of the
  zone; the ledger and the slab allocator's invariant survive a step exactly when it does not
  (`PageLedger.RunKeepsLedger`, `SlabInvariant.GrowKeepsInv`, `SlabSafety.KmallocGains`). A busy word behind
  the descriptor table would rule it out (`PageLedger.SentinelNeverEscapes`, `SlabRuns.PoliteRunsSuffice`),
  but boot leaves cleared memory there, nothing is asked of it, and the escape can be reached
  (`MemoryInit.EscapeAfterBoot`).
- A zone is refused when it has no more free pages than asked for (`src/page_alloc.c:62`,
  `PageAlloc.AllocFromZones`).
- `caos_kmalloc` never gives up: the retry limit cannot be reached, and when no cache can serve, the
  index runs into unused table entries (`src/slab.c:503-506`). The model calls that `Fault`;
  `SlabSafety.KmallocOutcome` says exactly when it happens, `SlabInit.ExhaustionFaults` gives a state.
- A larger cache may be chosen whose objects are smaller, unless the table's sizes ascend
  (`SlabSafety.FallbackFitsIffAscending`).
- `caos_kfree` checks neither that the object is in use nor that the address lies in an object
  (`SlabSafety.KfreeSoundIff`, `FreeList.PutBackSoundIffLive`).
- `kmem_cache_create` accepts every alignment. For a power of two the objects end inside the slab's pages
  exactly when the room that objects leave over holds the rounding (`SlabGeometry.GeometryFits`); and of
  all alignments, short of word wrap, only 0 puts objects on the header
  (`SlabGeometry.OnlyZeroHitsHeader`).
- `paging_init` leaves the last megabyte of an odd size, and the second gigabyte, without a mapping
  (`Paging.MapsAllMemoryIff`), and for odd sizes leaves stray entries behind the device window
  (`Paging.SurplusWalk`). `Paging.TranslationIff` says exactly when all is as intended.
- `spin_is_locked` tests the bit that means unlocked: a waiter leaves its loop only while the lock is
  held, and can wait for ever in front of a free lock (`Spinlock.SpinLeavesIffHeld`,
  `Spinlock.StrandedWaiter`). Exclusion does not depend on it.
- `preempt_count` is exact exactly when, at every store of an update, the counter still has the value
  that was read for it (`Spinlock.ExactIffNoStaleStore`, `Spinlock.LostUpdate`).
- The MP walk does not end on an entry of unknown type (`MpSpec.UnknownTypeIsStuck`), runs past the
  table's length when the last entry does (`MpSpec.WalkIsParse`), halts at the
  table's last interrupt source (`MpSpec.InterruptTable`), and gives index 0 to the bootstrap processor
  wherever it stands (`MpSpec.CpuTablesAfterWalk`).
- -2^63 prints as a lone minus sign (`Printf.DecimalReadsBack`). A backspace at cursor 0 leaves the
  screen (`Screen.Console.DelChar`).
- The free count of `memory_init` is right only because page 0 is busy: the walk skips the list head
  (`MemoryInit.BuildZone`).

## Model

| member | source | states |
|---|---|---|
| SlabRuns.HeldMemoryIsDisjoint | src/slab.c:313-594 | From any sound start, whatever lies behind the descriptor table: in every state reached by any admissible run of kmalloc, kfree, grow, shrink, cache creation, stores into held objects and page traffic of others: the bytes asked for at two held addresses do not overlap, lie off every slab's header and index array, off the cache table's own pages and the pages reserved at boot, and lie inside a block of pages owned by the object's slab; headers and index arrays lie off the cache table; freeing a held address releases exactly that address |
| SlabRuns.RunKeepsSound | src/slab.c:430-594 | The allocator's invariant (with the cache table's pages an outstanding block of its own), ascending table sizes, and the correspondence between held addresses and live objects (each large enough for its request) survive every such run |
| SlabRuns.PoliteRunsSuffice | src/page_alloc.c:76-94 | If the word behind the descriptor table reads as busy, a run is admissible as soon as callers keep to their part |
| SlabSafety.ObjectsApart | src/slab.c:510-510 | Two different objects, live or free, of the same or different slabs and caches, share no byte |
| SlabSafety.ObjectClearOfMetadata | src/slab.c:336-359 | Every object of a slab, live or free, lies in its slab's pages and off the header and index array of every slab; objects, headers and index arrays lie off the cache table and the pages reserved at boot |
| SlabInvariant.SlabIsClear | src/slab.c:119-136 | A slab's pages are none of the cache table's and none reserved at boot |
| SlabSafety.RetryLoopIsSearch | src/slab.c:464-507 | The grow-and-retry loop equals a plain search: caches in table order, one new slab each, failed attempts change nothing, the retry limit is never hit |
| SlabSafety.KmallocOutcome | src/slab.c:442-541 | NULL exactly when no used cache is large enough; Fault (a walk off the used table) exactly when one is but none from there on can serve; otherwise an object of the first that can |
| SlabSafety.KmallocTakesFirstFree | src/slab.c:482-515 | In terms of live objects: if the answering cache has a slab with an object not in use, the first such slab gives one of its unused objects, and zone, lists and memory are unchanged |
| SlabSafety.KmallocAddsSlab | src/slab.c:491-515 | If all its slabs are full it gets one more, in front of the others, and the answer is its first object |
| SlabSafety.KmallocFaultIff | src/slab.c:464-507 | Fault happens exactly when, from the first fitting cache on, every object of every slab of every used cache is live and no cache gets pages |
| SlabSafety.KmallocNullIff | src/slab.c:445-459 | NULL is the answer exactly when every used cache is too small |
| SlabSafety.CreateAnswer | src/slab.c:186-215 | Cache creation is refused exactly without a name, for sizes outside 8 to 2048, for a name that a used cache has, or with no entry left; otherwise it takes the lowest unused entry |
| SlabSafety.CreateEffect | src/slab.c:179-300 | A refused creation changes nothing; an accepted one writes one entry with name, flags and the size rounded up to a multiple of 8, and an empty list |
| SlabRuns.NamesStayDifferent | src/slab.c:199-211 | Over every run the names of used caches stay pairwise different |
| SlabSafety.GrowPages | src/slab.c:50-72 | Grow's pages: count 1, the flags asked for with PG_slab, the slab's address; no other descriptor changes |
| SlabSafety.GrowHeader | src/slab.c:313-367 | Grow's slab: first on its list, nothing in use, array linking every object to the next and ending in 0xFFFF; nothing else changes |
| SlabSafety.FallbackFitsIffAscending | src/slab.c:445-504 | Every cache the search can fall back to is large enough, for all sizes, exactly when the table's sizes ascend |
| SlabSafety.KmallocGains | src/slab.c:430-541 | Failure changes nothing; success keeps the invariant exactly when the pages of a slab it may have to add lie inside the zone, and then makes exactly one object live that was not, in a cache at or behind the first fitting one |
| SlabSafety.LiveObjectLeadsHome | src/slab.c:563-589 | Any address inside a live object leads, through its page's descriptor and the division, to the issuing slab and the object's index, whichever page of the slab it is in |
| SlabSafety.KfreeLoses | src/slab.c:549-614 | Freeing any address inside a live object makes exactly that object free and keeps the invariant |
| SlabSafety.KfreeSoundIff | src/slab.c:565-594 | For every address of the zone: the state after caos_kfree is sound exactly when the address is rejected by its checks or its division gives the index of a live object; a second free or a stray address breaks it |
| SlabSafety.KfreeIgnoresIff | src/slab.c:563-585 | caos_kfree changes nothing exactly for addresses in pages that no slab owns or in slabs with nothing in use |
| SlabSafety.KfreeUndoesKmalloc | src/slab.c:510-594 | kmalloc from a slab with a free object, then kfree, restores header, index array and everything else exactly |
| SlabSafety.ShrinkDropsFirstIdle | src/slab.c:376-420 | Shrink gives up the first slab with nothing in use and no other: its pages become free and unlinked from the slab, free_pages rises by exactly their number, the other slabs keep their order, nothing else changes |
| SlabSafety.ShrinkSameLive | src/slab.c:376-420 | Shrink keeps every live object, its slab and its address |
| SlabSafety.GrowSameLive | src/slab.c:313-367 | Grow makes no object live and moves none |
| SlabInvariant.GrowKeepsInv | src/slab.c:313-367 | Grow keeps the invariant (page ledger, lists, every slab's free list, page-to-slab pointers) exactly when its pages lie inside the zone |
| SlabInvariant.ShrinkKeepsInv | src/slab.c:376-420 | Shrink keeps it |
| SlabInvariant.CreateKeepsInv | src/slab.c:179-300 | For every alignment, cache creation keeps it exactly when it is refused or the layout fits, and disturbs no slab that is there |
| SlabInvariant.NewCacheOkIff | src/slab.c:225-292 | The new cache is usable exactly when header and index array end before the first object and the last object ends inside the pages |
| SlabInvariant.StoreKeepsInv | src/slab.c:533-533 | Whatever the holder stores inside an object changes no free list, keeps the invariant, and is off the cache table and the reserved pages |
| SlabInvariant.PageAllocKeepsInv | src/page_alloc.c:46-136 | Other users' page allocations never hold a slab's page, and keep it exactly when they stay inside the zone |
| SlabInvariant.PageFreeKeepsInv | src/page_alloc.c:187-250 | A page release by others breaks it exactly when it names the first page of a slab or of the cache table with the block's own order |
| SlabInvariant.ObjectHome | src/slab.c:563-589 | Page descriptor and division recover slab and index from every byte of an object |
| SlabInvariant.GrowIsGrown | src/slab.c:50-72 | Grow either changes nothing or takes a free block, claimable if it lies inside the zone, all of whose pages then point to the new slab |
| FreeList.TestsAgree | src/slab.c:484-484 | `free != BUFCTL_END` and `inuse < num` always agree; a first free index is in range and not live |
| FreeList.FreshIsGood | src/slab.c:344-352 | The array filled by grow is a sound list with every object free |
| FreeList.TakeKeepsGood | src/slab.c:510-515 | Taking drops the chain's first index, which becomes live; the list stays sound |
| FreeList.PutKeepsGood | src/slab.c:588-594 | Putting back a live index makes it the chain's first; the 16-bit store loses nothing |
| FreeList.PutBackSoundIffLive | src/slab.c:582-594 | Putting back an index keeps the list sound exactly when the object was live |
| FreeList.PutUndoesTake | src/slab.c:510-594 | Putting back the index just taken restores the list exactly |
| FreeList.InuseCountsLive | src/slab.c:512-594 | `inuse` is the number of live indices |
| SlabGeometry.GeometryFits | src/slab.c:225-292 | For sizes 8..2048 and all power-of-two alignments from 8: header and index array end before the first object, which is aligned; 9 <= num < BUFCTL_END; order 1..3; and the objects end inside the pages exactly when the room they leave, rounded down to the alignment, holds header and index array |
| SlabGeometry.DivisorFits | src/slab.c:225-292 | An alignment that divides the rounded size always fits |
| SlabGeometry.SmallAlignIsEight | src/slab.c:230-233 | Alignments 1 to 8 mean 8 |
| SlabGeometry.OnlyZeroHitsHeader | src/slab.c:286-292 | For all alignments short of word wrap, power of two or not: the first object lies behind header and index array exactly when the alignment is not 0 |
| SlabGeometry.NonDivisorFits | src/slab.c:225-292 | Size 24 with alignment 16 fits |
| SlabGeometry.ObjectCount | src/slab.c:225-292 | Bounds on the object count for any alignment argument |
| SlabGeometry.OrderIsLeast | src/slab.c:250-262 | The order is the least from 1 on whose pages hold more than the header, ten objects and ten array entries |
| SlabGeometry.CountIsNearlyMost | src/slab.c:264-284 | A slab gets as many objects as fit beside an index array for all that would fit without one, or one less |
| SlabGeometry.RoundUpIsLeastMultiple | src/slab.c:225-235 | The mask expression is the least multiple of a power of two not below its argument |
| SlabGeometry.MisfitExample | src/slab.c:225-292 | Size 8 with alignment 512: the last object ends behind the slab's pages |
| SlabGeometry.AlignZeroHitsHeader | src/slab.c:225-292 | With alignment 0 the first object lies on the header, for every size |
| Bits.Fls64Brackets | src/include/bitops.h:235-240 | fls64 is the number of binary digits |
| Bits.FfzOfLowOnes | src/include/bitops.h:183-193 | The first zero of n low ones is bit n, and setting it gives n + 1 low ones |
| SlabAllocator.Allocator.KmemGetPages | src/slab.c:50-72 | In place: the block of the page allocator with PG_slab and the slab address in every page |
| SlabAllocator.Allocator.KmemFreePages | src/slab.c:76-96 | In place: flags and slab pointers cleared, block released; nothing on a wrong order |
| SlabAllocator.Allocator.KmemCacheGrow | src/slab.c:313-367 | In place with list links: the whole new state and the result are those of the specification; it stays valid exactly when the pages lie inside the zone |
| SlabAllocator.Allocator.KmemCacheShrink | src/slab.c:376-420 | The same for shrink |
| SlabAllocator.Allocator.CaosKmalloc | src/slab.c:430-541 | The same for kmalloc, block inside the zone or not, with the loop's termination by caches left, then retries left |
| SlabAllocator.Allocator.CaosKfree | src/slab.c:549-614 | The same for kfree on any address of the zone; the result is valid exactly when the address is rejected or leads to a live object |
| SlabAllocator.Allocator.KmemCacheCreate | src/slab.c:179-300 | The same for cache creation with every alignment and its error returns; valid exactly when refused or the layout fits |
| SlabAllocator.Allocator.FindFreeSlab | src/slab.c:482-487 | Walking the links finds the first slab whose list is not at its end and whose use count is below `num`, or the head behind them all |
| SlabAllocator.Allocator.InitBufctl | src/slab.c:344-352 | The fill loop builds the fresh index array and nothing else |
| SlabInit.KmemCacheInit | src/slab.c:103-158 | The table is cleared, its two pages recorded and flagged; all eight creations succeed; sizes ascend from 16 to 2048 bytes; nothing is handed out; the state is sound exactly when the two pages lie inside the zone |
| SlabInit.DefaultTable | src/slab.c:138-153 | The eight caches by name and size |
| SlabInit.TableNamesOk | src/slab.c:138-153 | Their names are pairwise different |
| SlabInit.RunsOffBoot | src/page.c:153-176 | In every state a run reaches after boot, held memory and all slab pages are off [0, 0x1000), [0x9F000, 0x200000) and the boot heap, in physical addresses |
| SlabInit.TakeTablePages | src/slab.c:119-136 | The table's pages come from the page allocator and are flagged; nothing else changes |
| SlabInit.BootAllocator | src/slab.c:103-158 | On cleared memory, also behind the descriptor table: mem_map_init, memory_init and kmem_cache_init together succeed and end in a sound state in which pages 1 and 2 are the cache table's outstanding block, and every page that meets BIOS, video memory, kernel or boot heap is busy and reserved |
| SlabInit.ExhaustionFaults | src/slab.c:503-506 | A sound state with the eight caches in which every request up to 2048 bytes ends in Fault and not NULL |
| PageAlloc.Zone.FindRun | src/page_alloc.c:72-136 | The skip-ahead scan finds the lowest run of free pages, as trying every start would, and None exactly when there is none |
| PageAlloc.RunFromIsLowest | src/page_alloc.c:72-94 | The naive search gives the lowest free run or shows there is none |
| PageAlloc.Zone.ClaimRun | src/page_alloc.c:97-121 | Counts, flags, `private` of the head and free_pages after a claim |
| PageAlloc.Zone.FreePages | src/page_alloc.c:187-250 | The state after __free_pages, including its refusals |
| PageAlloc.AllocFromZones | src/page_alloc.c:46-136 | The first zone with more free pages than asked and a run of them serves, for any order; NULL exactly when no zone has both; other zones are unchanged |
| PageAlloc.AllocPages | src/page_alloc.c:23-36 | alloc_pages on the one zone of the node |
| PageLedger.RunSafety | src/page_alloc.c:46-250 | Over every run in which no block leaves the zone: held blocks lie in the zone, off each other and off the reserved pages; a release is accepted exactly for a held block with its order; free + reserved + held pages is the zone's size |
| PageLedger.RunKeepsLedger | src/page_alloc.c:46-250 | Over every run: the ledger, and `private` naming exactly the held blocks, hold at every moment exactly when no allocation picks a block that leaves the zone |
| PageLedger.AllocAnswer | src/page_alloc.c:46-94 | An allocation succeeds exactly for orders up to 5 with more pages free than asked for and a run of free descriptors, and gives the lowest run |
| PageLedger.AllocEffect | src/page_alloc.c:97-121 | The block's pages get count 1 and the flags asked for, the first page the order; nothing else but the free count changes |
| PageLedger.FreeEffect | src/page_alloc.c:209-247 | An accepted release leaves count 0 in the block and -1 in the first page's `private`; nothing else but the free count changes |
| PageLedger.AllocKeepsLedger | src/page_alloc.c:76-121 | An allocation keeps the ledger exactly when its block stays inside the zone |
| PageLedger.StaysInsideIff | src/page_alloc.c:57-94 | A request leaves the zone exactly when it passes the order and free-count tests, no run fits inside, the last page is free, and the free pages before the end and the words behind it add up |
| PageLedger.SentinelNeverEscapes | src/page_alloc.c:76-94 | With a busy word behind the table no run ever picks such a block |
| PageLedger.FreeActsOnHeadsOnly | src/page_alloc.c:195-206 | __free_pages acts exactly on the head of an outstanding block with its order; reserved, inner and free pages and wrong orders change nothing |
| PageLedger.FreeUndoesAlloc | src/page_alloc.c:97-247 | Alloc then free restores all but the flags, so the same request gets the same block, inside the zone or not |
| PageLedger.BlockEscapesZone | src/page_alloc.c:76-94 | The chosen block leaves the zone exactly when no run fits inside, the last page is free, and the free pages before the end and the words behind it add up |
| PageLedger.SentinelKeepsBlockInside | src/page_alloc.c:76-94 | With a busy word behind the table it never does |
| PageLedger.EscapeIsReachable | src/page_alloc.c:76-94 | From any zone in order whose last page is free and whose next word reads as free, some run in which no block has left the zone ends where a request for two pages gets one that does |
| MemoryInit.EscapeAfterBoot | src/page.c:118-176 | The state boot leaves on cleared memory is such a zone |
| ListHead.AddAfterHead | src/include/list.h:63-66 | list_add puts a node first and keeps the circle |
| ListHead.AddBeforeHead | src/include/list.h:76-79 | list_add_tail puts it last |
| ListHead.AddHeadToItself | src/include/list.h:45-79 | Inserting a lone head before itself changes nothing |
| ListHead.UnlinkRemoves | src/include/list.h:89-106 | list_del removes that node and keeps the others' order |
| ListHead.UnlinkUndoesAdd | src/include/list.h:45-106 | list_del after list_add restores every other link |
| ListHead.AddKeepsOtherRing | src/include/list.h:45-66 | Circles without a common node are not disturbed by an insertion |
| ListHead.UnlinkKeepsOtherRing | src/include/list.h:89-106 | Nor by a deletion |
| ListHead.LinkTable.InitListHead | src/include/list.h:33-37 | In place: the node points to itself, nothing else changes |
| ListHead.LinkTable.ListAdd | src/include/list.h:45-66 | In place: the four link writes |
| ListHead.LinkTable.ListAddTail | src/include/list.h:76-79 | In place: the four link writes at the tail |
| ListHead.LinkTable.ListDel | src/include/list.h:89-106 | In place: the neighbours joined, the node poisoned |
| MemoryInit.MemMapInit | src/page.c:139-176 | Every field of every descriptor; count 1 exactly for pages that meet the byte ranges of BIOS, kernel and boot heap; each a lone list node |
| MemoryInit.BuildZone | src/memory.c:66-92 | All pages on one circle in index order; the free count is exact if page 0 is busy and one short if not |
| MemoryInit.BusyIffMeets | src/page.c:153-176 | The busy pages are exactly those that meet the byte ranges [0, 0x1000), [0x9F000, 0x200000) and the boot heap |
| MemoryInit.PageRunsOffBoot | src/page.c:153-176 | No run of allocations and releases in which no block leaves the zone ever hands out a page of these ranges |
| MemoryInit.LinkOnePage | src/memory.c:77-79 | One more page at the tail, including the self-insertion of page 0 |
| MemoryInit.InitialLedger | src/page.c:143-176 | The state after both satisfies the page ledger with nothing handed out |
| Paging.PagingInit | src/page.c:242-346 | Succeeds exactly when there is memory to map and the boot heap suffices; then memory holds the built tables and the boot index has moved by their number |
| Paging.BootMemory.Alloc | src/page.c:81-95 | Fresh consecutive frames, or a halt |
| Paging.UpperTables | src/page.c:273-326 | Every entry of levels 4 and 3 with its attribute bits, so no later write damaged them |
| Paging.NormalLowerTables | src/page.c:292-305 | Every entry of the tables of physical memory, present and writable |
| Paging.DeviceLowerTables | src/page.c:331-346 | Every entry of the tables of the device window, present and uncached |
| Paging.TranslationIsIntended | src/page.c:242-346 | On zeroed boot memory, for even sizes up to 1 GB, the four-level walk maps PAGE_OFFSET + p to p for p below the size, the 20 MB window to 0xFEC00000 upward, and faults for every other 64-bit address |
| Paging.RightsAreIntended | src/page.c:237-346 | By the rights the processor derives from all four levels, memory is writable and cached, the 20 MB window read-only and uncached, and neither is open to user mode |
| Paging.MapsAllMemoryIff | src/page.c:252-305 | Below 2 GB all memory is mapped exactly for even sizes of at most 1 GB |
| Paging.TranslationIff | src/page.c:242-346 | Below 2 GB every 64-bit address translates as intended exactly for even sizes of at most 1 GB |
| Paging.SurplusEntries | src/page.c:302-340 | For odd sizes the surplus level 1 entries stay in the window's level 2 table from entry 10 on |
| Paging.SurplusWalk | src/page.c:302-340 | There the walk takes pages of the last megabyte for level 1 tables |
| Spinlock.MutualExclusion | src/spinlock.c:14-64 | Any number of CPUs, any interleaving, any answers of spin_is_locked: at most one holder, and the lock byte is 0 exactly when there is one |
| Spinlock.ExactIffNoStaleStore | src/include/smp.h:28-38 | Any number of CPUs, any interleaving: preempt_count is at every moment the number of CPUs inside their window exactly when at every store of an update the counter still has the value read for it |
| Spinlock.PositiveWhileHeld | src/spinlock.c:34-64 | Then it is positive while the lock is held |
| Spinlock.HarmlessStep | src/spinlock.c:14-64 | Steps that do not touch the counter may fall between a read and its write |
| Spinlock.CounterIsExact | src/include/smp.h:28-38 | With whole updates preempt_count is the number of CPUs inside their window, and positive while the lock is held |
| Spinlock.LostUpdate | src/include/smp.h:28-32 | Two CPUs that read before either writes lose an update |
| Spinlock.SpinLeavesIffHeld | src/include/spinlock.h:27-27 | With the real test a waiter leaves its loop exactly while the lock is held |
| Spinlock.FreeLockIsNotTaken | src/spinlock.c:43-48 | Alone in front of a free lock a waiter stays |
| Spinlock.StrandedWaiter | src/spinlock.c:34-64 | An interleaving of two CPUs that ends there |
| MpSpec.DecodeEncoded | src/mp_spec.c:355-408 | Decoding an entry's bytes gives the entry |
| MpSpec.WalkIsFold | src/mp_spec.c:349-411 | On any sequence of entries of types 0 to 4 the walk is the fold over them, each once, ending exactly at mpc_length, unless the interrupt table overflows |
| MpSpec.WalkIsParse | src/mp_spec.c:349-411 | On any bytes: the walk is the fold over the entries met; it halts when they fill the interrupt table, turns for ever at an unknown type, and else ends where the last entry ends, at the length or behind it |
| MpSpec.DoneAtLengthIff | src/mp_spec.c:349-411 | The walk ends exactly at mpc_length if and only if the bytes are a sequence of entries that does not fill the interrupt table |
| MpSpec.EncodeDecoded | src/mp_spec.c:355-408 | A decoded entry's bytes are its encoding |
| MpSpec.UnknownTypeIsStuck | src/mp_spec.c:355-408 | An entry of unknown type is never passed |
| MpSpec.CpuTablesAfterWalk | src/mp_spec.c:120-174 | The number of enabled processors cut at NR_CPUS; the map is 2^n - 1 exactly when no accepted processor but the first has the bootstrap flag, and then the APIC table lists them in order |
| MpSpec.InterruptTable | src/mp_spec.c:251-268 | All interrupt sources recorded in order; the halt happens exactly when their number reaches the table's size |
| MpSpec.IoApicTable | src/mp_spec.c:218-239 | The first usable I/O APICs in order, cut at the table's size |
| MpSpec.BusTable | src/mp_spec.c:182-210 | For each bus id the last ISA or PCI entry decides mp_bus_not_pci, the last PCI entry gets as number the start value and the PCI entries before it, the counter rises by the PCI entries, and ids without such an entry keep their values |
| MpSpec.BootAndDisabled | src/mp_spec.c:120-146 | disabled_cpus counts the disabled processors; boot_cpu_id is that of the last enabled one with the bootstrap flag |
| MpSpec.HeaderBytes | src/mp_spec.c:298-349 | The table is refused exactly unless the header's bytes say "PCMP", revision 1 or 4 and a local APIC address; the walk starts at byte 44 with the length of bytes 4 and 5 |
| MpSpec.ReadsTable | src/mp_spec.c:298-411 | A table of whole entries behind a good header is read as the fold over them |
| MpSpec.EntryBytes | src/mp_spec.c:355-408 | Where the fields of an entry lie |
| MpSpec.FloatingPointerBytes | src/mp_spec.c:87-92 | The floating pointer, byte by byte |
| MpSpec.MpTables.MpProcessorInfo | src/mp_spec.c:120-174 | In place: the new globals for one processor entry |
| MpSpec.MpTables.MpBusInfo | src/mp_spec.c:182-210 | In place: the new globals for one bus entry |
| MpSpec.MpTables.MpIoApicInfo | src/mp_spec.c:218-239 | In place: the new globals for one I/O APIC entry |
| MpSpec.MpTables.MpIntSrcInfo | src/mp_spec.c:251-268 | In place: the entry recorded; whether the source halts |
| MpSpec.MpTables.SmpReadMpc | src/mp_spec.c:298-417 | The cursor loop leaves the walk's result and state, or the table is refused |
| MpSpec.SmpScanConfig | src/mp_spec.c:77-113 | The lowest paragraph holding a floating pointer, for any length; none exactly when there is none and the length is whole paragraphs; otherwise the scan never ends |
| Screen.Console.ScrollScreen | src/screen.c:16-33 | The forward copy in place moves the rows up intact and blanks the rest; too many rows change nothing |
| Screen.Console.SetCursor | src/screen.c:72-95 | Scrolls one row exactly at the end of the screen |
| Screen.Console.PutChar | src/printf.c:16-21 | The screen keeps showing the tape when a character is typed |
| Screen.Console.NewLine | src/printf.c:93-100 | The same for a newline |
| Screen.Console.DelChar | src/printf.c:28-38 | The same for a backspace, except at cursor 0 |
| Screen.Console.PutString | src/printf.c:93-108 | The output loop types the string on the tape |
| Screen.TapeIsPaper | src/printf.c:93-108 | Scrolling loses nothing on the tape: its cells are what an endless page would hold |
| Screen.LastRowsShown | src/screen.c:72-84 | Without backspaces the screen is the end of the tape |
| Screen.TypedIsShown | src/printf.c:16-21 | Plain text on the empty screen stands there character for character, grey on black, and the rest is blank |
| Screen.CellShows | src/printf.c:16-21 | A cell has the character in its low byte |
| Screen.NewLineStartsRow | src/printf.c:93-100 | A newline goes over blanks to the start of the next 80-column row |
| Screen.OneRowScrolls | src/screen.c:72-84 | The window moves on by one row exactly when the cursor would get into its 26th |
| Screen.TopIsHighestRow | src/screen.c:72-84 | With backspaces too, the window's top row is 24 above the highest row that the cursor has reached so far, or the first row |
| Screen.BackspaceUndoes | src/printf.c:16-38 | A backspace takes back the character's cell; it takes back everything exactly when the character did not scroll |
| Printf.PrintDecimal | src/printf.c:221-254 | Text and count of print_decimal for every 64-bit value, written through the 32-entry scratch array |
| Printf.DecimalReadsBack | src/printf.c:221-254 | Over all 64-bit values the text denotes the argument exactly when it is not -2^63 |
| Printf.DecimalHasNoLeadingZero | src/printf.c:221-254 | No leading zeros |
| Printf.DecimalFits | src/printf.c:223-246 | At most 19 digits, so the scratch array suffices |
| Printf.PrintHex | src/printf.c:120-160 | Text and count of print_hex for every 64-bit word |
| Printf.HexReadsBack | src/printf.c:120-160 | The text denotes the word, with no leading zeros |
| Printf.DigitChars | src/printf.c:120-160 | The digit characters, 0 to 9 and A to F |
| Printf.Conversions | src/printf.c:186-208 | What %d, %x, %s, %c and any other character print, letter by letter |
| Printf.RenderGoesOn | src/printf.c:182-210 | A conversion is followed by the rest of the format with the rest of the arguments |
| Printf.VsPrintf | src/printf.c:169-212 | The buffer holds the rendered pieces in order and a terminator, and is unchanged behind it |
| Printf.CaosPrintf | src/printf.c:58-111 | The screen shows the tape with the rendered text typed on; the result is the text's length |

## Left out

- SlabRuns.HeldMemoryIsDisjoint: admissible operations take pages inside the zone, create caches whose layout fits and whose sizes ascend, free and store only where they hold, and do not release a slab or the cache table behind the slab allocator's back; the exact conditions behind these are the lemmas named above. Stores are of aligned 16-bit words.
- SlabAllocator.Allocator.CaosKfree: addresses whose page number lies behind the descriptor table read memory that is not modelled.
- SlabSafety.KmallocOutcome: a walk onto an unused table entry ends as Fault; what the garbage links would do is not modelled, and neither is the read of one name behind the table's end, which ends the same way.
- SlabAllocator.Allocator.CaosKmalloc: the words of a block that leaves the zone belong to whatever lies there; that damage is not modelled, only that the state is no longer sound.
- SlabInvariant.NewCacheOkIff: an explicit guard is proved for powers of two (GeometryFits); for other alignments the layout is what the mask expressions give.
- SlabInit.KmemCacheInit: the source does not check the table pages for NULL; the model stops there. The table's entries are kept as an array beside the memory of objects; that no slab and no object reaches the table's pages is proved.
- PageLedger.FreeUndoesAlloc: flags are not restored by the source, so they are excepted.
- PageAlloc.AllocFromZones: the words that a scan may read behind a zone's descriptors have to exist in the model's memory.
- PageLedger.RunSafety: runs in which a block leaves the zone are covered by RunKeepsLedger only, which says that they break the ledger.
- MemoryInit.MemMapInit: the allocation of mem_map and the int overflow of its size are left out, and `slab` pointers are taken as zero from cleared memory, since the source does not set them.
- Paging.PagingInit: CR3, the caches and the TLB are hardware; memory of 2 GB and more writes the level 3 table over itself and is outside the translation lemmas.
- Paging.TranslationIsIntended: memory not cleared before boot would leave garbage in unwritten entries, so it is required to be zero, as the source assumes.
- Spinlock.MutualExclusion: memory is sequentially consistent, fences are not modelled, and the register bytes above the exchanged one are zero, as the source sets them.
- MpSpec.MpTables.SmpReadMpc: starts with an empty interrupt table; the table's checksum is not computed by the source either.
- MpSpec.MpTables.MpProcessorInfo: x86_cpu_to_apicid always equals bios_cpu_apicid and is kept once.
- Screen.Console.SetCursor: the CRT port writes.
- Screen.Console.DelChar: the write in front of the video memory at cursor 0 is reported, not modelled.
- Printf.VsPrintf: formats whose arguments are missing or of the wrong kind, and texts longer than the buffer, are undefined in C and excluded.
- Slab headers are kept in a table by page, apart from the memory that holds index arrays and objects; that the three never overlap is proved from their addresses.
- `__get_free_pages` on a NULL page, `free_pages` (a call of `__free_pages` behind a shift), and the messages printed in error branches.
- `mp_spec_init`'s search order over BIOS areas, and local interrupt entries, which the source only prints.
- Local APIC, I/O APIC, PIC, port I/O, descriptor tables, interrupt stubs and all assembly: hardware effects.
- Keyboard, per-CPU areas, CPUID and `start_kernel`: tables and boot order.
- `src/string.c`: its helpers enter by their meaning (copy, fill, compare).
