# sv6 physical page allocator and debugger helpers, modelled in Dafny

This project models the core of the sv6 kernel's physical memory allocator
(`kernel/kalloc.cc`) and the two helpers of the kernel's debugger script
(`tools/xv6-gdb.py`), and proves properties of the model.

- `phys_map` is the kernel's set of usable physical memory: a sorted list of
  non-overlapping half-open regions `[base, end)`. The model covers `add`,
  `remove`, `remove(map)`, `intersect`, `alloc`, `max_alloc`, `bytes`,
  `bytes_after`, `base` and `max`. Each list is related to the set of
  addresses it covers (`PhysMap.Covers`).
- The boot-time clean-up of the firmware (E820) memory map: add every usable
  entry, remove every other entry, then remove the first MiB.
- `steal_order` is the per-CPU order in which buddy allocators are tried: a
  list of index segments whose first segment is the CPU's local range. The
  model covers `add`, `get_local`, `is_local`, the iterator and `to_stream`.
  For `to_stream` it also defines a reader and proves the round trip.
- The per-CPU hot page cache of the non-load-balanced `kalloc`/`kfree`.
  - Freeing pushes a page; a full cache first flushes its sorted older half
    to the buddies.
  - Allocating pops a page; an empty cache is first refilled from the
    buddies in steal order, and the general loop is the fallback.
  - The buddies are seen from outside only: the address range `contains`
    accepts, and a pool of free pages.
- The arithmetic `initkalloc` uses:
  - cutting a NUMA node into buddies of at most `size_limit` bytes;
  - sharing the node's buddies among its CPUs;
  - the three `add`s that build each CPU's steal order.
- `$percpu(var, [cpu])`: finds the key symbol in the printed type of a
  `static_percpu`, and reads that CPU's replica. The debugger host is a value.
- The `static_vector` pretty-printer: a summary line, and children `[0]` to
  `[size_-1]`.

Modules: `Wrappers` (Option/Result), `Decimal` (number rendering and digit
scanning), `PerCpu`, `StaticVectorPrinter`, `PhysMap`, `MemoryMap`,
`StealOrder`, `StealOrderText`, `HotList`, `BuddyPartition`.

Integers are unbounded. `~0` in `intersect` is `PhysMap.AddrMax`
(2^64 - 1), and `PhysMap.Bounded` says every region ends at or below it.

## Model

| member | source | states |
|---|---|---|
| PerCpu.Invoke | tools/xv6-gdb.py:46-74 | It fails with "Not a static_percpu" exactly when the type tag is missing or does not start with `static_percpu<`. A type name with no key pattern gives the parse error quoting that name. An unknown key gives the key-lookup error. A success is the value stored at the selected CPU's replica. |
| PerCpu.SearchKey | tools/xv6-gdb.py:58-61 | The key is group 1 of the leftmost position where `&([^ ,]+_key),` matches. There is no key exactly when no position matches. |
| PerCpu.MatchFrom | tools/xv6-gdb.py:58 | An attempt at one position succeeds exactly when the pattern matches there, and then returns the matched group. |
| PerCpu.KeyShape | tools/xv6-gdb.py:58 | A found key ends in `_key` and contains no space or comma. |
| PerCpu.ReplicaAddress | tools/xv6-gdb.py:66-74 | The replica of `__percpu_start` itself is the CPU's base, and a variable placed after the anchor lies at or above that base. |
| PerCpu.ReplicaKeepsLayout | tools/xv6-gdb.py:66-74 | Each CPU's copy keeps the prototype's layout: two variables lie as far apart in it as their key symbols do. |
| PerCpu.ReplicasFollowOffsets | tools/xv6-gdb.py:70-74 | One variable's copies for two CPUs lie as far apart as those CPUs' entries in `percpu_offsets`. |
| PerCpu.GuardBeforeLookup | tools/xv6-gdb.py:47-49 | A value that is not a per-CPU cell fails the same way for every host and every CPU argument. |
| PerCpu.DefaultCpu | tools/xv6-gdb.py:51-52 | Omitting the CPU is the same as passing the selected thread's number minus one. |
| PerCpu.ExplicitCpuIgnoresThread | tools/xv6-gdb.py:53-54 | With an explicit CPU, the selected thread does not affect the result. |
| PerCpu.ParseFailureIffNoPattern | tools/xv6-gdb.py:58-61 | For a per-CPU value, the parse error happens exactly when the printed type has no match anywhere. |
| PerCpu.ResolvesToReplica | tools/xv6-gdb.py:62-74 | When key, anchor, CPU entry and replica all exist, the result is the value at base plus key offset. |
| StaticVectorPrinter.Summary | tools/xv6-gdb.py:16-17 | The summary is the type name, then " of length ", then the decimal digits of `size_` with no leading zero, as `%d` prints them. |
| StaticVectorPrinter.Label | tools/xv6-gdb.py:22 | Child i is labelled `[`, the decimal digits of i with no leading zero, `]`. |
| StaticVectorPrinter.Children | tools/xv6-gdb.py:19-23 | Exactly `size_` children; child i carries the label `Label(i)` (canonical decimal, read back as i) and slot i. Reading past the readable slots is an error. |
| StaticVectorPrinter.ChildrenIgnoreSlotsPastSize | tools/xv6-gdb.py:19-23 | Storage past `size_` never affects the children. |
| StaticVectorPrinter.ChildrenValuesArePrefix | tools/xv6-gdb.py:19-23 | The child values, in order, are exactly the first `size_` slots. |
| StaticVectorPrinter.LabelsDistinct | tools/xv6-gdb.py:22 | Different children have different labels. |
| StaticVectorPrinter.EmptyVector | tools/xv6-gdb.py:16-23 | A vector of size 0 has no children, and its summary ends in "length 0". |
| PhysMap.AddSpec | kernel/kalloc.cc:448-467 | `add` keeps the map sorted and non-overlapping. Afterwards it covers exactly the old addresses plus `[base, end)`. |
| PhysMap.AddKeepsSeparated | kernel/kalloc.cc:448-467 | Touching regions are merged, so a map whose regions have gaps between them keeps that property. |
| PhysMap.ClipSpec | kernel/kalloc.cc:473-487 | One pass of the `remove` loop (split, erase, left or right truncate) leaves valid pieces inside the region. They cover the region minus `[base, end)`. |
| PhysMap.RemoveSpec | kernel/kalloc.cc:470-489 | `remove` keeps the map sorted and non-overlapping, and takes away exactly `[base, end)`. |
| PhysMap.ClipReversed | kernel/kalloc.cc:473-487 | With `base > end`, a region that does not reach both below `base` and above `end` matches none of the loop's four cases and stays as it is. |
| PhysMap.RemoveAllSpec | kernel/kalloc.cc:492-496 | Removing another map subtracts exactly the addresses that map covers. |
| PhysMap.IntersectFromSpec | kernel/kalloc.cc:504-510 | From `prevend` on, the loop removes exactly the addresses below `~0` that the other map does not cover. |
| PhysMap.IntersectSpec | kernel/kalloc.cc:499-511 | `intersect` keeps the map valid and leaves exactly the addresses both maps cover; an empty map clears it. |
| PhysMap.BytesIsCoveredSize | kernel/kalloc.cc:563-569 | `bytes()` equals the number of covered addresses. |
| PhysMap.BytesAfterIsCoveredSize | kernel/kalloc.cc:585-596 | `bytes_after(start)` equals the number of covered addresses at or above start. |
| PhysMap.MaxBoundsMap | kernel/kalloc.cc:598-603 | `max()` is the highest region end: no region ends above it, some region ends at it, and an empty map gives 0. Every covered address lies below it. |
| PhysMap.Base | kernel/kalloc.cc:572-582 | The lowest region base: it is some region's base and no base is lower; an empty map gives 0. |
| PhysMap.BaseAsWrittenAgrees | kernel/kalloc.cc:572-582 | When no region starts at address 0, the loop as written gives the same result as `Base`. |
| PhysMap.BaseAsWrittenMissesZero | kernel/kalloc.cc:572-582 | For regions `[0, 0x1000)` and `[0x2000, 0x3000)` the loop as written returns 0x2000; the lowest base is 0. |
| PhysMap.MaxAlloc | kernel/kalloc.cc:553-560 | The error happens exactly when no region holds start. The end address counts as held. Otherwise the result runs from start to the end of the first region that holds start. |
| PhysMap.MaxAllocCovered | kernel/kalloc.cc:553-560 | Every address of the span `max_alloc` reports is covered. |
| PhysMap.AlignUp | kernel/kalloc.cc:536-537 | The rounded address is a multiple of align, at least pa and less than pa + align. |
| PhysMap.Alloc | kernel/kalloc.cc:521-549 | A returned block is a multiple of a non-zero align, starts at or above some region's base, and ends strictly before that region's end. |
| PhysMap.AllocFrom | kernel/kalloc.cc:527-545 | Each step of the loop keeps the same guarantees for the regions from k on. |
| PhysMap.AllocIsFirstFit | kernel/kalloc.cc:527-546 | Once a region is too small, the result is the aligned base of the first later region with room. If there is none, it is the out-of-memory panic. |
| PhysMap.AllocBadStart | kernel/kalloc.cc:544-548 | A non-zero start that no region holds gives the bad-start panic. |
| PhysMap.AllocFromStart | kernel/kalloc.cc:527-542 | From a non-zero start, the first region holding it is tried at the aligned start. After that, the search is first fit. |
| PhysMap.AllocNotBelowStart | kernel/kalloc.cc:518-549 | In a valid map, the block returned is never below start. |
| MemoryMap.AddUsableSpec | kernel/kalloc.cc:628-636 | Adding the usable entries gives a valid map. It covers exactly the old addresses plus those some usable entry lists. |
| MemoryMap.RemoveUnusableSpec | kernel/kalloc.cc:638-645 | Removing the other entries keeps the map valid and takes away exactly what they list. |
| MemoryMap.ScrubbedSpec | kernel/kalloc.cc:794-799 | The cleaned map is valid. It covers exactly the addresses from 1 MiB up that a usable entry lists and no other entry lists. |
| StealOrder.AddWith | kernel/kalloc.cc:200-235 | `add` keeps every segment non-empty. It keeps each existing segment in place, possibly widened, and never changes the first one. |
| StealOrder.Scan | kernel/kalloc.cc:205-220 | The same holds for the loop, whose split case first adds the upper part recursively. |
| StealOrder.Finish | kernel/kalloc.cc:221-234 | An empty remainder leaves the order unchanged. Otherwise only the last segment may change (only widening) and at most one segment is appended; the local segment is kept. |
| StealOrder.FirstAddIsLocal | kernel/kalloc.cc:186-198 | The first non-empty range added becomes the local range, and `is_local` accepts exactly its indexes. |
| StealOrder.AddKeepsLocal | kernel/kalloc.cc:186-198 | A later `add` never changes which indexes are local. |
| StealOrder.AddCovers | kernel/kalloc.cc:200-235 | After `add`, both as written and corrected, the order covers exactly the old indexes plus `[low, high)`. |
| StealOrder.AddKeepsDisjoint | kernel/kalloc.cc:200-202 | The corrected `add` keeps segments pairwise disjoint, as the comment on `add` promises. |
| StealOrder.AddAsWrittenCoversTwice | kernel/kalloc.cc:203-220 | As written, `add(2, 5)` on `[0, 10)` appends `[2, 5)`, and index 2 ends up in two segments. |
| StealOrder.AddDropsContainedRange | kernel/kalloc.cc:200-202 | The corrected `add` leaves `[0, 10)` unchanged for the same call. |
| StealOrder.AddExistingIsNoop | kernel/kalloc.cc:205-208 | In a disjoint order, adding a range that is already one of the segments changes nothing, in the code as written and corrected. |
| StealOrder.Begin | kernel/kalloc.cc:176-179 | `begin()` stands in the first segment, at its lowest index: the smallest index `is_local` accepts. |
| StealOrder.Next | kernel/kalloc.cc:153-162 | `++` steps inside a segment, or moves to the next segment's low end. It reaches `end()` exactly after the last index of the last segment. |
| StealOrder.VisitFrom | kernel/kalloc.cc:153-162 | From any position, iteration visits the rest of the segment and then all later segments in order. |
| StealOrder.IteratorVisitsFlatten | kernel/kalloc.cc:135-184 | From `begin()` to `end()`, the iterator visits each segment's indexes in insertion order. |
| StealOrder.FlattenCovers | kernel/kalloc.cc:135-184 | An index is visited exactly when some segment covers it. |
| StealOrder.FlattenDistinct | kernel/kalloc.cc:135-184 | In a disjoint order, no index is visited twice. |
| StealOrderText.SegmentRoundTrip | kernel/kalloc.cc:247-250 | A segment printed as `low` or `low..high-1` reads back to the same segment when followed by `>`, a space or nothing. |
| StealOrderText.RestRoundTrip | kernel/kalloc.cc:242-254 | The segments after the first, each preceded by a space, read back to themselves. |
| StealOrderText.ToStreamRoundTrip | kernel/kalloc.cc:238-255 | Reading `to_stream`'s text gives back exactly the segments it printed. |
| StealOrderText.ToStreamInjective | kernel/kalloc.cc:238-255 | Two steal orders print alike only when they are equal. |
| StealOrderText.ToStreamShowsLocal | kernel/kalloc.cc:241-250 | The text opens with the local segment between `<` and `>`. |
| HotList.FirstContaining | kernel/kalloc.cc:1006-1011 | The result is the buddy at the first steal-order position whose range contains the page. There is none exactly when no buddy in the order contains it. |
| HotList.FlushTarget | kernel/kalloc.cc:1001-1012 | The last buddy is reused whenever it contains the page. Otherwise the result is the first buddy in steal order that contains it. There is none exactly when neither holds. |
| HotList.FreeAll | kernel/kalloc.cc:997-1023 | A completed flush loop adds exactly the flushed pages to the buddies' free pages. Each pool keeps what it had, and every page it gains lies in that buddy's range. |
| HotList.FreeAllFailsIffUnmanaged | kernel/kalloc.cc:1000-1012 | The loop fails (`assert(lb)`) exactly when some page lies in no buddy of the steal order. |
| HotList.Sort | kernel/kalloc.cc:995 | The half to flush is sorted by address and is a permutation of the original. |
| HotList.Flush | kernel/kalloc.cc:990-1030 | A full cache keeps its newer half, moved down. Only the buddy pools change, and each gains only pages in its own range. |
| HotList.FlushKeepsPages | kernel/kalloc.cc:990-1030 | A flush moves pages from the cache to the buddies without losing or adding any. |
| HotList.FlushFailsIffUnmanaged | kernel/kalloc.cc:997-1012 | A flush fails exactly when a page of the older half lies in no buddy of the steal order. |
| HotList.Push | kernel/kalloc.cc:1031 | The page goes on top of the cache above the pages already there; nothing else changes. |
| HotList.KFreePage | kernel/kalloc.cc:986-1033 | A page-sized free keeps the state valid and adds the page. A cache with room just gets the page on top. A full cache first drops its older half to the buddies. It fails exactly when that half holds a page no buddy in the order contains. |
| HotList.KFreeBlock | kernel/kalloc.cc:1036-1046 | Any other size goes to the first buddy in steal order containing it. The call panics exactly when no buddy does. |
| HotList.KFree | kernel/kalloc.cc:977-1047 | `kfree` dispatches on the page size, and a success adds the freed block to the pages held. |
| HotList.Refill | kernel/kalloc.cc:705-735 | A refill moves pages from the buddies onto the cache, appended after what it held; no page is lost. |
| HotList.RefillTakesHeads | kernel/kalloc.cc:711-712 | Each buddy's pool loses pages only from its head (`alloc_nothrow`), so what it keeps is a suffix of what it had. |
| HotList.RefillInOrder | kernel/kalloc.cc:711-735 | Pages come in steal order: the refill stops at some position s. Every buddy before s is drained, and no buddy outside positions up to s loses a page. |
| HotList.RefillStops | kernel/kalloc.cc:711-730 | A refill stops at half a cache. Stopping short means every buddy from there on is empty. Taking nothing leaves the pools unchanged, and no pool grows. |
| HotList.RefillFromEmpty | kernel/kalloc.cc:713-720 | When every buddy is out of pages, a refill takes nothing. |
| HotList.General | kernel/kalloc.cc:742-757 | The page is the head of the first buddy in steal order that has one, and only that buddy's pool loses it. There is none exactly when all are empty. |
| HotList.Pop | kernel/kalloc.cc:736 | Popping hands out the top page, and the cache below it stays; nothing else changes. |
| HotList.PopUndoesPush | kernel/kalloc.cc:736 | Popping right after pushing a page returns that page and the state before the push. |
| HotList.KAllocPage | kernel/kalloc.cc:699-757 | A non-empty cache hands out its top page. The steal order and buddy ranges never change, and the cache stays below capacity. |
| HotList.KAllocPageKeepsPages | kernel/kalloc.cc:699-757 | The page handed out was held by the cache or a buddy, and the state stays valid. |
| HotList.KAllocPageNullIffEmpty | kernel/kalloc.cc:699-781 | `kalloc` returns null exactly when the cache is empty and no buddy in the steal order has a free page. |
| HotList.FreeThenAllocReturnsPage | kernel/kalloc.cc:1031 | The cache is a stack: a page just freed is the next page allocated. |
| HotList.FlushLeavesHalf | kernel/kalloc.cc:1027-1031 | After a flush and the push, the cache holds `H - H/2 + 1` pages, where H is KALLOC_HOT_PAGES. |
| HotList.RefillTakesAtMostHalf | kernel/kalloc.cc:711 | After a refill and the pop, fewer than `H/2` pages remain cached. |
| BuddyPartition.SizeLimit | kernel/kalloc.cc:883 | `size_limit` is the node's bytes divided by `subnodes`, rounded up. |
| BuddyPartition.ChunksTile | kernel/kalloc.cc:893-913 | The pieces tile the region from left to right. None is empty, and none is larger than the limit. |
| BuddyPartition.ChunkCount | kernel/kalloc.cc:893-913 | The number of pieces is the fewest limit-sized pieces that cover the region. |
| BuddyPartition.AtMostSubnodes | kernel/kalloc.cc:877-913 | A single region holding the node's bytes yields at most `subnodes` buddies. |
| BuddyPartition.FewerChunksThanSubnodes | kernel/kalloc.cc:877-913 | Five bytes for four CPUs make only three buddies, so "at least subnodes" does not always hold. |
| BuddyPartition.CpuRangeInNode | kernel/kalloc.cc:923-929 | The assertion holds exactly when the node has a buddy. The range is then non-empty and inside the node. |
| BuddyPartition.CpuRangesCoverNode | kernel/kalloc.cc:918-937 | Every buddy of the node lies in some CPU's range. |
| BuddyPartition.CpuRangesDisjoint | kernel/kalloc.cc:921-929 | With at least as many buddies as CPUs, different CPUs' ranges do not overlap. |
| BuddyPartition.CpuStealOrder | kernel/kalloc.cc:931-943 | The kernel's three `add`s, as written, give a well-formed order whose first segment is the CPU's own range. |
| BuddyPartition.NodeAdd | kernel/kalloc.cc:934 | Adding the node's range after the CPU's own range puts the node's parts above and below the CPU's range after it, with or without the correction. |
| BuddyPartition.WholeAdd | kernel/kalloc.cc:943 | Adding every buddy next gives the same order with or without the correction. |
| BuddyPartition.CpuStealOrderAgrees | kernel/kalloc.cc:931-943 | For a CPU range inside its node's range, the kernel's `add`s never meet a range lying inside a segment. They build the same order as the corrected `add`. |
| BuddyPartition.CpuStealOrderSpec | kernel/kalloc.cc:931-943 | The CPU's own range is local. The order covers exactly the buddies `0 .. total-1`, and no two segments overlap. |
| BuddyPartition.CpuStealOrderVisitsAll | kernel/kalloc.cc:931-943 | Iterating that order visits every buddy exactly once. |

## Left out

- Console output, `print`, `kmemprint`, statistics counters, `mtrace` labels, `ALLOC_MEMSET` poisoning and `memset`: I/O and debugging aids with no effect on the allocator's state.
- Locks, `scoped_cli`, the per-CPU `mycpu()` lookup and all concurrency: the model is one CPU's sequential view.
- The buddy allocator's internals are not part of this model. A buddy is its `contains` range plus a pool of free blocks. `alloc_nothrow` takes the first block, and `free` puts a block of any size back as one element.
- The `KALLOC_LOAD_BALANCE` variant (`memory`, `mempool`, balancer) and the boot-time `pgalloc` path (`!kinited`).
- `p2v`/`v2p` are the identity in the model. The `page_info` array sizing in `initkalloc`, the slab configuration and `ksalloc`/`ksfree` are left out.
- The node loop of `initkalloc` is modelled in pieces: node memory, cutting into chunks, CPU shares and steal orders. Their composition over all nodes and the final "memory missing from NUMA map" panic are not. Chunks that make an empty buddy are not filtered out; the CPU arithmetic takes the buddy count as a parameter.
- Capacities of `static_vector` (5 segments, 128 regions) are not modelled. Sequences are unbounded.
- 64-bit wrap-around of `base + length`, `pa + size` and the alignment mask is not modelled: integers are unbounded.
- The walk over the raw multiboot bytes in `parse_mb_map` is replaced by a list of entries.
- `gdb.selected_thread()`, the symbol table and target memory are the fields of `PerCpu.Host`. The script indexes `percpu_offsets` without a bounds check, and the debugger then reads whatever lies past the table. The model replaces that unchecked index with an explicit `CpuOutOfRange` error. A missing `__percpu_start` and an unreadable replica are explicit errors too. The printed value stands for `cast(...).dereference()`.
- `bin/gcbench.cc` is a benchmark that calls the allocator and is not part of this model.
- PhysMap.Remove: requires `base <= end`. With `base > end` the loop never finishes when some region reaches below `base` and above `end`: it keeps splitting the piece it just inserted. Otherwise it changes nothing (PhysMap.ClipReversed). No caller passes `base > end`.
- PhysMap.IntersectSpec: requires both maps to end at or below `~0`, because the final `remove(prevend, ~0)` cannot remove addresses above `~0`.
- PhysMap.AlignUp: requires a non-zero align, since `alloc` only rounds when align is non-zero. `Alloc` requires align to be 0 or a power of two, because the mask trick assumes one.
- StealOrder.Begin: requires a non-empty order. The kernel dereferences the first segment of an empty order.
- PhysMap.RemoveSpec: the `remove` loop's `erase(it) - 1` on the first region steps before `begin()`, which C++ leaves undefined. The model continues with the next region, as evidently intended.
- HotList.KFreePage: requires KALLOC_HOT_PAGES >= 2. The constant is not part of this model and is a parameter; with 0 or 1 the flushed half is empty and the cache array overflows.
- HotList.FlushTarget: the flush loop caches the last buddy, so a page can go to a buddy that contains it but is not the first such buddy in steal order. The model keeps that behaviour, and only KFreeBlock promises "first in steal order".
- BuddyPartition.SizeLimit: requires `subnodes >= 1`, because the source divides by it.
- BuddyPartition.CpuStealOrder: requires the CPU's range to be non-empty and inside the node's range, which CpuRangeInNode guarantees when the node has a buddy. The kernel only calls `add` on such ranges.
- StaticVectorPrinter.Children: when `size_` exceeds the readable slots, the whole list is one error. The debugger's lazy generator would still show the readable children before it fails.
- BuddyPartition.CpuRangesDisjoint: requires at least as many buddies as CPUs. With fewer, the bump makes ranges overlap, as the source's comment says.

## Findings

| source | as written | input that shows it | evidently intended | confidence | as-written member | corrected member |
|---|---|---|---|---|---|---|
| kernel/kalloc.cc:203-235 | `add` subtracts ranges that overlap, straddle or contain a segment, but not a range lying inside one | `add(2, 5)` on the order `[0, 10)` appends `[2, 5)`, so buddy 2 is in two segments | the comment says already-added ranges are subtracted, so nothing should be added | not executed; the kernel's own calls in initkalloc never meet it (BuddyPartition.CpuStealOrderAgrees) | StealOrder.AddAsWrittenCoversTwice | StealOrder.AddKeepsDisjoint |
| kernel/kalloc.cc:572-582 | `base()` uses 0 both as "no region seen yet" and as an address | regions `[0, 0x1000)` and `[0x2000, 0x3000)` give 0x2000 | the lowest base, 0 | not executed; initkalloc removes the first MiB first, so the kernel's own calls do not reach it | PhysMap.BaseAsWrittenMissesZero | PhysMap.Base |

Other observations:
- `alloc` tests `pa + size < reg.end`, so a block that ends exactly at a region's end is refused. The model keeps the strict test.
- `size_limit` rounds up, so a node can get fewer buddies than `subnodes` (BuddyPartition.FewerChunksThanSubnodes). The bump in the CPU ranges absorbs this.
- A node without buddies fails the `cpu_high` assertion (BuddyPartition.CpuRangeInNode).
