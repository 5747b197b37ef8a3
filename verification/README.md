# Verified model of a small x86-64 kernel and its loader

The loader finds physical memory, builds the page database and the first page tables, maps the
kernel and hands both page lists over. The kernel then allocates pages and virtual regions,
schedules threads behind direct hand-off mutexes, and shares objects through intrusive reference
counts. This project models those parts and proves what they keep.

`dafny verify dfyconfig.toml` checks everything. The files group by component:

- Page tables: `Bits`, `PageIndex`, `PageEntry` (words and addresses), `PageTable` and `PageMapping`
  (the loader's `map_page` as a tree that grows), `SelfMap` (slot 511), `BootRun` (what boot
  does with both), `PageSize` (the processor's translation, large pages included),
  `Permissions` (the flags of the entries on a walk), `LoaderMemory` (the loader in place), `KernelMapping` (the kernel's mapping through the self-map), `WrittenOrder`
  and `WrittenNew` (the same at the addresses the code really computes, where tables exist and from
  any state) and `KernelMemory` (the kernel in place).
- Lists and counts: `LinkedList` (nodes on the heap), `RefCount` (what handles and lists mean),
  `RefMeaning` (what each operation makes of them), `RefHeap` (the counts that implement it) and `RefLists` (the links that do).
- Regions: `BitField`, `RegionSearch` (first fit), `RegionEdges` (when the search is one: other
  bases, requests for no bytes or beyond 2^64, the upper half), `RegionRuns` (sequences of calls),
  `VmRegion` (the objects).
- Threads: `Scheduler` (transition system and invariant), `WaitOrder` and `RunQueues` (runs),
  `StepEffects` (states and owners), `BlockingStep` (blocking in two steps) and `Machine` (the steps in place).
- Physical pages: `EarlyMemory`, `PhysicalPages`, `PagePool` (runs), `PoolObjects` (the same on the
  lists), `Relocation`.
- Words and numbers: `Strings`, `NumberFormat`, `Slab`.

Every class method is tied to a function of its old state (`Abs()`, `nodes`, `Intervals`), and the
results are proved about those functions.

## Where the code and its intent part

Each of these is kept as the code has it, and the exact condition is a lemma.

- `map_single_page` passes the table indices in the reverse of the order its comment documents
  (`arch/x86-64/mmu.cc:28-29`). From any valid state the exact condition for the call to do what the
  documented one does is `WrittenIsRight` (`WrittenMapsExactly`). Where a table of the page is
  missing, the three upper indices must be equal and the free pages suffice; the one exception is
  indices x, x, 511, 511 with a frame that is its own last entry. Where the tables exist, the
  page directory entry must exist at the swapped indices, and the last entry must be the page's own
  or one of two that already lead to the same page. `WrittenFaultsAt` is a state in which the call
  faults. The call also links pages without clearing them, which leaves other walks alone exactly
  when the page holds no present entry (`UnzeroedTable`).
- Flags go into the tables made for a page as well, where bit 7 (`pat` in a page's own entry,
  `arch/x86-64/types.h:31`) means a large page: the tables stay valid exactly if no table is made or
  the bit is clear, and otherwise the page is translated to part of a large one or not at all
  (`MapPageTranslates`).
- The loader keeps 32 bits of a table address (`loader/x86-64-multiboot2/mem.cc:169`), so table pages
  must lie below 4 GiB (`LoaderReadsBack`).
- Removing the only element leaves the list's root at the removed node (`RemoveNode`); inserting
  before null on an empty list makes an unlinked root (`InsertBefore`), and on a list of `RefPtr`
  leaks a reference (`RefHeap.InsertBefore`). In runs without such an insertion a list of `RefPtr`
  is marked broken exactly if its only object is removed (`RunsBreakLists`), and a list is marked
  exactly while its links are no circle with a root (`RefLists`).
- `foreach_hole` mixes a relative first offset with absolute later ones, so away from base 0 the
  search needs the region's base as slack (`FirstFitCondition`), and requests so large that a sum
  wraps must not wrap into an earlier gap (`AnySizeCondition`). In the upper half that slack does
  not exist: nothing the search finds there is a fit (`UpperHalfSearch`), it is right exactly if it
  rightly finds nothing (`UpperHalfCondition`), and the empty kernel root gives out address 0
  (`KernelRootStartsAtZero`).
- Empty gaps are skipped, so a request for no bytes is placed first-fit exactly if some gap at 0 is
  not empty (`ZeroBytesCondition`).
- Destroying the only child breaks the parent's list; nothing else does (`RunsBreakChildren`). The
  children stay in order exactly until a sum wraps into the gap it is given (`RunsKeepChildren`).
- `alloc_phys_pages` drops what its list held before (`PagesConserved`).
- `search_run` never returns the run that ends at the limit (`SearchMissesLastRun`);
  `is_page_reserved` misses a page whose reserved range lies strictly inside it (`FlagsExactly`).
- `Mutex::lock` queues its thread and switches away in two steps, with the mutex unlocked between.
  No thread ever runs on two CPUs exactly if no switch picks the thread of a CPU that is between the
  two (`SplitBlockingIsSafe`); `SplitBlockingRunsTwice` is a run that does.
- The width in `num` does not count a sign printed for an unsigned conversion (`PrintedLength`).
- Slabs of objects that fill the page have no colour and the code divides by zero (`ColorsExist`,
  `SmallestHasNoColor`); the slab header's free pointer is past the last object
  (`FreePointerMissesChain`).

## Model

| member | source | states |
|---|---|---|
| PageIndex.CanonicalizeIsSignExtension | arch/x86-64/types.h:163-166 | the result is canonical, keeps the low 48 bits, and is the only such address |
| PageIndex.IndicesOfVirt | arch/x86-64/types.h:169-186 | four indices survive the trip through an address, which is canonical and page-aligned |
| PageIndex.VirtOfIndices | arch/x86-64/types.h:169-186 | an address survives the trip through its indices if and only if it is canonical and page-aligned |
| PageEntry.LoaderReadsBack | loader/x86-64-multiboot2/mem.cc:166-177 | the table the loader follows is the one it stored exactly when it lies below 4 GiB and the flags add no address bit |
| PageEntry.LinkEntry | loader/x86-64-multiboot2/mem.cc:166-177 | for such a table, and flags without the page-size bit, the loader and the processor read the same page, present, a table and not a large page |
| PageEntry.LeafEntry | loader/x86-64-multiboot2/mem.cc:178-180 | a last-level entry with clean flags is present and names the physical page |
| Permissions.EntryFlags | loader/x86-64-multiboot2/mem.cc:179 | outside the present bit and the address bits an entry holds exactly the flags it was stored with |
| Bits.BitOfAnd | loader/x86-64-multiboot2/mem.cc:169 | a bit of the masked word is set if and only if it is in both operands |
| Bits.BitOfOr | loader/x86-64-multiboot2/mem.cc:167 | a bit of the combined word is set if and only if it is in one of the operands |
| PageTable.WalkAfterWrite | loader/x86-64-multiboot2/mem.cc:165-180 | one present entry written into an empty slot of a tree adds exactly that path to the walks |
| PageTable.LinkIsValid | loader/x86-64-multiboot2/mem.cc:148-176 | linking a fresh page keeps the tables a tree of distinct reserved pages, and the free and reserved lists apart |
| PageTable.DescendCorrect | loader/x86-64-multiboot2/mem.cc:165-176 | three levels succeed exactly when the missing tables fit the free list, take exactly those, and end at the walked table |
| PageTable.LeafWalks | loader/x86-64-multiboot2/mem.cc:177-180 | the leaf write maps the page only if it was unmapped and changes no other walk |
| PageTable.LeafIsValid | loader/x86-64-multiboot2/mem.cc:177-180 | the leaf write keeps the state valid and both lists and slot 511 as they were |
| PageMapping.MapPageCorrect | loader/x86-64-multiboot2/mem.cc:161-181 | map_page refines a map from virtual to physical pages: success condition, result, frame, pages moved, validity; bit 7 of the flags may be set if no table has to be made |
| Permissions.MapPageFlags | loader/x86-64-multiboot2/mem.cc:165-180 | every entry on the way to the page is the word it was if it was present, and else present with the flags asked for |
| Permissions.MapPagePermissions | loader/x86-64-multiboot2/mem.cc:161-181 | a newly mapped page is writable, or accessible to users, if and only if the flags ask for it and all tables that were there allow it; likewise for bits that must be clear at every level, as execute-disable |
| Permissions.OtherPagesKeepFlags | loader/x86-64-multiboot2/mem.cc:165-180 | no entry on the way to a page that was mapped changes |
| PageMapping.NewTablesCount | loader/x86-64-multiboot2/mem.cc:148-181 | the distinct missing prefixes of a request list split into those of the first request and those still missing after it |
| PageMapping.MapAllCorrect | loader/x86-64-multiboot2/main.cc:151-154 | any sequence of map_page calls gives each unmapped page to its first request and takes exactly the number of missing level-4, -3 and -2 prefixes |
| SelfMap.SetupPagingCorrect | loader/x86-64-multiboot2/mem.cc:183-190 | the first root table is valid, self-mapped, and maps nothing else |
| Permissions.SelfEntryFlags | loader/x86-64-multiboot2/mem.cc:187-188 | the entry of the root for itself has the flags writable and not user, and does not disable execution |
| SelfMap.SelfMapPrefix | arch/x86-64/mmu.cc:81-123 | an index 511 in front of a path does not change where its walk ends |
| SelfMap.SelfMapReachesTables | arch/x86-64/mmu.cc:81-123 | walking the self-mapped addresses ends at the PML4, PDPT, PD and PT page of the named indices |
| BootRun.TakeKeeps | loader/x86-64-multiboot2/mem.cc:148-159 | taking and clearing a free page changes no walk and keeps the state valid |
| BootRun.NextMaps | loader/x86-64-multiboot2/main.cc:177-178 | an unmapped page goes to the page asked for, or to the first free one if a page is taken for it |
| BootRun.RunCorrect | loader/x86-64-multiboot2/main.cc:151-200 | any run of map_page calls, some for pages taken just before, succeeds exactly if the free pages suffice for missing tables and fresh pages, takes exactly those from the front, and gives each unmapped page to its first request |
| BootRun.BootMapsRequests | loader/x86-64-multiboot2/main.cc:149-200 | after paging is set up and any such run, exactly the requested pages are mapped and all tables stay reachable |
| PageSize.TranslateIsWalk | loader/x86-64-multiboot2/mem.cc:161-181 | in a valid state the processor, which takes bit 7 above the last level for a large page, translates every address as the walk does |
| PageSize.SelfMapTranslates | arch/x86-64/mmu.cc:81-123 | the same for the addresses of the self-map |
| PageSize.MapPageTranslates | loader/x86-64-multiboot2/mem.cc:165-180 | whatever bit 7 of the flags, what the page is translated to after map_page; the tables stay valid if and only if the bit is clear or no table was made |
| LoaderMemory.LoaderMemory.PmmAllocPage | loader/x86-64-multiboot2/mem.cc:148-159 | in place: the first free page becomes the last reserved one, all zero, and nothing else changes |
| LoaderMemory.LoaderMemory.FollowOrMake | loader/x86-64-multiboot2/mem.cc:165-176 | in place: one level equals the specification's level, out-of-memory case included |
| LoaderMemory.LoaderMemory.MapPage | loader/x86-64-multiboot2/mem.cc:161-181 | the in-place map_page equals the specification and so has its growth, frame and result |
| LoaderMemory.LoaderMemory.MapRun | loader/x86-64-multiboot2/main.cc:196-200 | the loop over consecutive pages succeeds exactly when the missing tables fit, and then maps the whole run, consecutive pages to consecutive pages |
| LoaderMemory.LoaderMemory.SetupPaging | loader/x86-64-multiboot2/mem.cc:183-190 | in place: the result is valid and self-mapped |
| KernelMapping.TableSlot | arch/x86-64/mmu.cc:31-34 | the documented address of entry i of a table is that word of that table |
| KernelMapping.EntryIsTable | arch/x86-64/mmu.cc:36-58 | one entry made through the self-map from a blank page does what the loader does at that level, and never faults |
| KernelMapping.SlotsDescend | arch/x86-64/mmu.cc:36-58 | the first entries in documented order grow the tables as the loader's descent does |
| KernelMapping.MapSinglePageCorrect | arch/x86-64/mmu.cc:13-64 | in documented order with blank pages the page is mapped or remapped, all other walks kept, exactly the missing tables taken; it fails exactly when they run out |
| Permissions.MapSinglePageFlags | arch/x86-64/mmu.cc:36-61 | in documented order every entry the call makes has the flags asked for, and the last one has them whatever was there |
| KernelMapping.WrittenOrderAgrees | arch/x86-64/mmu.cc:26-29 | the written addresses are the documented ones if and only if the three upper indices are equal; what the call then does is WrittenMapsExactly |
| KernelMapping.WrittenSlotsReach | arch/x86-64/mmu.cc:26-34 | over existing tables, which written entries are the right words of memory, each if and only if two indices agree; what the call does from any state is WrittenMapsExactly |
| WrittenNew.WrittenOutcome | arch/x86-64/mmu.cc:26-63 | from any state, unless a table is missing and the indices are equal: the first two entries are made in documented order, then the call faults, runs out of memory, or takes at most one page, for an entry of another table, and writes one last entry: which, and where |
| WrittenOrder.WrittenOverTables | arch/x86-64/mmu.cc:13-64 | over existing tables, exactly when the written call faults, when it runs out of memory, and when it maps the page as it should |
| WrittenNew.WrittenMapsExactly | arch/x86-64/mmu.cc:13-64 | from any state with blank pages to take, the written call maps the page, takes exactly the missing tables and leaves all other walks, the tables and the lists alone if and only if WrittenIsRight holds of the indices, the tables and the frame |
| WrittenNew.NewTwoEqual | arch/x86-64/mmu.cc:36-61 | with two equal indices and a missing table the tables made are the right ones, and the page is mapped only if the frame is a table that names itself |
| WrittenNew.Crossed | arch/x86-64/mmu.cc:52-61 | with different first indices too few pages are taken or one becomes a table elsewhere, so the page is never mapped as it should |
| WrittenOrder.WrittenFaultsAt | arch/x86-64/mmu.cc:26-61 | a state with the page at 2 MiB mapped, in which the written call for that page faults and the documented one succeeds |
| KernelMapping.UnzeroedTable | arch/x86-64/mmu.cc:36-58 | linking an uncleared page keeps all other walks if and only if the page holds no present entry |
| KernelMapping.OverwriteIsValid | arch/x86-64/mmu.cc:60-61 | overwriting a last-level entry remaps its page, keeps every other walk and the tree |
| KernelMemory.KernelMemory.MapSinglePage | arch/x86-64/mmu.cc:13-64 | the in-place code, in its written order, equals the specification at the written addresses; from any state with blank pages to take it maps the page as it should if and only if WrittenIsRight holds |
| LinkedList.InsertedCircle | lib/ebl/linked_list.h:180-187 | the four link writes of an insertion leave one circle with the node at its place |
| LinkedList.RemovedCircle | lib/ebl/linked_list.h:189-197 | the link writes of a removal leave one circle without the node |
| LinkedList.CircleIsUnique | lib/ebl/linked_list.h:146-162 | the links and the first node determine the whole sequence |
| LinkedList.IntrusiveList.LinkBefore | lib/ebl/linked_list.h:180-187 | in place: the new node lands before the given one and the links form a circle again |
| LinkedList.IntrusiveList.PushFront | lib/ebl/linked_list.h:199-209 | prepends |
| LinkedList.IntrusiveList.PushBack | lib/ebl/linked_list.h:211-220 | appends |
| LinkedList.IntrusiveList.PopFront | lib/ebl/linked_list.h:222-234 | removes and returns the first, null from an empty list |
| LinkedList.IntrusiveList.PopBack | lib/ebl/linked_list.h:236-248 | removes and returns the last of a non-empty list |
| LinkedList.IntrusiveList.InsertBefore | lib/ebl/linked_list.h:299-303 | inserts before a member; with null the list stays valid if and only if it was not empty |
| LinkedList.IntrusiveList.RemoveNode | lib/ebl/linked_list.h:189-197 | removes that node; the list stays valid if and only if it had at least two |
| LinkedList.IntrusiveList.Traverse | lib/ebl/linked_list.h:252-270 | iteration ends, having met each node once in order |
| LinkedList.IntrusiveList.Size | lib/ebl/linked_list.h:156-162 | the size is the length of the sequence |
| RefCount.StepIsValid | lib/ebl/memory.h:83-144 | every handle and list operation keeps objects alive exactly while referred to, each in at most one list; no operation that follows links is enabled on a broken list |
| RefMeaning.MakeMeans | lib/ebl/memory.h:150-153 | the new handle has the new object |
| RefMeaning.CopyMeans | lib/ebl/memory.h:83-89 | the copy has the object of the original, or is null as it is; that object has one reference more and no other changes |
| RefMeaning.MoveMeans | lib/ebl/memory.h:91 | the new handle has the object, the old one is null, all numbers of references stay |
| RefMeaning.CopyAssignMeans | lib/ebl/memory.h:93-99 | both handles have the object of the right-hand one; one reference more for it, one less for the old object |
| RefMeaning.MoveAssignMeans | lib/ebl/memory.h:101-104 | the left-hand handle has the object, the other is null, the old object has one reference less; onto itself nothing changes |
| RefMeaning.DropMeans | lib/ebl/memory.h:106-109 | the handle is gone and its object has one reference less |
| RefMeaning.PushMeans | lib/ebl/linked_list.h:344-353 | the object of the handle is at its place in the list, and the handle is gone |
| RefMeaning.PopMeans | lib/ebl/linked_list.h:354-365 | the new handle has the object that left its place in the list |
| RefMeaning.RemoveMeans | lib/ebl/linked_list.h:366-371 | exactly the object of the handle leaves the list, and the handle keeps it |
| RefMeaning.PeekMeans | lib/ebl/linked_list.h:336-343 | the new handle has the object at that place, the list stays |
| RefMeaning.PushThenPop | lib/ebl/linked_list.h:344-365 | pushing an object and popping it again restores the whole world |
| RefCount.RunsConserve | lib/ebl/memory.h:52-61 | over any run an object is alive exactly while its handles and list memberships are not zero, and was destroyed exactly once otherwise |
| RefCount.RunsBreakLists | lib/ebl/linked_list.h:189-197 | over any run a list is marked broken if and only if its only object is removed |
| RefHeaps.RefHeap.Release | lib/ebl/memory.h:52-60 | the count drops by one and the answer is true exactly for the last reference |
| RefHeaps.RefHeap.DestroyPtr | lib/ebl/memory.h:133-144 | given up once, the object dies exactly if nothing else refers to it, and all counts are exact again |
| RefHeaps.RefHeap.CopyConstruct | lib/ebl/memory.h:83-89 | the copy has the object of the original and its count is one higher; counts stay exact |
| RefHeaps.RefHeap.MoveConstruct | lib/ebl/memory.h:91 | counts stay exact although none is touched; the source is null |
| RefHeaps.RefHeap.CopyAssignment | lib/ebl/memory.h:93-99 | counts stay exact, self-assignment included, and the old object dies exactly if unreferenced |
| RefHeaps.RefHeap.MoveAssignment | lib/ebl/memory.h:101-104 | the temporary and the swap amount to a move that drops the old object; self-move changes nothing |
| RefHeaps.RefHeap.Destruct | lib/ebl/memory.h:106-109 | the handle ends; its object dies exactly if unreferenced |
| RefHeaps.RefHeap.MakeRef | lib/ebl/memory.h:150-153 | a new object starts with exactly one reference |
| RefHeaps.RefHeap.PushAt | lib/ebl/linked_list.h:344-353 | the list takes a reference of its own and the parameter's handle ends, counts exact |
| RefHeaps.RefHeap.PopAt | lib/ebl/linked_list.h:354-365 | the object moves from the list to a new handle and is not destroyed, whatever the count in between |
| RefHeaps.RefHeap.RemoveObject | lib/ebl/linked_list.h:366-371 | the list's reference goes, the caller's keeps the object alive; the list is broken exactly if it had only that object |
| RefHeaps.RefHeap.InsertBefore | lib/ebl/linked_list.h:372-378 | inserts at the member; a null insertion point leaves a count one too high and breaks the list exactly if it was empty |
| RefHeaps.RefHeap.First | lib/ebl/linked_list.h:336-343 | the first object gets one more handle |
| RefHeaps.RefHeap.ClearList | lib/ebl/linked_list.h:329-335 | the destructor of a list that is not broken empties it and destroys exactly the objects nothing else refers to |
| RefLists.LinkedWorld.EditOne | lib/ebl/linked_list.h:180-248 | a change of one list moves its nodes as specified and leaves all others alone; it stays a circle unless its only node is removed or null is the insertion point of an empty list |
| RefLists.LinkedWorld.Push | lib/ebl/linked_list.h:344-378 | on linked nodes: inserts as RefCount.Step says; a list is marked broken exactly while its links are no circle |
| RefLists.LinkedWorld.PushNowhere | lib/ebl/linked_list.h:372-378 | on linked nodes: a null insertion point inserts nothing, and the links are no circle any more exactly if the list was empty |
| RefLists.LinkedWorld.Pop | lib/ebl/linked_list.h:354-365 | on linked nodes: takes the first or last object as RefCount.Step says, and the links stay a circle |
| RefLists.LinkedWorld.Remove | lib/ebl/linked_list.h:366-371 | on linked nodes: removes as RefCount.Step says, and the root stays at an unlinked node exactly if that was the only object |
| BitField.SetThenGet | lib/ebl/bit.h:38-43 | a field reads back what was written, cut to its width |
| BitField.SetKeepsOthers | lib/ebl/bit.h:38-43 | a disjoint field of the same word does not change |
| BitField.WithinIsTransitive | core/vmregion.cc:20-23 | the capability test is transitive |
| RegionSearch.AlignUpIsLeast | lib/ebl/util.h:62-65 | the result is the least multiple of a power of two at or above the value |
| RegionSearch.FirstGapIsLeastFit | core/vmregion.cc:37-49 | the aligned start of the first gap that takes a request is the least place that fits; with no such gap nothing fits anywhere |
| RegionSearch.SearchTakesFirstGap | core/include/core/vmregion.h:128-141 | in a region at any base where no sum reaches 2^64 the code finds the first gap that leaves the base to spare |
| RegionSearch.FirstFitIsExact | core/vmregion.cc:37-51 | in a region at 0 the search returns the least aligned fit, and fails only if nothing fits anywhere |
| RegionEdges.FirstFitCondition | core/include/core/vmregion.h:131-139 | for any base where no sum reaches 2^64, the search is a first fit if and only if the base is 0 or the gaps in question leave the base as slack |
| RegionEdges.AnySizeCondition | core/vmregion.cc:37-51 | for requests of any size, the search is a first fit if and only if the base is 0 or the gaps in question leave it as slack, and no sum wraps into a gap before the first fit |
| RegionEdges.UpperHalfSearch | core/include/core/vmregion.h:128-141 | in a region of the upper half, exactly when the search finds something; what it finds never fits |
| RegionEdges.UpperHalfCondition | core/vmregion.cc:37-51 | there, for requests and alignments of any size, the search is a first fit if and only if every gap is too small and neither the first hole nor a wrapped sum passes the test |
| RegionEdges.KernelRootStartsAtZero | arch/x86-64/thread.cc:32-33 | in the empty kernel root every request that fits gets address 0, although the base of the root is the least fit |
| RegionEdges.ZeroBytesCondition | core/vmregion.cc:37-51 | a request for no bytes is placed first-fit if and only if a gap at 0 is not empty |
| RegionEdges.ZeroBytesInFront | core/include/core/vmregion.h:131-139 | with children that are not empty, that is a gap in front of the first child |
| RegionRuns.InsertKeepsOrder | core/vmregion.cc:62-66 | insertion before the hole's child keeps the children sorted, apart and inside |
| RegionRuns.FoundKeepsOrder | core/vmregion.cc:37-67 | for a request of any size, no bytes included, the place found is page-aligned, and the child inserted before keeps order if and only if the sum did not wrap into the gap |
| RegionRuns.RunsKeepChildren | core/vmregion.cc:40-67 | over any run of allocations of any size and destroys, the children are aligned, inside, apart and sorted in every state if and only if no sum wraps into the gap it is given |
| RegionRuns.RunsBreakChildren | core/vmregion.cc:40-67 | over any run the list breaks if and only if the only child is destroyed; without requests for no bytes no child is empty |
| RegionRuns.StrictlySorted | core/vmregion.cc:62-66 | children in order that are not empty have strictly increasing bases |
| RegionRuns.ReallocateAfterDestroy | core/vmregion.cc:53-66 | beside a sibling, destroying the new child and allocating again gives the same base and the same children |
| RegionRuns.ZeroBytesBehind | core/vmregion.cc:42 | an instance: behind a child at 0, a request for no bytes is placed after the child instead of at 0 |
| VmRegions.VmRegion.FindHole | core/include/core/vmregion.h:128-141 | the loop over the children with its running offset equals the search |
| VmRegions.VmRegion.AllocateCompact | core/vmregion.cc:17-68 | which error when, in the bits of the flags, and otherwise the new child at the place found, inserted there, with flags exactly the four wanted capability bits; at base 0 the exact first fit, order kept; the trees of all ancestors stay valid |
| VmRegions.VmRegion.Adopt | core/vmregion.cc:61-66 | inserting a detached region keeps the tree a tree |
| VmRegions.VmRegion.Destroy | core/vmregion.cc:101-113 | terminates on every finite tree; every descendant ends detached and childless; the region leaves its parent's list, dangling exactly if it was alone, and the trees of all ancestors are valid again if it was not |
| VmRegions.VmRegion.Perform | core/vmregion.cc:17-113 | one operation of a run on the objects: the children change as RegionRuns.Apply says, and unless the list broke the whole chain of trees is valid |
| VmRegions.VmRegion.Reallocate | core/vmregion.cc:53-66 | on the objects: beside a sibling, allocate, destroy and allocate again gives a new region at the same base, all trees valid |
| VmRegions.VmRegion.FindChildAbove | core/vmregion.cc:115-121 | the first child at or above the offset, null only if there is none |
| VmRegions.CapabilitiesShrink | core/vmregion.cc:20-23 | down any chain of regions capabilities are subsets of every ancestor's |
| VmRegions.NewFlags | core/vmregion.cc:54-57 | the three bit-field writes give exactly the four capability bits wanted, and a non-root region |
| VmRegions.FlagTests | core/vmregion.cc:20-28 | the tests say: no wanted capability bit 0 to 3 that the region lacks; type bit 4 clear |
| Scheduler.StepKeepsInv | core/mutex.cc:12-52 | lock, the end of lock after a switch, unlock and yield each keep the whole invariant |
| Scheduler.RunsKeepInv | core/mutex.cc:12-52 | the invariant holds in every state that guarded steps of any number of threads reach |
| Scheduler.MutualExclusion | core/mutex.cc:12-54 | locked means exactly one holder or successor, free means none and no waiters; the holder is the owner, a successor not yet |
| Scheduler.NoBarging | core/mutex.cc:44-50 | during a hand-off no step of any thread gives the mutex to another |
| WaitOrder.WaitersResumeInOrder | core/mutex.cc:19-50 | over any run from a free mutex, waiters get it in the order they queued |
| WaitOrder.RunsMoveLine | core/mutex.cc:19-50 | those in line, then those who queue, are those who resume, then those still in line |
| Scheduler.OnePlace | core/sched.cc:11-17 | every thread is running, on one run queue or in one wait queue, once |
| Scheduler.OnlyBlockingFails | core/mutex.cc:28-37 | the ownership assertions never fail; the only assertion that can is that of an empty run queue when blocking |
| RunQueues.YieldsRotate | core/thread.cc:15-20 | with only yields a CPU's threads rotate |
| RunQueues.YieldsRun | core/thread.cc:15-20 | among n threads each runs again every n yields |
| RunQueues.RunQueueIsFifo | core/sched.cc:11-17 | over any run, the threads queued on a CPU at the start, then those that yield or are woken on it, are those it switches to, then those still queued, in that order |
| StepEffects.StatesChange | core/mutex.cc:21-48 | a step makes ready exactly who yields or is woken, marks blocked exactly who goes to sleep, and leaves all other states |
| StepEffects.OwnersChange | core/mutex.cc:12-52 | when the owner and the lock of a mutex change and to what; during a hand-over it stays locked and keeps the owner that gave it up |
| StepEffects.OwnershipIsChecked | core/mutex.cc:28-37 | unlock fails exactly for a thread that is not the owner, the end of lock exactly for one that already is |
| Scheduler.StepKeepsStates | core/mutex.cc:21-23 | one step keeps the blocked mark: a thread is marked blocked if and only if its place is a wait queue |
| Scheduler.RunsKeepStates | core/mutex.cc:21-48 | over any run the threads marked blocked are exactly those in wait queues |
| BlockingStep.SplitBlockingRunsTwice | core/mutex.cc:22-25 | an instance: if an unlock and a yield fall between enqueue and switch, one thread runs on two CPUs |
| BlockingStep.HalvesCompose | core/mutex.cc:19-25 | with nothing in between, the two halves of blocking are the one step of Scheduler |
| BlockingStep.SplitBlockingIsSafe | core/mutex.cc:22-25 | over any run with blocking in two steps, no thread is ever on two CPUs if and only if no switch picks the thread of a CPU between its two halves |
| BlockingStep.SplitBlockingFromInv | core/mutex.cc:12-52 | so it is from every state of the one-step invariant |
| BlockingStep.ContendedInv | core/mutex.cc:19-32 | a state where that can start satisfies the invariant |
| Machines.Machine.ScheduleNextThread | core/sched.cc:11-17 | the head of the run queue becomes current; fails exactly on an empty queue |
| Machines.Machine.ThreadYield | core/thread.cc:15-20 | in place: equals the yield step and never fails |
| Machines.Machine.LockEnter | core/mutex.cc:12-25 | in place: equals the lock step, blocking included |
| Machines.Machine.LockResume | core/mutex.cc:26-31 | in place: equals the step that completes a lock |
| Machines.Machine.UnlockMutex | core/mutex.cc:35-52 | in place: equals the unlock step with its hand-off |
| EarlyMemory.FlagsExactly | loader/x86-64-multiboot2/mem.cc:37-47 | below 4 GiB, exactly which pages a reserved range flags |
| EarlyMemory.AlignedRangeCovered | loader/x86-64-multiboot2/mem.cc:37-47 | a range that begins on a page boundary flags every page it overlaps |
| EarlyMemory.SearchRun | loader/x86-64-multiboot2/mem.cc:50-67 | the lowest start of a wholly unreserved run in the searched interval, none only if there is none |
| EarlyMemory.RunInside | loader/x86-64-multiboot2/mem.cc:53-62 | a run found ends before the limit |
| EarlyMemory.SearchMissesLastRun | loader/x86-64-multiboot2/mem.cc:53 | a free run is missed if and only if the only one ends at the limit |
| EarlyMemory.AlignedAddresses | loader/x86-64-multiboot2/mem.cc:78-79 | the bounds of an entry are rounded to the least page boundary above and the greatest below |
| EarlyMemory.RunsInEntry | loader/x86-64-multiboot2/mem.cc:78-81 | the runs looked at in an entry are exactly the free ones inside its memory that leave a page behind them |
| EarlyMemory.BumpAllocator.AllocContiguous | loader/x86-64-multiboot2/mem.cc:70-84 | the lowest run of the first available entry that has one; failure means every entry or the attempt limit was used up |
| EarlyMemory.Partition | loader/x86-64-multiboot2/mem.cc:122-140 | the two lists are the unreserved and the reserved pages in order, and their sizes add up to all pages |
| EarlyMemory.SelectedExactly | loader/x86-64-multiboot2/mem.cc:122-129 | a page is in a list exactly as its reservation says |
| EarlyMemory.SelectedInOrder | loader/x86-64-multiboot2/mem.cc:122-129 | the pages of a list keep the order of the database |
| PhysicalPages.PageAllocator.AllocSingle | core/pmm.cc:12-16 | takes the first free page; fails exactly on an empty list |
| PhysicalPages.PageAllocator.AllocPages | core/pmm.cc:18-31 | the first count pages reversed, or failure with the free list identical, order included |
| PhysicalPages.PageAllocator.Rollback | core/pmm.cc:23-25 | the failure loop restores the free list exactly |
| PhysicalPages.PageAllocator.FreePages | core/pmm.cc:33-38 | the pages go to the end of the free list in order |
| PhysicalPages.PageAllocator.FreeSingle | core/pmm.cc:40-45 | the page goes to the end of the free list; null changes nothing |
| PagePool.RunKeepsPages | core/pmm.cc:12-45 | over any run, free, held and dropped pages together are those of the start |
| PagePool.PagesConserved | core/pmm.cc:18-38 | pages are conserved if and only if no allocation went into a list that still held pages |
| PoolObjects.Lists.Perform | core/pmm.cc:12-45 | one operation of a run on the lists themselves: the free list, the other lists and what is dropped become what PagePool.Apply says |
| Relocation.ShiftLinks | loader/x86-64-multiboot2/main.cc:204-206 | the in-place loop shifts every non-null link and nothing else |
| Relocation.MovedTo | loader/x86-64-multiboot2/main.cc:202-210 | shifted by the distance to the kernel address, the database lies there and a link to entry i is one to entry i there; null stays null |
| Relocation.RelocationKeepsRings | loader/x86-64-multiboot2/main.cc:202-210 | every circular list, root included, is the same list of entries after the shift |
| Relocation.RelocationCommutesWithTraversal | lib/ebl/linked_list.h:81-88 | traversing the shifted list is shifting the traversal, address by address |
| Relocation.StepsToRoot | lib/ebl/linked_list.h:156-162 | a traversal first comes back to its root after as many steps as there are entries |
| Relocation.PartitionSurvives | core/main.cc:29-34 | two lists that split all pages still do after the move, and their sizes add up to the total |
| Strings.SuspiciousExactly | lib/ebl/string.cc:86-95 | the word test is non-zero if and only if one of its eight bytes is zero |
| Strings.WordTest | lib/ebl/string.cc:93-95 | the same for a word in memory |
| Strings.Strlen | lib/ebl/string.cc:79-109 | for every start alignment the length is the distance to the first zero byte |
| Strings.Strchr | lib/ebl/string.cc:135-139 | the first place of the byte, the terminator included, or none |
| Strings.Strncmp | lib/ebl/string.cc:112-122 | zero exactly for equal prefixes, else the difference of the first bytes that differ |
| Strings.Strstr | lib/ebl/string.cc:125-132 | the first occurrence; none only if there is none; the empty string is found at the end |
| Strings.OccursIsPrefix | lib/ebl/string.cc:129 | comparing as many bytes as the second string has decides whether it occurs there |
| Strings.Memmove | lib/ebl/string.cc:42-53 | the destination gets the old source bytes however the two overlap, and no other byte changes |
| NumberFormat.ReadNumeral | lib/ebl/stdio.cc:49-52 | the digits decode back to the number |
| NumberFormat.NumeralLength | lib/ebl/stdio.cc:42-43 | in base eight or more a number below 8^k has at most k digits |
| NumberFormat.Convert | lib/ebl/stdio.cc:42-52 | the conversion loop never leaves its 23-byte buffer, which ends up holding the digits lowest first |
| NumberFormat.Num | lib/ebl/stdio.cc:35-94 | the loops emit the one text that has the sign, the prefix and the digits asked for, padded as the flags say, and the result counts the characters |
| NumberFormat.PrintedParts | lib/ebl/stdio.cc:53-92 | the parts of the text: sign by the flags, prefix by the base, digits of the value in the case asked for, padding all zeros before the digits or all spaces in front or behind |
| NumberFormat.OneText | lib/ebl/stdio.cc:53-92 | two texts with such parts are the same |
| NumberFormat.SpacesOf | lib/ebl/stdio.cc:71-92 | padded with zeros the text has no space but a space sign; right-aligned it ends in no space; left-aligned it starts with none but a space sign |
| NumberFormat.CharactersOf | lib/ebl/stdio.cc:38-70 | a minus if and only if negative and signed, a plus if and only if asked for, no letter of the other case |
| NumberFormat.ScanPrinted | lib/ebl/stdio.cc:35-94 | a reader that knows only the base and the prefix gets the number back, for all flags, widths and precisions |
| NumberFormat.PrintedLength | lib/ebl/stdio.cc:53-69 | the length is the larger of width and sign, prefix and digits, plus the precision, if and only if no uncounted sign is printed into a filled width |
| Slabs.AlignUpIsLeast | core/include/core/slab.h:23-26 | the least multiple of 2^order at or above the value, without wrap |
| Slabs.SlabCache.constructor | core/include/core/slab.h:89-91 | a cache fits as many objects behind its header as the page takes |
| Slabs.SlabCache.LayoutCorrect | core/slab.cc:56-68 | for every colour the objects are aligned, apart and on the page, and every address inside one leads back to the page |
| Slabs.SlabCache.ColorsShift | core/slab.cc:62-68 | colour 0 starts behind the aligned header and every colour 2^order behind the one before |
| Slabs.SlabCache.ColorFitsExactly | core/slab.cc:59-61 | the colours are exactly those for which all objects and one more unit fit the page |
| Slabs.SlabCache.ColorsExist | core/slab.cc:59-61 | there is a colour if and only if the padding reaches 2^order, if and only if the objects do not fill the page |
| Slabs.SlabCache.SmallestHasNoColor | core/slab.cc:59-61 | objects of size 2^order leave no colour |
| Slabs.ColorsCycle | core/slab.cc:61-65 | any max_color consecutive slabs use every colour exactly once |
| Slabs.SlabCache.Create | core/slab.cc:47-83 | the chain from the first object meets each object once and ends in null, no other word is written, the next colour is taken |
| Slabs.SlabCache.FreePointerMissesChain | core/slab.cc:78-80 | the address the header gets is no object and heads no chain |
| Slabs.FindSlabOf | core/slab.cc:39 | every address on a page leads to the page |

## Left out

- LoaderMemory: RAM is a sequence of 64-bit words and the page lists are sequences of page numbers; the lists as linked nodes are `LinkedList`. Data on pages that are no tables is not followed, so boot's copying of the kernel's segments is left out.
- MapPageCorrect: flags keep bits 11 to 51 clear, and bit 7 too if a table has to be made, physical addresses are below 2^52, slot 511 is excluded, and the free pages taken lie below 4 GiB. `LoaderReadsBack` says why the last is needed and `MapPageTranslates` why bit 7 is.
- MapSinglePageCorrect: is about the documented order of indices; `WrittenMapsExactly` is about the written one. Stale translations cached by the processor are not modelled, and an access through an unmapped address ends the call.
- WrittenMapsExactly: bit 7 of the flags is clear, slot 511 is excluded, and the pages the call may take lie below 4 GiB and hold only zeros; `MapPageTranslates`, `LoaderReadsBack` and `UnzeroedTable` say why.
- WrittenSlotsReach: is about existing tables only.
- MapPagePermissions: the processor's control bits (write protection in kernel mode, execute-disable and user-access checks) are taken as switched on.
- RunsInEntry: memory map entries end at least a page below 2^64.
- `x86_64::map_pages`: its loop and its cleanup, which the source marks as incomplete.
- IntrusiveList: one list per node (N = 1), nodes never null, and a node that is inserted is in no other list. Other links of a node are not modelled.
- RefCount: counts are unbounded integers, and each atomic operation is one step; a list is the sequence of its elements and a mark for one that is broken, after which only operations that do not follow its links are enabled. Insertion before null, which leaks, is `RefHeap.InsertBefore` and `RefLists.LinkedWorld.PushNowhere` and no step of a run. Destroying an object does not run a destructor that drops further handles.
- FirstFitCondition: no sum of base, size, request and alignment reaches 2^64. `AnySizeCondition` is without the request, `UpperHalfCondition` without any bound; what is left open are regions of the lower half that end within one alignment of 2^64.
- RunsKeepChildren: the region ends more than one alignment below 2^64.
- KernelRootStartsAtZero: alignments up to 2^47, which the base of the root is a multiple of.
- VmRegion: children are a sequence and a flag for the dangling root; reference counts of regions are in `RefHeap`. The address space pointer and the backing object are not modelled, and neither are `does_overlap_child`, which nothing calls, and the stubs `allocate_vmr_sparse`, `map_pages` and `protect`.
- RegionRuns: the runs are those of a region at base 0.
- Scheduler: sections under the inner spinlock are single steps, and so is blocking up to the switch; `BlockingStep` splits that one. A CPU does nothing else between its two halves of blocking, as `thread_preempt` is never called. A CPU's run queue is only used by that CPU. Spinlocks, context switches, interrupts and memory order are not modelled.
- AllocContiguous: the memory map is a sequence of entries; reading multiboot structures is left out.
- Strlen: the 64-bit variant, on memory that is a whole number of words.
- Num: the smallest `long long` is excluded, its negation overflows; widths and counts are unbounded integers. Parsing of format strings is left out.
- SlabCache: the size of the header is a parameter, objects are one word of memory each at their first address, and the slab lists, `cache_alloc` and `cache_free` are left out, because they start from the free pointer that `FreePointerMissesChain` is about.
- ELF loading, consoles, multiboot parsing, descriptor tables and assembly are left out: raw casts and hardware.
