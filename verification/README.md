# A model of the SwinkOS memory manager and its libraries

This project models four parts of the kernel and proves properties of them.

**The page-frame allocator** (`kernel/machine/pmap/pmap_pfa.c`) is a buddy
allocator that keeps the same information twice: six doubly linked free lists
threaded through the free pages, and six bitmaps. `BuddyLevels`, `BuddySizes`,
`BuddyBlocks` and `BuddyBitmap` hold its arithmetic and the theory of sets of
aligned entries, whose main result is that every set of free pages has exactly
one coalesced form; `BuddyAlgorithm` has merging and cutting up on such sets.
`FreeLists` and `FreeBitmaps` are the two representations as classes over
linked nodes and arrays of 64-bit words, and `PageFrameAllocator` is the
allocator itself: init, allocation with splitting, freeing page by page with
merging, and metadata. `AllocatorSpec` says what a call does in terms of free
pages and metadata alone, `AllocatorRuns` proves what all sequences of calls
keep and restore, `AllocatorBoot` what stays reserved in all of them after
init, `AllocatorTests` turns the kernel's three allocator sweeps into programs
whose success is a postcondition, and `AllocatorLimits` gives the exact
conditions of the promises that hold only sometimes.

**The intrusive list** (`kernel/lib/list.c`): `IntrusiveList` has the links,
insertion, removal and splicing, `ListSort` the natural merge sort on the
nodes, `SortSpec` the sequence functions its passes compute with their
stability, order and cost, and `OrderedLists` reversal, ordered insertion and
the removal of adjacent duplicates. A ghost sequence says what the chain of
nodes is at each moment.

**Kernel page tables** (`kernel/machine/pmap/pmap_init.c`, `pmap.c`,
`pmap_asm.h`): `PageTables` has the entries bit by bit (`Bits`), the
three-level walk of the Arm Architecture Reference Manual (DDI 0487, VMSAv8-64
translation, 4 KB granule), and the invariant that the tables are a tree of
distinct pages of the arena. `TableUse` shows that the arena holds exactly the
tables that the mapping needs. `PageMapping` is the mapping loop with its kept
tables and carried indexes, proved against fresh walks for every page of the
address space. `KernelMap` is the boot sequence of five mappings and the
physmap translations.

**Two smaller cores.** `SpinLock` is the spin semaphore of `synchs.c` as a
step system for any number of threads, and `ConcurrentAllocator` applies it to
the allocator: each call is a section of many accesses to lists and bitmaps.
`PrintfText`, `PrintfFormat` and `PrintfParse` are the integer and string
formatters, the bounded buffer of `vsnprintf` and the conversion parser of
`stdio.c`, and `PrintfShape` and `PrintfSyntax` say, without their functions,
what is printed and what the texts of conversions mean (ISO/IEC 9899:2011,
sections 7.21.6.1 and 7.21.6.12).

Where the code differs from its comments, the model follows the code:

- `min_buddy_level_for_size` is described as the nearest level (lines 167-168
  of `pmap_pfa.c`). For requests of exactly 2, 4, 8 or 16 pages it is one level
  higher, so such a request can fail although an aligned run is free
  (`SearchLevelIsNearest`, `ServedWheneverItFits`, `TwoPagesCanFail`).
- `pmap_pfa_mds_require_range_type` is described as checking all pages of a
  range. It reads the first page each time, and its assertion refuses a range
  that reaches the last page (`RangeCheckIsRight`, `MixedRangeIsAccepted`,
  `LastPageIsRefused`).
- `pmap_pfa_init` frees the page that the reserved memory ends in when that end
  is not page aligned (`ReservedInEveryRun`, `UnalignedBootstrapFreesAPage`). The
  boot code always passes an aligned one (`TablesStayReserved`), but the pages of
  its tables are typed as kernel data, not as page tables.
- `list_splice` does not check that the target is outside the moved segment
  (`ListSplice`).
- `format_integer` pads twice when MINUS and ZERO are both set, which the parser
  prevents except for a negative `*` width (`FieldWidth`, `ParseConversion`).

The C code's nodes live in free pages. Here every page has one node, and the
bitmaps and metadata are arrays of their own. Locked sections are modelled
without the lock calls, which `SpinLock` and `ConcurrentAllocator` add.

## Model

| member | source | states |
|---|---|---|
| BuddyLevels.RootIsTheEntry | kernel/machine/pmap/pmap_pfa.c:209-212 | of the aligned entries of a level, exactly the one at the masked page id contains the page |
| BuddyLevels.BuddiesPair | kernel/machine/pmap/pmap_pfa.c:195-207 | the buddy of an aligned entry is another aligned entry, and its buddy is the first one again |
| BuddyLevels.BuddiesShareARoot | kernel/machine/pmap/pmap_pfa.c:195-212 | an entry and its buddy merge at the same page id: the lower of the two, with the other right behind it |
| BuddyLevels.BuddyIsTheOtherHalf | kernel/machine/pmap/pmap_pfa.c:195-212 | the pair of entries is exactly the two halves of the aligned entry one level up |
| BuddySizes.MaxLevelIsTheAlignment | kernel/machine/pmap/pmap_pfa.c:124-136 | the level from the trailing zeros is the highest one, up to the top, that the page id is aligned for |
| BuddySizes.MinBuddyLevelForSizeNoOverflow | kernel/machine/pmap/pmap_pfa.c:138-159 | the loop finds the largest level, up to the top, whose entries are not larger than the size |
| BuddySizes.SearchLevelIsSufficient | kernel/machine/pmap/pmap_pfa.c:161-177 | for every size the allocator accepts, an entry of the computed level holds the c pages and at most 2c |
| BuddySizes.SearchLevelIsNearest | kernel/machine/pmap/pmap_pfa.c:161-177 | the computed level is the nearest one, as its comment says, if and only if the request is not of 2, 4, 8 or 16 pages |
| BuddySizes.LargestRequest | kernel/machine/pmap/pmap_pfa.c:524-535 | the largest request that is served is exactly one entry of the top level |
| BuddyBlocks.NestOrDisjoint | kernel/machine/pmap/pmap_pfa.c:195-212 | two aligned entries nest or do not meet, and the masked page id tells which |
| BuddyBlocks.FullEntryIsInsideOne | kernel/machine/pmap/pmap_pfa.c:580-623 | in a coalesced set of free entries, an aligned run of free pages always lies inside a single entry |
| BuddyBlocks.EntriesAreTheMaximalOnes | kernel/machine/pmap/pmap_pfa.c:580-623 | the free entries are exactly the aligned runs of free pages whose parent run is not free as a whole |
| BuddyBlocks.CanonicalFormIsUnique | kernel/machine/pmap/pmap_pfa.c:443-522 | two coalesced sets of entries that cover the same pages are equal, entry by entry and level by level |
| BuddyBlocks.CanonicalFormExists | kernel/machine/pmap/pmap_pfa.c:443-522 | every set of pages has exactly one coalesced decomposition into entries: its maximal aligned runs |
| BuddyBlocks.MergeStep | kernel/machine/pmap/pmap_pfa.c:592-612 | taking a free buddy off and going on with the common root keeps every page: the entry in hand stays off all lists |
| BuddyBlocks.AddWithoutBuddy | kernel/machine/pmap/pmap_pfa.c:614-622 | adding an entry whose buddy is not free keeps the set coalesced |
| BuddyBlocks.GreedyEntryHasNoBuddy | kernel/machine/pmap/pmap_pfa.c:287-327 | cutting a run from left to right into the largest entries that fit never creates an entry whose buddy is free |
| BuddyBlocks.SearchFindsFreeRuns | kernel/machine/pmap/pmap_pfa.c:461-492 | the search through the lists from a level up succeeds if and only if some aligned run of that level is free, whatever the lists look like |
| BuddyBlocks.TailHasNoBuddy | kernel/machine/pmap/pmap_pfa.c:504-513 | the tail of a split entry can be returned without any merging |
| BuddyAlgorithm.MergeUpFrees | kernel/machine/pmap/pmap_pfa.c:584-622 | merging upwards from any entry that is not free ends coalesced and frees exactly its pages |
| BuddyAlgorithm.CutIntoInserts | kernel/machine/pmap/pmap_pfa.c:287-327 | cutting any run into the largest entries that fit, from left to right, ends coalesced and frees exactly the run, if nothing free has its buddy in the run |
| BuddyAlgorithm.CutRest | kernel/machine/pmap/pmap_pfa.c:494-513 | taking an entry off and cutting up its rest ends coalesced and takes exactly the first c pages |
| BuddyBitmap.SetThenGet | kernel/machine/pmap/pmap_pfa.c:253-271 | after a bit is written, that bit of the word reads as written and the other 63 as before |
| BuddyBitmap.DistinctBits | kernel/machine/pmap/pmap_pfa.c:234-251 | different entries of a level have different (word, bit) positions |
| BuddyBitmap.OneBitChanges | kernel/machine/pmap/pmap_pfa.c:253-262 | writing the bit of one entry changes the bit of no other entry of the level |
| BuddyBitmap.SetBit | kernel/machine/pmap/pmap_pfa.c:253-262 | the write to the bitmap sets exactly the bit of the given entry |
| BuddyBitmap.BitsAreAllocated | kernel/machine/pmap/pmap_pfa.c:214-221 | the word of every managed page exists at every level |
| BuddyBitmap.SlotCountIsLeast | kernel/machine/pmap/pmap_pfa.c:214-221 | and a level has no word more than its entries need bits for |
| BuddyBitmap.BuddyBitsAreAllocated | kernel/machine/pmap/pmap_pfa.c:214-251 | the bit of a buddy is in the same word as the entry's own, even when the buddy lies past the last managed page |
| FreeBitmaps.FreeBitmaps.Set | kernel/machine/pmap/pmap_pfa.c:253-262 | the bitmaps represent a set of (page, level) entries, and a write adds or removes exactly one of them |
| FreeBitmaps.FreeBitmaps.Get | kernel/machine/pmap/pmap_pfa.c:264-271 | a read says whether the entry is in the set |
| FreeLists.FreeLists.PushFront | kernel/machine/pmap/pmap_pfa.c:614-622 | the six lists threaded through the pages represent a set of entries, and linking a page in adds exactly one |
| FreeLists.FreeLists.Remove | kernel/machine/pmap/pmap_pfa.c:603-606 | unlinking a page from whichever list it is on removes exactly its entry |
| FreeLists.FreeLists.Size | kernel/machine/pmap/pmap_pfa.c:692-704 | the length of a list is the number of entries of its level |
| PageFrameAllocator.LargestLevel | kernel/machine/pmap/pmap_pfa.c:303-318 | the chosen entry is well formed, fits below the limit and could not be one level larger |
| PageFrameAllocator.Init | kernel/machine/pmap/pmap_pfa.c:329-431 | after init the invariant holds and the pages of text, data and reserved memory have their types; with an aligned boundary, a managed page is free iff it lies wholly behind the boundary, the 264 bytes of the header, the words of the six bitmaps and the metadata bytes of the very object returned, and every other one is typed as text or data |
| PageFrameAllocator.Pfa.ValidIsCanonical | kernel/machine/pmap/pmap_pfa.c:46-85 | the invariant (a page is on the list of a level iff its bit is set, entries aligned, in range, disjoint, no two free buddies) makes the state a canonical set of entries |
| PageFrameAllocator.Pfa.PutBlock | kernel/machine/pmap/pmap_pfa.c:614-622 | list and bitmap gain one entry together, and exactly its pages become free |
| PageFrameAllocator.Pfa.TakeBlock | kernel/machine/pmap/pmap_pfa.c:496-502 | list and bitmap lose one entry together, and exactly its pages stop being free |
| PageFrameAllocator.Pfa.InsertRangeFreed | kernel/machine/pmap/pmap_pfa.c:287-327 | exactly the given range becomes free, split greedily without merging, and the invariant holds afterwards |
| PageFrameAllocator.Pfa.MergeWithBuddy | kernel/machine/pmap/pmap_pfa.c:598-612 | the merge loop's step: buddy off list and bitmap, the merged entry in hand is well formed and on no list |
| PageFrameAllocator.Pfa.FreePage | kernel/machine/pmap/pmap_pfa.c:584-622 | freeing one page merges as far as possible: exactly this page becomes free, full coalescing is back, and the entries are those that merging on sets gives |
| PageFrameAllocator.Pfa.BuddyFreePages | kernel/machine/pmap/pmap_pfa.c:575-624 | exactly the given pages become free, with the invariant after each page |
| PageFrameAllocator.Pfa.FindEntry | kernel/machine/pmap/pmap_pfa.c:461-492 | the search finds the lowest level at or above the start with an entry, and nothing only if no aligned run is free |
| PageFrameAllocator.Pfa.TakePages | kernel/machine/pmap/pmap_pfa.c:494-513 | splitting an entry takes exactly the first c pages out of the free set and leaves the entries that cutting up the rest gives |
| PageFrameAllocator.Pfa.ApplyMetadataRange | kernel/machine/pmap/pmap_pfa.c:274-285 | exactly the metadata of the given pages is overwritten |
| PageFrameAllocator.Pfa.AllocContigSmall | kernel/machine/pmap/pmap_pfa.c:442-522 | an allocation takes exactly its pages, from the start of an entry of the lowest level that has one (a minimal entry), sets their metadata and nothing else, or changes nothing; it fails iff no aligned run of the search level is free |
| PageFrameAllocator.Pfa.AllocContig | kernel/machine/pmap/pmap_pfa.c:524-545 | the same for every size: requests over 128K fail |
| AllocatorSpec.OtherEntriesStay | kernel/machine/pmap/pmap_pfa.c:451-513 | an allocation cuts up one free entry, of the lowest level that can serve it; every other free entry is still whole |
| PageFrameAllocator.Pfa.FreeContig | kernel/machine/pmap/pmap_pfa.c:625-641 | exactly the pages of the range become free and no metadata changes |
| PageFrameAllocator.Pfa.GetState | kernel/machine/pmap/pmap_pfa.c:692-704 | reports the number of free entries of every level |
| AllocatorRuns.EveryStateConserves | kernel/machine/pmap/pmap_pfa.c:524-641 | after any calls in any order: free and held pages together are the initial ones, held chunks are disjoint, the metadata of each is what it was given, and that of a page that was not free at first never changes |
| AllocatorRuns.HeldChunksCanBeFreed | kernel/machine/pmap/pmap_pfa.c:625-641 | in every reachable state a held allocation satisfies the precondition of free |
| AllocatorRuns.FreeingEverythingRestores | kernel/machine/pmap/pmap_pfa.c:443-623 | once nothing is held, the free entries of every level are exactly those of the start, whatever the order of the calls |
| AllocatorBoot.BootAndExecute | kernel/machine/pmap/pmap_pfa.c:329-641 | init and any script of calls on the real data structures: every call is performed, every state is one of a run from init, and the invariant holds |
| AllocatorBoot.ReservedPagesStayReserved | kernel/machine/pmap/pmap_pfa.c:344-397 | no reserved page is freed by init if and only if the bootstrap allocations end on a page boundary or nothing is left to free |
| AllocatorBoot.ReservedInEveryRun | kernel/machine/pmap/pmap_pfa.c:344-431 | under exactly that condition no reserved page is free or held at any point of any run from init |
| AllocatorBoot.ReservedPagesKeepTheirType | kernel/machine/pmap/pmap_pfa.c:399-431 | with an aligned boundary, in every state of every run from init a reserved page has the type init gave it: text stays text, the rest data |
| AllocatorBoot.UnalignedBootstrapFreesAPage | kernel/machine/pmap/pmap_pfa.c:391-397 | the failing input: one byte of bootstrap memory, and page 1 is both reserved and free |
| AllocatorLimits.UpperHalfIsFree | kernel/machine/pmap/pmap_pfa.c:329-431 | init on 2^(l+1) pages can leave exactly the upper half free, for every level below the top |
| AllocatorLimits.ServedWheneverItFits | kernel/machine/pmap/pmap_pfa.c:161-177 | a request is served in every state reachable from init with an aligned run of the nearest level free, if and only if it is not of 2, 4, 8 or 16 pages |
| AllocatorLimits.TwoPagesCanFail | kernel/machine/pmap/pmap_pfa.c:461-492 | the failing input, reachable from init: pages 2 and 3 free, a request for two pages, and no allocation |
| AllocatorLimits.RequireRangeType | kernel/machine/pmap/pmap_pfa.c:554-573 | what the range check computes, including the strict bound of its assertion and the page it rereads |
| AllocatorLimits.RangeCheckIsRight | kernel/machine/pmap/pmap_pfa.c:554-573 | the check gives the documented verdict whatever the metadata if and only if it is asked for at most one page and the range does not reach the last page |
| AllocatorLimits.MixedRangeIsAccepted | kernel/machine/pmap/pmap_pfa.c:554-573 | a failing input, reachable from init: two neighbouring allocations of different types, accepted as one type |
| AllocatorLimits.LastPageIsRefused | kernel/machine/pmap/pmap_pfa.c:554-573 | the other failing input, reachable from init: an allocation that ends with the last page, refused for its own type |
| AllocatorLimits.RangeCheckInsideAllocation | kernel/machine/pmap/pmap_pfa.c:554-573 | for a range inside one held allocation, in every reachable state, the check is wrong exactly when the range ends with the last page and is of the asked type or empty |
| AllocatorTests.AllocateOne | kernel/machine/pmap/pmap_pfa.c:443-522 | a one-page request gets a page that was free, and fails iff none is |
| AllocatorTests.AllocateEverything | kernel/testing/tests/test_pmap_pfa.c:90-117 | repeated one-page allocation hands out every free page exactly once and then fails |
| AllocatorTests.FreeEach | kernel/testing/tests/test_pmap_pfa.c:119-129 | freeing distinct allocated pages in any order adds exactly them |
| AllocatorTests.OomSweep | kernel/testing/tests/test_pmap_pfa.c:90-138 | the sweep hands out every free page once and ends with the very entries it started from |
| AllocatorTests.SimpleSweep | kernel/testing/tests/test_pmap_pfa.c:26-41 | allocating and freeing any list of sizes in turn restores the entries of every level, and passes iff every request is served; one free run of the top level is enough |
| AllocatorTests.Execute | kernel/machine/pmap/pmap_pfa.c:524-641 | any script of calls on the real data structures: each call does what it promises with the result it reports, the states are a run of the specification, and the invariant holds |
| AllocatorTests.MultiSweep | kernel/testing/tests/test_pmap_pfa.c:43-82 | any script, each of its calls performed, that ends with nothing held restores the entries of every level |
| IntrusiveList.ListInsert | kernel/lib/list.c:144-152 | inserting before a node puts the element at that place of the chain |
| IntrusiveList.ListRemove | kernel/lib/list.c:215-220 | removing a node leaves the rest of the chain, in order |
| IntrusiveList.ListSplice | kernel/lib/list.c:157-175 | splicing within a list moves the segment just before the given node and keeps a well-formed chain if that node is not in the segment; if it is, no well-formed list contains it afterwards, so the condition is exact |
| IntrusiveList.ListSpliceAcross | kernel/lib/list.c:157-175 | splicing between two lists takes the segment out of the one and puts it into the other, in order, both well formed |
| IntrusiveList.List.PushFront | kernel/lib/list.c:179-181 | the element becomes the first |
| IntrusiveList.List.PushBack | kernel/lib/list.c:185-187 | the element becomes the last |
| IntrusiveList.List.Remove | kernel/lib/list.c:215-220 | exactly that element leaves the list |
| IntrusiveList.List.Size | kernel/lib/list.c:254-261 | counts the elements |
| OrderedLists.Reverse | kernel/lib/list.c:274-283 | the list holds the same nodes in the opposite order, linked both ways, for every length |
| Sequences.ReversedAt | kernel/lib/list.c:271-283 | what the opposite order is, element by element |
| OrderedLists.InsertOrdered | kernel/lib/list.c:376-387 | the element goes after everything it is not less than |
| SortSpec.InsertSorts | kernel/lib/list.c:372-387 | ordered insertion keeps a sorted list sorted |
| SortSpec.InsertIsStable | kernel/lib/list.c:372-387 | the inserted element comes after those equivalent to it |
| OrderedLists.RemoveDuplicates | kernel/lib/list.c:389-409 | for any list and strict weak order: the first element of each group of adjacent equivalent ones stays, the others go to the end of the list of duplicates in order; both lists stay well formed and separate |
| OrderedLists.UniquePermutes | kernel/lib/list.c:389-409 | no element is lost or doubled, whatever the order of the list |
| OrderedLists.UniqueNeighboursDiffer | kernel/lib/list.c:389-409 | no two neighbours that stay are equivalent |
| OrderedLists.UniqueKeepsGroupStarts | kernel/lib/list.c:389-409 | comparing with the last kept element, as the loop does, keeps exactly the elements not equivalent to the one right before them and drops the equivalent ones, whatever the order of the list |
| OrderedLists.UniqueKeepsFirsts | kernel/lib/list.c:389-409 | on a sorted list the first of every class of equivalent elements stays and the others go, in order |
| ListSort.FindEndOfRun | kernel/lib/list.c:300-311 | the end of the maximal nondecreasing run, with at most one comparison per element of it |
| ListSort.InplaceMerge | kernel/lib/list.c:318-334 | two adjacent runs of nodes become their stable merge, in place, with at most one comparison per node |
| SortSpec.MergeSorts | kernel/lib/list.c:313-334 | the merge of sorted runs is sorted |
| SortSpec.MergePermutes | kernel/lib/list.c:313-334 | the merge has the elements of both runs |
| SortSpec.MergeIsStable | kernel/lib/list.c:313-334 | equivalent elements keep their order, those of the first run first |
| ListSort.SortPass | kernel/lib/list.c:352-366 | a pass turns the list into Pass of it and reports its number of output runs, with at most 2n comparisons |
| SortSpec.RunEndIsFirstDescent | kernel/lib/list.c:300-311 | a run ends at the first element less than the one before it |
| SortSpec.RunsAreDescents | kernel/lib/list.c:336-370 | a list has one run more than it has such elements |
| SortSpec.PassHalvesRuns | kernel/lib/list.c:352-366 | a pass outputs half as many runs as there were, rounded up, and leaves no more than that |
| SortSpec.PassPermutes | kernel/lib/list.c:352-366 | a pass permutes the elements |
| SortSpec.PassIsStable | kernel/lib/list.c:352-366 | a pass keeps equivalent elements in order |
| SortSpec.StableSortIsUnique | kernel/lib/list.c:336-370 | a stable sorted permutation is unique |
| SortSpec.InsertionSortSorts | kernel/lib/list.c:336-370 | insertion sort, the reference, is sorted, a permutation, and stable |
| ListSort.Sort | kernel/lib/list.c:336-370 | the list ends as the one stable sorted arrangement of its nodes, linked both ways, after at most max(1, ceil(log2 r)) passes for r initial runs and 2n comparisons each |
| Bits.AndMask | kernel/machine/pmap/pmap_asm.h:41-43 | masking a field of consecutive bits is division, remainder and multiplication by powers of two |
| PageTables.EntryRoundTrip | kernel/machine/pmap/pmap_asm.h:41-43 | an entry keeps its type bits and every attribute outside the address field, and gives its output address back if and only if that is page aligned and below 2^47 |
| PageTables.ValidBits | kernel/machine/pmap/pmap_init.c:47-55 | pte_to_phys_addr of a valid entry is its output address and never the invalid marker, so the lookup can tell them apart |
| PageTables.IndexesOfAddress | kernel/machine/pmap/pmap_init.c:28-45 | the three indexes of an address are the digits of its page number in base 512 |
| PageTables.NextIndexes | kernel/machine/pmap/pmap_init.c:139-154 | the carry of the mapping loop gives the indexes of the next page |
| PageTables.SlotsDiffer | kernel/machine/pmap/pmap_init.c:81-90 | entries of different tables, or different entries of one, are at different addresses |
| PageTables.WalkPath | kernel/machine/pmap/pmap_init.c:76-93 | in a tree of tables every walk passes through the tables of its own indexes and ends in a page or a fault |
| PageTables.StoreLeaf | kernel/machine/pmap/pmap_init.c:134-137 | writing an entry into the table that a page's walk reaches changes the translation of that page alone and keeps the tree |
| PageTables.LinkTable | kernel/machine/pmap/pmap_init.c:87-92 | linking a new empty table into an empty entry changes no translation and keeps the tree of distinct pages |
| PageTables.SameTables | kernel/machine/pmap/pmap_init.c:61-67 | writes outside the tables change no translation |
| PageMapping.MemsetFills | kernel/machine/pmap/pmap_init.c:61-67 | the new page is filled and nothing outside it changes |
| PageMapping.Pmap.constructor | kernel/machine/pmap/pmap_init.c:182-189 | the kernel pmap starts as an empty root table at the start of the arena, with nothing mapped and no memory outside that page changed |
| PageMapping.Pmap.AllocationPtrPageAlloc | kernel/machine/pmap/pmap_init.c:57-67 | hands out the next page of the arena, cleared |
| PageMapping.Pmap.TableLookupAllocating | kernel/machine/pmap/pmap_init.c:69-93 | returns the table an entry leads to, making it exactly if there is none, with an entry of the given template, and without changing any translation, valid entry or table |
| PageMapping.Pmap.FindTables | kernel/machine/pmap/pmap_init.c:121-132 | the kept tables, where they are valid, and the looked up ones are the tables of a fresh walk to the current page |
| PageMapping.Pmap.MapPage | kernel/machine/pmap/pmap_init.c:121-137 | one page is mapped as asked and all others translate as before; the assertion fails iff the page was mapped |
| PageMapping.Advance | kernel/machine/pmap/pmap_init.c:139-154 | the indexes become those of the next page, a kept table is forgotten exactly when its part of the walk changes, and the rollover is noticed exactly at the end of the address space |
| PageMapping.Pmap.MapPages | kernel/machine/pmap/pmap_init.c:119-156 | the loop keeps the fresh-walk agreement and maps a prefix of the pages, all of which were unmapped before |
| TableUse.TablesAreNeeded | kernel/machine/pmap/pmap_init.c:69-132 | a place of the tree has a table if and only if it is the root or on the way to a page that is mapped |
| TableUse.ArenaIsExact | kernel/machine/pmap/pmap_init.c:57-93 | the arena has grown by exactly one page for each table that the mapping needs: none is wasted and no place has two |
| PageMapping.Pmap.VmInitMapContiguous | kernel/machine/pmap/pmap_init.c:95-157 | for every page of the address space: the requested pages translate to their frames with the template, all others as before; it does not panic if and only if all pages were unmapped and fit the address space; the tables are distinct pages of the arena, exactly as many as the mapping needs and linked with the kernel table template, and no word outside it changes, even on a panic |
| KernelMap.KernelTemplates | kernel/machine/pmap/pmap_asm.h:80-155 | each template is the sum of the attribute fields that its macro composes, leaves the address field alone and marks a valid page |
| KernelMap.FreeIffDisjoint | kernel/machine/pmap/pmap_init.c:134-137 | a mapping call meets only unmapped pages if and only if its range is disjoint from all ranges mapped before |
| KernelMap.MapRegion | kernel/machine/pmap/pmap_init.c:191-245 | a mapping call of the boot code does not panic iff its range fits, and then every page translates as the ranges so far say |
| KernelMap.PmapVmInit | kernel/machine/pmap/pmap_init.c:182-245 | the five mappings do not panic iff they fit one after the other, and then they are exactly the translations of the kernel tables and the arena has grown by exactly the tables they need; no memory outside the arena changes either way |
| KernelMap.BootSucceeds | kernel/machine/pmap/pmap_init.c:191-245 | for any page-aligned image below the physmap and any RAM size of 32 bits: no panic if and only if RAM, in whole pages, ends below the I/O region |
| KernelMap.PhysmapEndsAddressSpace | kernel/machine/pmap/pmap_init.c:223-229 | with RAM up to the end of the I/O region the physmap ends exactly with the address space; in general it starts at the last L1 entry from which RAM fits |
| KernelMap.PhysmapIsIdentity | kernel/machine/pmap/pmap.c:30-42 | for every pa in RAM or I/O, the walk of pmap_pa_to_kva(pa) yields pa with the right attributes and pmap_physmap_kva_to_pa inverts it; the gap between them faults |
| KernelMap.PhysmapRoundTrip | kernel/machine/pmap/pmap.c:30-42 | on every address it does not refuse, the inverse translation is undone by pmap_pa_to_kva; a refused address is in no physmap |
| KernelMap.KernelImageIsMapped | kernel/machine/pmap/pmap_init.c:171-214 | every address of text, read-only and writable data translates to its place in the loaded image, with its own attributes |
| KernelMap.TablesStayReserved | kernel/machine/pmap/pmap_init.c:256-270 | in every state of every run of calls after init, no page of the kernel tables is free or held by a caller, and it has the type that init gave it |
| KernelMap.PmapVmInitWhole | kernel/machine/pmap/pmap_init.c:182-271 | the mappings and then the allocator init with what they leave: the tables are exact, the allocator is valid, no later calls ever put a table page into circulation, and the pages that text addresses translate to are typed as text, those of data and all others below the arena pointer as data |
| SpinLock.StepKeepsBalance | kernel/machine/synchronization/synchs.c:8-42 | each atomic step, spurious failures included, keeps value + holders |
| SpinLock.SemaphoreConserves | kernel/machine/synchronization/synchs.c:8-42 | in every execution of any number of threads, value + holders is the initial value and the counter never wraps |
| SpinLock.MutualExclusion | kernel/machine/synchronization/synchs.c:49-59 | at most one thread holds a lock |
| SpinLock.EveryStateIsSerial | kernel/machine/synchronization/synchs.c:49-59 | the shared data is always that of the complete sections run one after the other, then the holder's part: no update is lost |
| SpinLock.EverySectionIsLegal | kernel/machine/synchronization/synchs.c:49-59 | what holds of the data a section finds when it gets the lock holds at its place in that serial order |
| SpinLock.KeptWhenFree | kernel/machine/synchronization/synchs.c:49-59 | in every execution of any threads: what every section keeps when run alone holds of the shared data whenever nobody holds the lock |
| SpinLock.CanTakeSlot | kernel/machine/synchronization/synchs.c:12-38 | whenever a slot is left, a waiting thread can take it in two steps of its own |
| SpinLock.CallsStay | kernel/machine/synchronization/synchs.c:12-59 | a thread with a call keeps it, through failed exchanges too, until its section is complete and it releases the lock |
| SpinLock.NobodyIsStuck | kernel/machine/synchronization/synchs.c:12-59 | a thread with a call can always take a step of its own |
| SpinLock.EveryCallCounts | kernel/machine/synchronization/synchs.c:12-59 | in every execution the calls made are, as a multiset, the completed sections and those still under way: none is lost and none runs twice |
| ConcurrentAllocator.AllocPerforms | kernel/machine/pmap/pmap_pfa.c:442-522 | the accesses of an allocation (unlink an entry of the lowest non-empty list, whichever is at its front, clear its bit, link and mark its tail entry by entry, set metadata), run without interruption, are one allocation call and keep the buddy invariant |
| ConcurrentAllocator.PageReturns | kernel/machine/pmap/pmap_pfa.c:584-622 | the accesses that free one page (read and clear the buddy bit, unlink the buddy, link and mark the merged entry) leave on lists and in bitmaps what merging on sets gives |
| ConcurrentAllocator.FreePerforms | kernel/machine/pmap/pmap_pfa.c:575-641 | the accesses of a free, page by page, are one free call and keep the buddy invariant |
| ConcurrentAllocator.PagesInHandAreMissing | kernel/machine/pmap/pmap_pfa.c:496-513 | in the middle of an allocation lists and bitmaps disagree and conservation does not hold, so the lock is needed |
| ConcurrentAllocator.AtRestWhenFree | kernel/machine/pmap/pmap_pfa.c:525-641 | for any threads making any calls, interleaved access by access: whenever nobody holds the lock an entry is on its list iff its bit is set, whatever can merge has merged, no page is lost or handed out twice, and metadata is as given |
| ConcurrentAllocator.ConcurrentCallsAreARun | kernel/machine/pmap/pmap_pfa.c:525-641 | in any such interleaving each completed call does what it promises, in the order of the releases, as a sequential run, and whenever nobody holds the lock the memory is the one canonical form of the state this run leaves |
| ConcurrentAllocator.ReservedWhenFree | kernel/machine/pmap/pmap_pfa.c:344-641 | starting from what init leaves with an aligned boundary, reserved pages stay out of circulation and keep their type under any interleaving |
| PrintfText.FieldWidth | kernel/lib/stdio.c:512-531 | the printed length is the larger of width and text, if and only if not both MINUS and ZERO are set with a larger width; in that case the padding is output twice |
| PrintfText.ReadNumeral | kernel/lib/stdio.c:488-499 | the digits of a value read back as the value, in every base |
| PrintfText.ReadGrouped | kernel/lib/stdio.c:493-496 | the commas of the GROUP flag do not change what is read |
| PrintfText.IntegerRoundTrip | kernel/lib/stdio.c:453-532 | reading back a printed integer, past padding, sign, prefix and commas, gives sign and value, for every value, base, width, precision and flags |
| PrintfShape.GroupsHaveCommas | kernel/lib/stdio.c:488-499 | the commas of a grouped numeral stand after every 3 (or 4) digits, counted from the right |
| PrintfShape.TextShape | kernel/lib/stdio.c:460-532 | the text is, from left to right: padding spaces, sign, 0x or 0X of a nonzero number in base 16 with #, padding zeros, zeros up to the precision or the octal zero, the digits without a leading zero, padding spaces; with the padding on the side the flags ask for |
| PrintfFormat.GroupedCons | kernel/lib/stdio.c:494-496 | a comma goes in exactly when the digits so far are whole groups |
| PrintfFormat.FillDigits | kernel/lib/stdio.c:491-499 | the digit loop leaves the grouped numeral, reversed, in at most 29 characters for any 64-bit value |
| PrintfFormat.FillBody | kernel/lib/stdio.c:488-510 | digits, precision zeros and the octal zero stay within the 64-byte buffer and are the body of the number, reversed |
| PrintfFormat.BoundedOutput.FormatInteger | kernel/lib/stdio.c:460-532 | outputs exactly the text of the number |
| PrintfFormat.BoundedOutput.FormatString | kernel/lib/stdio.c:540-552 | outputs the string padded to the width, on the side the MINUS flag says |
| PrintfFormat.BoundedOutput.PutRepeated | kernel/lib/stdio.c:535-538 | outputs the character that many times |
| PrintfFormat.BoundedOutput.Put | kernel/lib/stdio.c:42-47 | whatever is output, the buffer holds the longest prefix that fits and the rest of it is untouched |
| PrintfFormat.BoundedOutput.Finish | kernel/lib/stdio.c:24-39 | the buffer ends as the longest prefix that fits buf_size - 1 and a NUL, nothing else is written, and the full length is returned |
| PrintfParse.ParseFlags | kernel/lib/stdio.c:349-375 | the flags are those whose characters stand at the start |
| PrintfParse.ParseConversion | kernel/lib/stdio.c:343-451 | width, precision, flags, type and end of a conversion; PLUS cancels SPACE, MINUS and a precision cancel ZERO, so MINUS and ZERO survive together exactly for a negative * width after a 0 flag without a - flag and a precision |
| PrintfParse.ArgumentPrinted | kernel/lib/stdio.c:165-291 | the text of an argument reads back in base 10, 8 or 16, by the letter, as the number of the argument |
| PrintfParse.SnprintfInteger | kernel/lib/stdio.c:24-47 | from format text and argument to buffer: with room, the buffer reads back as the number in the argument; without, it holds the longest prefix; its length differs from the field width iff a negative * width pads twice, which is never so for %p |
| PrintfSyntax.ParsesBack | kernel/lib/stdio.c:343-451 | any flags, width, precision, size and letter, written one after the other, are parsed back into just these, with the numbers as base 10 reads them |
| PrintfSyntax.PrintsTheArgument | kernel/lib/stdio.c:165-291 | for a conversion of any such parts, what is printed reads back in the base of the letter as the argument modulo 2^8, 2^16, 2^32 or 2^64, by hh, h, none or any other size, in two's complement for d and i, and uncut for p |
| PrintfSyntax.PrintedParts | kernel/lib/stdio.c:165-291 | what is printed for each letter, part by part: + and space signs of d and i alone, 0x for any nonzero pointer, the case of the digits and of the x, commas every 3 digits or 4 in base 16 |

## Left out

- Byte layout: the placement of the allocator's header, bitmaps and metadata in one region (the bitmaps start at the header size and the metadata at the bitmap size, so they overlap in the code), and pointer casts such as `list_entry`.
- A nonzero `ram_base`: page ids start at 0, as on this platform; page ids stay below 2^20 because addresses are computed in 32 bits.
- PageFrameAllocator.Pfa.AllocContigSmall: which of several free entries of the lowest level is taken, and the order within a free list, are not stated; the lists' order is not promised by the code either.
- PageFrameAllocator.Pfa.FreeContig: double frees and ranges that are not allocated are outside its precondition, as they are undefined in the code; runs of calls free whole allocations.
- FreeLists.FreeLists.PushFront: states the set of entries, not the position in the list.
- AllocatorRuns.EveryStateConserves: starts from states with nothing held; allocations of no pages leave nothing to hold.
- ListSort.Sort: `less` must be a strict weak order on the elements; the ASSERTs that runs are sorted are not executed, and their comparisons are not counted.
- OrderedLists.RemoveDuplicates: the list of duplicates is another list, or absent.
- `list_min`, `list_max`, `list_pop_front`, `list_pop_back`, backward iteration and the assertions on the kind of an element: easy members beside the ones here.
- PageMapping.Pmap.VmInitMapContiguous: the arena pointer must be page aligned with room below 2^47 for two tables a page, which the 40-bit physical addresses of the platform give; the order of the tables in the arena is not stated.
- The TTBR select bit that `va_to_phys_indexes` returns (no caller uses it), addresses outside the 39-bit space, block entries other than as a result of a walk, and what the attribute bits permit.
- A word of memory that was never written holds an unknown value; there is no model of caches, TLBs or the switch of the translation base register.
- KernelMap.PmapVmInitWhole: what `pmap_pfa_init` does when the tables and its own data do not fit into RAM, or the kernel image lies outside, is not modelled.
- KernelMap.BootSucceeds: the image must end below the last 4 GB of the address space and RAM sizes have 32 bits, as the firmware reports them.
- SpinLock.SemaphoreConserves: sequentially consistent steps, no weak memory ordering; only holders release; fairness is not modelled, and `CanTakeSlot` says only that a waiting thread is never stuck while a slot is left.
- ConcurrentAllocator.ConcurrentCallsAreARun: linking or unlinking an entry, a bit of a bitmap and the metadata of a range are one access each; the order of the lists is not kept, so any entry of the lowest non-empty list may be the one found; the free of a chunk that nobody holds does nothing.
- AllocatorTests.SimpleSweep: what freeing the invalid address of a failed request does is undefined, so the sweep ends there.
- PrintfFormat.BoundedOutput.Finish: lengths are unbounded integers, where the code counts in `int`; so are widths and precisions of PrintfParse.ParseConversion, whose `*` arguments are parameters.
- PrintfParse.SnprintfInteger: the format is one integer conversion after its `%`, and its argument is given as the 64 bits that `va_arg` reads.
- The loop of `__vprintf` over a whole format, the `%c` and `%f` conversions and the console.
- Device and console I/O, assembly, exception handling, debug dumps, and the string and character helpers.
