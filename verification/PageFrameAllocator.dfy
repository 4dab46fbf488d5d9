/**
 The page-frame allocator and its metadata store
 (kernel/machine/pmap/pmap_pfa.c), with page_base 0 as on this platform.
 */
module PageFrameAllocator {
  import opened Bits
  import opened Pages
  import opened BuddyLevels
  import opened BuddySizes
  import opened BuddyBlocks
  import opened BuddyAlgorithm
  import opened AllocatorSpec
  import opened BuddyBitmap
  import opened FreeBitmaps
  import opened FreeLists

  /** sizeof(struct pmap_pfa) on the 64-bit target. */
  const PFA_STRUCT_SIZE: nat := 264

  /** The bytes of the bitmaps of levels `level` and up (pmap_pfa.c:223-232). */
  function BitmapBytesFrom(pageCount: nat, level: nat): (r: nat)
    requires level <= BUDDY_LEVELS
    decreases BUDDY_LEVELS - level
  {
    if level == BUDDY_LEVELS then 0 else 8 * SlotCount(pageCount, level) + BitmapBytesFrom(pageCount, level + 1)
  }

  /** The bytes, in whole pages, that the allocator reserves for itself (pmap_pfa.c:340-354). */
  function RequiredBytes(pageCount: nat): (r: nat) {
    RoundUp(PFA_STRUCT_SIZE + BitmapBytesFrom(pageCount, 0) + pageCount, PAGE_SIZE)
  }

  /** `page << PAGE_SHIFT` in the 32 bits of pageId_t. */
  function PageIdToPa32(page: nat): (r: nat) {
    page * PAGE_SIZE % TWO_TO_32
  }

  /** The level chosen for the next entry of a free range is the largest one that fits. */
  lemma GreedyEntryFits(start: nat, limit: nat, sizeLevel: nat, level: nat)
    requires start < limit && sizeLevel <= TOP_LEVEL
    requires sizeLevel > 0 ==> Pow2(sizeLevel) <= limit - start
    requires sizeLevel < TOP_LEVEL ==> limit - start < Pow2(sizeLevel + 1)
    requires level == if MaxLevelForPageAlignment(start) < sizeLevel then MaxLevelForPageAlignment(start) else sizeLevel
    ensures Block(start, level).WellFormed() && Block(start, level).End() <= limit
    ensures CannotGrow(Block(start, level), limit)
  {
    MaxLevelIsTheAlignment(start, level);
    if level < TOP_LEVEL {
      MaxLevelIsTheAlignment(start, level + 1);
    }
    LevelsGrow(level, sizeLevel);
  }

  /** The level of the next entry of a free range (pmap_pfa.c:313-316). */
  method LargestLevel(start: nat, limit: nat) returns (level: nat)
    requires start < limit < PAGE_ID_LIMIT
    ensures Block(start, level).WellFormed() && Block(start, level).End() <= limit
    ensures CannotGrow(Block(start, level), limit)
  {
    var sizeLevel := MinBuddyLevelForSizeNoOverflow(PageIdToPa32(limit - start));
    var alignLevel := MaxLevelForPageAlignment(start);
    level := if alignLevel < sizeLevel then alignLevel else sizeLevel;
    GreedyEntryFits(start, limit, sizeLevel, level);
  }

  class Pfa {
    const pageCount: nat
    const lists: FreeLists
    const bitmaps: FreeBitmaps
    const metadata: array<Metadata>
    /** The free entries of all levels, and the pages they cover. */
    ghost var blocks: set<Block>
    ghost var free: set<nat>
    ghost const repr: set<object>

    ghost predicate Shape() {
      && pageCount < PAGE_ID_LIMIT
      && |lists.entries| == bitmaps.pageCount == metadata.Length == pageCount
      && this in repr && metadata in repr && lists in repr && bitmaps in repr
      && this !in lists.repr && this !in bitmaps.repr
      && lists.repr <= repr && bitmaps.repr <= repr
      && lists.repr !! bitmaps.repr && metadata !in lists.repr && metadata !in bitmaps.repr
      && lists in lists.repr && bitmaps in bitmaps.repr
    }

    /** Lists and bitmaps agree on a set of aligned, disjoint, managed free entries. */
    ghost predicate Represents()
      reads repr
    {
      && Shape() && lists.Valid() && bitmaps.Valid()
      && lists.blocks == bitmaps.free == blocks
      && Placed(blocks, pageCount) && free == PagesOf(blocks)
    }

    /** The buddy invariant: besides, whatever can merge has merged. */
    ghost predicate Valid()
      reads repr
    {
      Represents() && Coalesced(blocks)
    }

    lemma ValidIsCanonical()
      requires Valid()
      ensures Canonical(blocks) && PagesOf(blocks) == free && metadata.Length == pageCount
      ensures forall p :: p in free ==> p < pageCount
    {
      forall b, q | b in blocks && q in b.Pages()
        ensures q < pageCount
      {
        assert b.Contains(q);
      }
    }

    /** The pages decide the entries. */
    lemma HasForm(form: set<Block>)
      requires Valid() && Placed(form, pageCount) && Coalesced(form) && PagesOf(form) == free
      ensures blocks == form
    {
      CanonicalFormIsUnique(blocks, form);
    }

    lemma MergedPage(page: nat) returns (merged: set<Block>)
      requires Valid() && page < pageCount && page !in free
      ensures merged == MergeUp(blocks, Block(page, 0))
      ensures Placed(merged, pageCount) && Coalesced(merged) && PagesOf(merged) == free + {page}
    {
      hide FreeLists.Valid, FreeBitmaps.Valid, MergeUp, PagesOf;
      SinglePage(page);
      MergeUpFrees(blocks, Block(page, 0), pageCount);
      merged := MergeUp(blocks, Block(page, 0));
    }

    lemma RestOf(page: nat, level: nat, count: nat) returns (rest: set<Block>)
      requires Valid() && Block(page, level) in blocks && count <= Pow2(level)
      ensures rest == CutInto(blocks - {Block(page, level)}, page + count, page + Pow2(level))
      ensures Placed(rest, pageCount) && Coalesced(rest)
      ensures PagesOf(rest) == free - PageRange(page, page + count)
    {
      hide FreeLists.Valid, FreeBitmaps.Valid, CutInto, PagesOf, PageRange;
      CutRest(blocks, Block(page, level), count, pageCount);
      rest := CutInto(blocks - {Block(page, level)}, page + count, page + Pow2(level));
    }

    /** The bytes of the allocator's own data: its header, the words of the six bitmaps, and a byte for each page. */
    ghost function OwnBytes(): (r: nat)
      requires |bitmaps.buddyBitmaps| == 6
    {
      var b := bitmaps.buddyBitmaps;
      264 + 8 * (b[0].Length + b[1].Length + b[2].Length + b[3].Length + b[4].Length + b[5].Length) + metadata.Length
    }

    /** Everything allocated: empty lists, and bitmaps of zeroes (pmap_pfa.c:335-389). */
    constructor Empty(pageCount: nat)
      requires pageCount < PAGE_ID_LIMIT
      ensures Valid() && fresh(repr) && this.pageCount == pageCount && free == {} && blocks == {}
    {
      var ls := new FreeLists(pageCount);
      var bs := new FreeBitmaps(pageCount);
      var md := new Metadata[pageCount];
      this.pageCount := pageCount;
      lists, bitmaps, metadata := ls, bs, md;
      blocks, free := {}, {};
      repr := {this, md} + ls.repr + bs.repr;
    }

    /** Links a page into a level's list and marks it free in the level's bitmap. */
    method PutBlock(page: nat, level: nat)
      requires Represents() && Block(page, level).WellFormed() && Block(page, level).End() <= pageCount
      requires Block(page, level).Pages() !! free
      modifies this, lists.repr, bitmaps.repr
      ensures Represents() && blocks == old(blocks) + {Block(page, level)}
      ensures free == old(free) + Block(page, level).Pages()
      ensures old(Valid()) && (level < TOP_LEVEL ==> Buddy(Block(page, level)) !in old(blocks)) ==> Valid()
    {
      if Valid() && (level < TOP_LEVEL ==> Buddy(Block(page, level)) !in blocks) {
        AddWithoutBuddy(blocks, Block(page, level));
      }
      AddEntry(blocks, Block(page, level), pageCount);
      BitsAreAllocated(page, level, pageCount);
      lists.PushFront(page, level);
      bitmaps.Set(page, level, true);
      blocks := blocks + {Block(page, level)};
      free := free + Block(page, level).Pages();
    }

    /** Unlinks a page from a level's list and marks it allocated in the level's bitmap. */
    method TakeBlock(page: nat, level: nat)
      requires Represents() && Block(page, level) in blocks
      modifies this, lists.repr, bitmaps.repr
      ensures Represents() && blocks == old(blocks) - {Block(page, level)}
      ensures free == old(free) - Block(page, level).Pages()
      ensures old(Valid()) ==> Valid()
    {
      RemoveEntry(blocks, Block(page, level), pageCount);
      BitsAreAllocated(page, level, pageCount);
      lists.Remove(page, level);
      bitmaps.Set(page, level, false);
      blocks := blocks - {Block(page, level)};
      free := free - Block(page, level).Pages();
    }

    /** One round of the loop below: frees the largest entry that fits at `freeI`. */
    method InsertNext(freeI: nat, limit: nat, ghost base: nat, ghost before: set<Block>) returns (next: nat)
      requires Valid() && base <= freeI < limit <= pageCount
      requires PageRange(freeI, limit) !! free
      requires before <= blocks && NoBuddyIn(before, base, limit)
      requires forall b :: b in blocks - before ==> b.End() <= freeI && CannotGrow(b, limit)
      modifies this, lists.repr, bitmaps.repr
      ensures freeI < next <= limit
      ensures Valid()
      ensures free == old(free) + PageRange(freeI, next)
      ensures before <= blocks
      ensures forall b :: b in blocks - before ==> b.End() <= next && CannotGrow(b, limit)
    {
      var level := LargestLevel(freeI, limit);
      ghost var b := Block(freeI, level);
      GreedyEntryHasNoBuddy(before, blocks, base, b, limit);
      PagesAreARange(b);
      TwoRuns(freeI, b.End(), limit);
      PutBlock(freeI, level);
      next := freeI + Pow2(level);
    }

    /**
     * Inserts the pages [base, base + count) as free, in the largest entries
     * that alignment and the end of the range allow, and does not merge
     * (pmap_pfa.c:288-327). So no free entry may have its buddy in the range.
     */
    method InsertRangeFreed(base: nat, count: nat)
      requires Valid() && base + count <= pageCount
      requires PageRange(base, base + count) !! free
      requires NoBuddyIn(blocks, base, base + count)
      modifies this, lists.repr, bitmaps.repr
      ensures Valid()
      ensures free == old(free) + PageRange(base, base + count)
    {
      hide FreeLists.Valid, FreeBitmaps.Valid, Placed, Coalesced;
      var limit := base + count;
      var freeI := base;
      ghost var before := blocks;
      assert free + PageRange(base, base) == free;
      while freeI < limit
        invariant base <= freeI <= limit
        invariant Valid()
        invariant before <= blocks
        invariant free == old(free) + PageRange(base, freeI)
        invariant forall b :: b in blocks - before ==> b.End() <= freeI && CannotGrow(b, limit)
      {
        ghost var from := freeI;
        NextRun(old(free), base, from, limit);
        freeI := InsertNext(freeI, limit, base, before);
        NextRun(old(free), base, from, freeI);
      }
    }

    /**
     * The entry in hand takes in its free buddy, which leaves its list and loses
     * its bit; the two go on as the entry one level up (pmap_pfa.c:598-610).
     */
    method MergeWithBuddy(page: nat, level: nat, buddy: nat)
      requires Valid() && level < TOP_LEVEL
      requires Block(page, level).WellFormed() && Block(page, level).End() <= pageCount
      requires Block(page, level).Pages() !! free
      requires buddy == BuddyPage(page, level) && Block(buddy, level) in blocks
      modifies this, lists.repr, bitmaps.repr
      ensures Valid()
      ensures var merged := Block(RootBuddyPage(page, level), level + 1);
              && merged.WellFormed() && merged.End() <= pageCount && merged.Pages() !! free
              && free + merged.Pages() == old(free) + Block(page, level).Pages()
    {
      hide FreeLists.Valid, FreeBitmaps.Valid, Placed, Coalesced;
      MergeStep(blocks, Block(page, level), pageCount);
      RemoveEntry(blocks, Block(buddy, level), pageCount);
      TakeBlock(buddy, level);
    }

    /** Whether the buddy of a managed entry is free; it may lie past the managed pages (pmap_pfa.c:591-597). */
    method BuddyIsFree(page: nat, level: nat, buddy: nat) returns (isFree: bool)
      requires Valid() && level < TOP_LEVEL
      requires Block(page, level).WellFormed() && Block(page, level).End() <= pageCount
      requires buddy == BuddyPage(page, level)
      ensures isFree == (Buddy(Block(page, level)) in blocks)
    {
      BuddyIsTheOtherHalf(page, level);
      BitsAreAllocated(page, level, pageCount);
      BuddyBitsAreAllocated(page, level);
      isFree := bitmaps.Get(buddy, level);
    }

    /**
     * Frees one page and merges upwards (pmap_pfa.c:587-621). The entry in hand
     * is on no list and has no bit set until it is put back at the end.
     */
    method FreePage(page: nat)
      requires Valid() && page < pageCount && page !in free
      modifies this, lists.repr, bitmaps.repr
      ensures Valid() && free == old(free) + {page}
      ensures blocks == MergeUp(old(blocks), Block(page, 0))
    {
      hide FreeLists.Valid, FreeBitmaps.Valid, Placed, Coalesced, MergeUp, PagesOf, Aligned, Pow2;
      ghost var merged := MergedPage(page);
      var pageI, levelI := page, 0;
      SinglePage(page);
      while levelI < BUDDY_LEVELS - 1
        invariant Valid() && levelI < BUDDY_LEVELS
        invariant Block(pageI, levelI).WellFormed() && Block(pageI, levelI).End() <= pageCount
        invariant Block(pageI, levelI).Pages() !! free
        invariant free + Block(pageI, levelI).Pages() == old(free) + {page}
      {
        BuddyIsTheOtherHalf(pageI, levelI);
        var buddyI: nat := BuddyPage(pageI, levelI);
        var buddyFree := BuddyIsFree(pageI, levelI, buddyI);
        if !buddyFree {
          break;
        }
        MergeWithBuddy(pageI, levelI, buddyI);
        pageI := RootBuddyPage(pageI, levelI);
        levelI := levelI + 1;
      }
      PutBlock(pageI, levelI);
      HasForm(merged);
    }

    /** Frees the pages [base, base + count) (pmap_pfa.c:575-623). */
    method BuddyFreePages(base: nat, count: nat)
      requires Valid() && base + count <= pageCount && PageRange(base, base + count) !! free
      modifies this, lists.repr, bitmaps.repr
      ensures Valid() && free == old(free) + PageRange(base, base + count)
    {
      hide FreeLists.Valid, FreeBitmaps.Valid, Placed, Coalesced;
      assert free + PageRange(base, base) == free;
      for i := 0 to count
        invariant Valid() && free == old(free) + PageRange(base, base + i)
      {
        assert Between(base, base + i, base + count) && base + i in PageRange(base, base + count);
        OneMorePage(old(free), base, base + i);
        FreePage(base + i);
      }
    }

    ghost function State(): (r: PfaState)
      reads this, metadata
    {
      PfaState(free, metadata[..])
    }

    /** apply_metadata_range_locked (pmap_pfa.c:273-285). */
    method ApplyMetadataRange(base: nat, count: nat, md: Metadata)
      requires base + count <= metadata.Length
      modifies metadata
      ensures Applied(old(metadata[..]), base, count, md, metadata[..])
    {
      forall p | base <= p < base + count {
        metadata[p] := md;
      }
    }

    /** The front of the lowest non-empty list from a level up (pmap_pfa.c:461-488). */
    method FindEntry(start: nat) returns (found: bool, page: nat, level: nat)
      requires Valid() && start < BUDDY_LEVELS
      ensures found <==> HasFreeRun(free, start)
      ensures found ==> start <= level < BUDDY_LEVELS && Block(page, level) in blocks
      ensures found ==> Block(page, level).WellFormed() && Block(page, level).End() <= pageCount
      ensures found ==> forall b :: b in blocks ==> b.level < start || level <= b.level
    {
      SearchFindsFreeRuns(blocks, start);
      found, page, level := false, 0, start;
      while level < BUDDY_LEVELS
        invariant start <= level <= BUDDY_LEVELS
        invariant forall b :: b in blocks ==> b.level < start || level <= b.level
      {
        var empty := lists.Empty(level);
        if !empty {
          page := lists.Front(level);
          found := true;
          return;
        }
        level := level + 1;
      }
    }

    /** Takes the first `count` pages of a free entry and frees the rest of it again (pmap_pfa.c:497-513). */
    method TakePages(page: nat, level: nat, count: nat)
      requires Valid() && Block(page, level) in blocks && count <= Pow2(level)
      modifies this, lists.repr, bitmaps.repr
      ensures Valid() && free == old(free) - PageRange(page, page + count)
      ensures PageRange(page, page + count) <= old(free)
      ensures blocks == CutInto(old(blocks) - {Block(page, level)}, page + count, page + Pow2(level))
    {
      hide FreeLists.Valid, FreeBitmaps.Valid;
      ghost var rest := RestOf(page, level, count);
      CutEntry(blocks, Block(page, level), count, pageCount);
      TakeBlock(page, level);
      InsertRangeFreed(page + count, Pow2(level) - count);
      HasForm(rest);
    }

    /** pmap_pfa_alloc_contig_small_locked (pmap_pfa.c:442-522). */
    method AllocContigSmall(size: nat, md: Metadata) returns (r: Allocation)
      requires Valid() && size <= MAX_ALLOCATION
      modifies repr
      ensures Valid() && AllocStep(old(State()), size, md, r, State())
    {
      hide FreeLists.Valid, FreeBitmaps.Valid, Placed, Coalesced, HasFreeRun, Aligned, Pow2, Canonical, EntriesAt,
           MaximalEntries, FromLowest, MinBuddyLevelForSize, SizeToPageCount;
      var count := SizeToPageCount(size);
      SearchLevelHolds(size);
      ValidIsCanonical();
      var found, page, level := FindEntry(MinBuddyLevelForSize(size));
      if !found {
        return Invalid;
      }
      LowestIsFound(blocks, MinBuddyLevelForSize(size), Block(page, level));
      LevelsGrow(MinBuddyLevelForSize(size), level);
      AlignedBelow(page, MinBuddyLevelForSize(size), level);
      TakePages(page, level, count);
      ApplyMetadataRange(page, count, md);
      r := Address(PageIdToPa32(page));
    }

    /** pmap_pfa_alloc_contig (pmap_pfa.c:524-545). */
    method AllocContig(size: nat, md: Metadata) returns (r: Allocation)
      requires Valid()
      modifies repr
      ensures Valid() && AllocStep(old(State()), size, md, r, State())
    {
      if size > MAX_ALLOCATION {
        return Invalid;
      }
      r := AllocContigSmall(size, md);
    }

    /** The list length of every level (pmap_pfa.c:692-704). */
    method GetState() returns (counts: seq<nat>)
      requires Valid()
      ensures |counts| == BUDDY_LEVELS
      ensures forall l :: 0 <= l < BUDDY_LEVELS ==> counts[l] == |EntriesAt(blocks, l)|
    {
      counts := [];
      for l := 0 to BUDDY_LEVELS
        invariant |counts| == l
        invariant forall m :: 0 <= m < l ==> counts[m] == |EntriesAt(blocks, m)|
      {
        var n := lists.Size(l);
        counts := counts + [n];
      }
    }

    /** pmap_pfa_free_contig (pmap_pfa.c:625-641). */
    method FreeContig(addr: nat, size: nat)
      requires Valid() && CanFree(State(), addr, size)
      modifies repr
      ensures Valid() && FreeStep(old(State()), addr, size, State())
    {
      BuddyFreePages(addr / PAGE_SIZE, SizeToPageCount(size));
    }
  }

  /** Whole pages before and after an address inside the managed range. */
  lemma PagesAround(reserved: nat, ramSize: nat)
    requires reserved <= ramSize
    ensures reserved / PAGE_SIZE + SizeToPageCount(ramSize - reserved) <= SizeToPageCount(ramSize)
    ensures SizeToPageCount(reserved) <= SizeToPageCount(ramSize)
  {
  }

  /** The physical address up to which init treats memory as reserved. */
  function ReservedEnd(ramSize: nat, bootstrapReserved: nat): (r: nat) {
    bootstrapReserved + RequiredBytes(SizeToPageCount(ramSize))
  }

  /** The pages that init frees: up to the end of RAM, from the page that the reserved end lies in. */
  ghost function InitiallyFree(ramSize: nat, bootstrapReserved: nat): (r: set<nat>)
    requires ReservedEnd(ramSize, bootstrapReserved) <= ramSize
  {
    var reserved := ReservedEnd(ramSize, bootstrapReserved);
    PageRange(reserved / PAGE_SIZE, reserved / PAGE_SIZE + SizeToPageCount(ramSize - reserved))
  }

  /** The arguments of pmap_pfa_init, with ram_base 0. */
  datatype BootMemory = BootMemory(ramSize: nat, textBase: nat, textSize: nat,
                                   dataBase: nat, dataSize: nat, bootstrapReserved: nat) {
    predicate Fits() {
      && SizeToPageCount(ramSize) < PAGE_ID_LIMIT
      && ReservedEnd(ramSize, bootstrapReserved) <= ramSize
      && textBase / PAGE_SIZE + SizeToPageCount(textSize) <= SizeToPageCount(ramSize)
      && dataBase / PAGE_SIZE + SizeToPageCount(dataSize) <= SizeToPageCount(ramSize)
    }

    predicate IsText(p: nat) {
      textBase / PAGE_SIZE <= p < textBase / PAGE_SIZE + SizeToPageCount(textSize)
    }

    predicate IsData(p: nat) {
      dataBase / PAGE_SIZE <= p < dataBase / PAGE_SIZE + SizeToPageCount(dataSize)
    }

    predicate IsReserved(p: nat) {
      p < SizeToPageCount(ReservedEnd(ramSize, bootstrapReserved))
    }
  }

  /** The state that init leaves: what is past the reserved end is free; text, data and reserved pages are typed. */
  ghost predicate AfterInit(s: PfaState, boot: BootMemory) {
    && boot.Fits() && |s.metadata| == SizeToPageCount(boot.ramSize)
    && s.free == InitiallyFree(boot.ramSize, boot.bootstrapReserved)
    && forall p {:trigger s.metadata[p]} :: 0 <= p < |s.metadata| ==>
         && (boot.IsText(p) ==> s.metadata[p] == PAGE_TYPE_KERNEL_TEXT)
         && (!boot.IsText(p) && (boot.IsData(p) || boot.IsReserved(p)) ==> s.metadata[p] == PAGE_TYPE_KERNEL_DATA)
  }

  /** What is reserved is what the allocator's data takes. */
  lemma OwnBytesAreReserved(pfa: Pfa)
    requires pfa.Valid()
    ensures |pfa.bitmaps.buddyBitmaps| == 6
    ensures RequiredBytes(pfa.pageCount) == RoundUp(pfa.OwnBytes(), PAGE_SIZE)
  {
    hide SlotCount, RoundUp;
    var b := pfa.bitmaps.buddyBitmaps;
    assert forall l {:trigger b[l]} :: 0 <= l < 6 ==> b[l].Length == SlotCount(pfa.pageCount, l);
    assert BitmapBytesFrom(pfa.pageCount, 5) == 8 * SlotCount(pfa.pageCount, 5);
    assert BitmapBytesFrom(pfa.pageCount, 3)
        == 8 * SlotCount(pfa.pageCount, 3) + 8 * SlotCount(pfa.pageCount, 4) + 8 * SlotCount(pfa.pageCount, 5);
  }

  /** From a page boundary on, the pages after `bytes` bytes are those after as many whole pages. */
  lemma PagesAfter(start: nat, bytes: nat, p: nat)
    requires start % PAGE_SIZE == 0
    ensures (start + RoundUp(bytes, PAGE_SIZE)) / PAGE_SIZE <= p <==> start + bytes <= p * PAGE_SIZE
  {
    var s, n := start / PAGE_SIZE, (bytes + PAGE_SIZE - 1) / PAGE_SIZE;
    assert start + RoundUp(bytes, PAGE_SIZE) == (s + n) * PAGE_SIZE;
  }

  lemma ToTheEnd(reserved: nat, ramSize: nat)
    requires reserved <= ramSize && reserved % PAGE_SIZE == 0
    ensures reserved / PAGE_SIZE + SizeToPageCount(ramSize - reserved) == SizeToPageCount(ramSize)
  {
  }

  lemma UpToTheBoundary(reserved: nat)
    requires reserved % PAGE_SIZE == 0
    ensures SizeToPageCount(reserved) == reserved / PAGE_SIZE
  {
  }

  lemma WholePagesReserved(start: nat, bytes: nat)
    requires start % PAGE_SIZE == 0
    ensures (start + RoundUp(bytes, PAGE_SIZE)) % PAGE_SIZE == 0
  {
    var s, n := start / PAGE_SIZE, (bytes + PAGE_SIZE - 1) / PAGE_SIZE;
    assert start + RoundUp(bytes, PAGE_SIZE) == (s + n) * PAGE_SIZE;
  }

  /** After init with an aligned boundary, the free pages are those past the allocator's own data. */
  lemma FreePagesAreBehindOwnData(pfa: Pfa, boot: BootMemory, p: nat)
    requires pfa.Valid() && AfterInit(pfa.State(), boot) && boot.bootstrapReserved % PAGE_SIZE == 0
    ensures |pfa.bitmaps.buddyBitmaps| == 6
    ensures p in pfa.free <==> p < pfa.metadata.Length && boot.bootstrapReserved + pfa.OwnBytes() <= p * PAGE_SIZE
    ensures p < pfa.metadata.Length && p !in pfa.free ==>
              pfa.metadata[p] == if boot.IsText(p) then PAGE_TYPE_KERNEL_TEXT else PAGE_TYPE_KERNEL_DATA
  {
    hide FreeLists.Valid, FreeBitmaps.Valid, Placed, Coalesced, RequiredBytes, RoundUp, SizeToPageCount;
    OwnBytesAreReserved(pfa);
    var reserved := ReservedEnd(boot.ramSize, boot.bootstrapReserved);
    WholePagesReserved(boot.bootstrapReserved, pfa.OwnBytes());
    ToTheEnd(reserved, boot.ramSize);
    PagesAfter(boot.bootstrapReserved, pfa.OwnBytes(), p);
    assert p in pfa.free <==> Between(reserved / PAGE_SIZE, p, SizeToPageCount(boot.ramSize));
    if p < pfa.metadata.Length && p !in pfa.free {
      UpToTheBoundary(reserved);
      assert boot.IsReserved(p) && pfa.State().metadata[p] == pfa.metadata[p];
    }
  }

  /** pmap_pfa_init (pmap_pfa.c:329-431). */
  method Init(boot: BootMemory) returns (pfa: Pfa)
    requires boot.Fits()
    ensures pfa.Valid() && fresh(pfa.repr) && AfterInit(pfa.State(), boot) && |pfa.bitmaps.buddyBitmaps| == 6
    ensures boot.bootstrapReserved % PAGE_SIZE == 0 ==>
              forall p: nat :: p in pfa.free <==>
                p < pfa.metadata.Length && boot.bootstrapReserved + pfa.OwnBytes() <= p * PAGE_SIZE
    ensures boot.bootstrapReserved % PAGE_SIZE == 0 ==>
              forall p: nat {:trigger pfa.metadata[p]} :: p < pfa.metadata.Length && p !in pfa.free ==>
                pfa.metadata[p] == if boot.IsText(p) then PAGE_TYPE_KERNEL_TEXT else PAGE_TYPE_KERNEL_DATA
  {
    hide FreeLists.Valid, FreeBitmaps.Valid, Placed, Coalesced, Canonical, RequiredBytes;
    pfa := new Pfa.Empty(SizeToPageCount(boot.ramSize));
    var reserved := ReservedEnd(boot.ramSize, boot.bootstrapReserved);
    PagesAround(reserved, boot.ramSize);
    pfa.InsertRangeFreed(reserved / PAGE_SIZE, SizeToPageCount(boot.ramSize - reserved));
    pfa.ApplyMetadataRange(0, SizeToPageCount(reserved), PAGE_TYPE_KERNEL_DATA);
    pfa.ApplyMetadataRange(boot.dataBase / PAGE_SIZE, SizeToPageCount(boot.dataSize), PAGE_TYPE_KERNEL_DATA);
    pfa.ApplyMetadataRange(boot.textBase / PAGE_SIZE, SizeToPageCount(boot.textSize), PAGE_TYPE_KERNEL_TEXT);
    assert AfterInit(pfa.State(), boot);
    OwnBytesAreReserved(pfa);
    if boot.bootstrapReserved % PAGE_SIZE == 0 {
      forall p: nat
        ensures p in pfa.free <==>
                  p < pfa.metadata.Length && boot.bootstrapReserved + pfa.OwnBytes() <= p * PAGE_SIZE
        ensures p < pfa.metadata.Length && p !in pfa.free ==>
                  pfa.metadata[p] == if boot.IsText(p) then PAGE_TYPE_KERNEL_TEXT else PAGE_TYPE_KERNEL_DATA
      {
        FreePagesAreBehindOwnData(pfa, boot, p);
      }
    }
  }
}
