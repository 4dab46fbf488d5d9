/**
 What the calls of the page-frame allocator promise, without lists and
 bitmaps: a state is the set of free pages and the metadata of every page.
 */
module AllocatorSpec {
  import opened Bits
  import opened Pages
  import opened BuddyLevels
  import opened BuddySizes
  import opened BuddyBlocks

  /** A page's metadata byte. */
  type Metadata = bv8
  const PAGE_TYPE_MASK: Metadata := 3
  const PAGE_TYPE_KERNEL_DATA: Metadata := 0
  const PAGE_TYPE_KERNEL_TEXT: Metadata := 1
  const PAGE_TYPE_PAGE_TABLE: Metadata := 2

  /** What pmap_pfa_alloc_contig returns: a physical address or PHYS_ADDR_INVALID. */
  datatype Allocation = Invalid | Address(pa: nat)

  datatype PfaState = PfaState(free: set<nat>, metadata: seq<Metadata>)

  /** A run of allocated pages. */
  datatype Chunk = Chunk(page: nat, count: nat, md: Metadata) {
    ghost function Pages(): (r: set<nat>) {
      PageRange(page, page + count)
    }
  }

  /** Metadata after md was applied to the pages [base, base + count). */
  ghost predicate Applied(m: seq<Metadata>, base: nat, count: nat, md: Metadata, m': seq<Metadata>) {
    |m'| == |m| && base + count <= |m|
    && forall p :: 0 <= p < |m| ==> m'[p] == if base <= p < base + count then md else m[p]
  }

  /** The run starts with an entry of the lowest level, from `level` up, that has a free entry. */
  ghost predicate FromLowest(free: set<nat>, level: nat, page: nat) {
    exists b :: b in MaximalEntries(free) && b.page == page && IsLowest(MaximalEntries(free), level, b)
  }

  ghost predicate IsLowest(blocks: set<Block>, level: nat, b: Block) {
    level <= b.level && forall c :: c in blocks ==> c.level < level || b.level <= c.level
  }

  lemma LowestIsFound(blocks: set<Block>, level: nat, b: Block)
    requires Canonical(blocks) && b in blocks && IsLowest(blocks, level, b)
    ensures FromLowest(PagesOf(blocks), level, b.page)
  {
    CanonicalIsMaximal(blocks);
  }

  /**
   * A call of pmap_pfa_alloc_contig. It fails exactly when the request is too
   * large or no aligned run of the level it searches from is free; when it
   * succeeds, exactly the pages of the request leave the free set, from the
   * start of an entry of the lowest level that can serve it.
   */
  ghost predicate AllocStep(s: PfaState, size: nat, md: Metadata, r: Allocation, s': PfaState) {
    var level, count := MinBuddyLevelForSize(size), SizeToPageCount(size);
    match r
    case Invalid =>
      s' == s && (MAX_ALLOCATION < size || !HasFreeRun(s.free, level))
    case Address(pa) =>
      var page := pa / PAGE_SIZE;
      && size <= MAX_ALLOCATION && HasFreeRun(s.free, level)
      && pa == page * PAGE_SIZE && Aligned(page, level) && FromLowest(s.free, level, page)
      && PageRange(page, page + count) <= s.free
      && s'.free == s.free - PageRange(page, page + count)
      && Applied(s.metadata, page, count, md, s'.metadata)
  }

  /** Which pages pmap_pfa_free_contig may be given: managed ones, none of them free. */
  ghost predicate CanFree(s: PfaState, addr: nat, size: nat) {
    var page, count := addr / PAGE_SIZE, SizeToPageCount(size);
    page + count <= |s.metadata| && PageRange(page, page + count) !! s.free
  }

  /** A call of pmap_pfa_free_contig adds exactly the given pages to the free set. */
  ghost predicate FreeStep(s: PfaState, addr: nat, size: nat, s': PfaState) {
    var page, count := addr / PAGE_SIZE, SizeToPageCount(size);
    s'.free == s.free + PageRange(page, page + count) && s'.metadata == s.metadata
  }

  /** An allocation cuts up one free entry only: every other one is as it was. */
  lemma OtherEntriesStay(s: PfaState, size: nat, md: Metadata, r: Allocation, s': PfaState)
    returns (b: Block)
    requires AllocStep(s, size, md, r, s') && r.Address?
    ensures b in MaximalEntries(s.free) && b.page == r.pa / PAGE_SIZE
    ensures IsLowest(MaximalEntries(s.free), MinBuddyLevelForSize(size), b)
    ensures forall c :: c in MaximalEntries(s.free) && c != b ==> c in MaximalEntries(s'.free)
  {
    hide MaximalEntries, Maximal, HasFreeRun, MinBuddyLevelForSize, SizeToPageCount, Aligned;
    var level, page, count := MinBuddyLevelForSize(size), r.pa / PAGE_SIZE, SizeToPageCount(size);
    b :| b in MaximalEntries(s.free) && b.page == page && IsLowest(MaximalEntries(s.free), level, b);
    MaximalIsMember(s.free, b);
    SearchLevelHolds(size);
    LevelsGrow(level, b.level);
    forall c | c in MaximalEntries(s.free) && c != b
      ensures c in MaximalEntries(s'.free)
    {
      MaximalIsMember(s.free, c);
      MaximalIsMember(s'.free, c);
      StaysMaximal(s.free, b, c, count);
    }
  }

  lemma StaysMaximal(free: set<nat>, b: Block, c: Block, count: nat)
    requires Maximal(free, b) && Maximal(free, c) && b != c && count <= Pow2(b.level)
    ensures Maximal(free - PageRange(b.page, b.page + count), c)
  {
    if b.level <= c.level {
      MaximalEntriesAreDisjoint(free, b, c);
    } else {
      MaximalEntriesAreDisjoint(free, c, b);
    }
    forall q | q in c.Pages()
      ensures q in free && q !in PageRange(b.page, b.page + count)
    {
      assert c.Contains(q);
    }
  }
}
