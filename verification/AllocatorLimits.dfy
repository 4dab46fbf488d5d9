/**
 Promises of the allocator's documentation that its code keeps only under a
 condition, each with the exact condition.
 */
module AllocatorLimits {
  import opened Bits
  import opened Pages
  import opened BuddyLevels
  import opened BuddySizes
  import opened BuddyBlocks
  import opened AllocatorSpec
  import opened AllocatorRuns
  import opened PageFrameAllocator
  import opened AllocatorTests
  import opened AllocatorBoot

  /** The nearest level whose entries hold `count` pages (pmap_pfa.c:167-170). */
  ghost predicate IsNearest(level: nat, count: nat) {
    level <= TOP_LEVEL && count <= Pow2(level) && (level == 0 || Pow2(level - 1) < count)
  }

  lemma NearestIsUnique(a: nat, b: nat, count: nat)
    requires IsNearest(a, count) && IsNearest(b, count)
    ensures a == b
  {
    if a < b {
      LevelsGrow(a, b - 1);
    } else if b < a {
      LevelsGrow(b, a - 1);
    }
  }

  /** The pages from 2^level to 2^(level+1) hold a run of that level, and none of the next. */
  lemma OneRunIsNotTwo(level: nat)
    requires level < TOP_LEVEL
    ensures HasFreeRun(PageRange(Pow2(level), Pow2(level + 1)), level)
    ensures !HasFreeRun(PageRange(Pow2(level), Pow2(level + 1)), level + 1)
  {
    var pages := PageRange(Pow2(level), Pow2(level + 1));
    var run := Block(Pow2(level), level);
    ZeroIsAligned(level);
    AlignedGrowth(0, level);
    PagesAreARange(run);
    assert run.WellFormed() && Full(pages, run);
    forall b: Block | b.WellFormed() && b.level == level + 1
      ensures !Full(pages, b)
    {
      assert b.Contains(b.page) && b.page in b.Pages();
      assert b.Contains(b.End() - 1) && b.End() - 1 in b.Pages();
      assert !(Between(Pow2(level), b.page, Pow2(level + 1)) && Between(Pow2(level), b.End() - 1, Pow2(level + 1)));
    }
  }

  /** A state that init leaves on a memory of 2^(level+1) pages: the upper half is free and nothing else. */
  lemma UpperHalfIsFree(level: nat) returns (w: World)
    requires level <= 4
    ensures Reachable(w) && w.live == {}
    ensures w.pfa.free == PageRange(Pow2(level), Pow2(level + 1)) && |w.pfa.metadata| == Pow2(level + 1)
  {
    hide RequiredBytes, ReservedEnd, InitiallyFree, RunFromInit;
    LevelSizes();
    LevelsGrow(level + 1, 5);
    var boot := SmallBoot(Pow2(level + 1), (Pow2(level) - 1) * PAGE_SIZE);
    SmallBootFree(Pow2(level + 1), Pow2(level) - 1);
    InitialWorldIsReached(boot);
    w := InitialWorld(boot);
    assert [w][|[w]| - 1] == w;
  }

  /**
   * In the states that can be reached after init, a request is served whenever an
   * aligned run of its nearest level is free, except for requests of exactly 2, 4, 8
   * or 16 pages: those can fail with such a run free.
   */
  lemma ServedWheneverItFits(size: nat, nearest: nat)
    requires 0 < size <= MAX_ALLOCATION && IsNearest(nearest, SizeToPageCount(size))
    ensures (forall w :: Reachable(w) && HasFreeRun(w.pfa.free, nearest) ==>
               HasFreeRun(w.pfa.free, MinBuddyLevelForSize(size)))
            <==> SizeToPageCount(size) !in {2, 4, 8, 16}
  {
    hide Reachable, HasFreeRun;
    var count, level := SizeToPageCount(size), MinBuddyLevelForSize(size);
    SearchLevelIsSufficient(size);
    SearchLevelIsNearest(size);
    if count !in {2, 4, 8, 16} {
      NearestIsUnique(level, nearest, count);
    } else {
      LevelsGrow(0, level);
      assert Pow2(level - 1) == count;
      var half: nat := level - 1;
      assert IsNearest(half, count) by {
        if half > 0 {
          LevelsGrow(half - 1, half);
        }
      }
      NearestIsUnique(half, nearest, count);
      OneRunIsNotTwo(half);
      var w := UpperHalfIsFree(half);
    }
  }

  /** After init on four pages of RAM just the pages 2 and 3 are free, and a request for two pages fails. */
  lemma TwoPagesCanFail(md: Metadata) returns (w: World)
    ensures Reachable(w) && w.pfa.free == {2, 3} && HasFreeRun(w.pfa.free, 1)
    ensures AllocCall(w, 8192, md, Invalid, w)
  {
    hide Reachable, HasFreeRun;
    LevelSizes();
    assert BitLength(2) == 2;
    OneRunIsNotTwo(1);
    w := UpperHalfIsFree(1);
    assert forall q: nat :: Between(2, q, 4) <==> q in {2, 3};
    assert PageRange(2, 4) == {2, 3};
  }

  function PageType(md: Metadata): (r: Metadata) {
    md & PAGE_TYPE_MASK
  }

  /** What pmap_pfa.h:76-83 says pmap_pfa_mds_require_range_type checks. */
  ghost predicate AllOfType(m: seq<Metadata>, page: nat, count: nat, pageType: Metadata)
    requires page + count <= |m|
  {
    forall p :: page <= p < page + count ==> PageType(m[p]) == pageType
  }

  /** The verdict of pmap_pfa_mds_require_range_type; false stands for a panic. */
  predicate RangeVerdict(m: seq<Metadata>, page: nat, count: nat, pageType: Metadata) {
    page + count < |m| && (count == 0 || PageType(m[page]) == pageType)
  }

  /**
   * pmap_pfa_mds_require_range_type (pmap_pfa.c:554-573). It reads the metadata
   * of the first page in every round, and its bounds check refuses a range that
   * ends with the last page.
   */
  method RequireRangeType(m: seq<Metadata>, page: nat, count: nat, pageType: Metadata) returns (ok: bool)
    ensures ok == RangeVerdict(m, page, count, pageType)
  {
    if !(page + count < |m|) {
      return false;
    }
    for i := 0 to count
      invariant i > 0 ==> PageType(m[page]) == pageType
    {
      if PageType(m[page]) != pageType {
        return false;
      }
    }
    return true;
  }

  /** The values of pmap_page_type_e. */
  predicate IsPageType(md: Metadata) {
    md <= PAGE_TYPE_PAGE_TABLE
  }

  /**
   * For which calls that verdict is the documented one, whatever the metadata: for ranges
   * of at most one page that do not reach the last page.
   */
  lemma RangeCheckIsRight(n: nat, page: nat, count: nat)
    requires page + count <= n
    ensures (forall m: seq<Metadata>, pageType :: |m| == n && IsPageType(pageType) ==>
               (RangeVerdict(m, page, count, pageType) <==> AllOfType(m, page, count, pageType)))
            <==> count <= 1 && page + count < n
  {
    if page + count == n {
      var m := seq(n, p => PAGE_TYPE_KERNEL_DATA);
      assert AllOfType(m, page, count, PAGE_TYPE_KERNEL_DATA) && IsPageType(PAGE_TYPE_KERNEL_DATA);
      assert !RangeVerdict(m, page, count, PAGE_TYPE_KERNEL_DATA);
    } else if count > 1 {
      var m := seq(n, p => if p == page then PAGE_TYPE_KERNEL_DATA else PAGE_TYPE_KERNEL_TEXT);
      assert IsPageType(PAGE_TYPE_KERNEL_DATA) && PageType(m[page + 1]) != PAGE_TYPE_KERNEL_DATA;
      assert RangeVerdict(m, page, count, PAGE_TYPE_KERNEL_DATA);
      assert page <= page + 1 < page + count && !AllOfType(m, page, count, PAGE_TYPE_KERNEL_DATA);
    }
  }

  /**
   * Inside one allocation that is held, at any point of any run, the check is right
   * except for a range that ends with the last managed page and has the asked type:
   * that one is refused.
   */
  lemma RangeCheckInsideAllocation(worlds: seq<World>, c: Chunk, page: nat, count: nat, pageType: Metadata)
    requires Run(worlds) && c in worlds[|worlds| - 1].live
    requires c.page <= page && page + count <= c.page + c.count
    ensures var m := worlds[|worlds| - 1].pfa.metadata;
            && c.page + c.count <= |m|
            && ((RangeVerdict(m, page, count, pageType) <==> AllOfType(m, page, count, pageType)) <==>
                page + count < |m| || (count > 0 && PageType(c.md) != pageType))
            && (0 < count ==> (AllOfType(m, page, count, pageType) <==> PageType(c.md) == pageType))
  {
    var w := worlds[|worlds| - 1];
    EveryStateConserves(worlds);
    assert ChunkKept(w, c);
    if 0 < count {
      assert page <= page < page + count && w.pfa.metadata[page] == c.md;
    }
  }

  /** A free page is the entry to take if its neighbour is not free, or if every page has a free neighbour. */
  lemma PageIsLowest(free: set<nat>, page: nat)
    requires page in free
    requires !Full(free, Parent(Block(page, 0)))
             || (Maximal(free, Block(page, 1)) && forall p: nat :: p in free ==> Full(free, Parent(Block(p, 0))))
    ensures FromLowest(free, 0, page)
  {
    hide Full, Parent, MaximalEntries;
    SinglePage(page);
    var b := if !Full(free, Parent(Block(page, 0))) then Block(page, 0) else Block(page, 1);
    assert Maximal(free, b) by {
      OnlyPage(free, page);
    }
    MaximalIsMember(free, b);
    forall c | c in MaximalEntries(free)
      ensures b.level <= c.level
    {
      MaximalIsMember(free, c);
      if c.level == 0 {
        assert c == Block(c.page, 0);
        OnlyPage(free, c.page);
      }
    }
    assert IsLowest(MaximalEntries(free), 0, b);
  }

  lemma OnlyPage(free: set<nat>, page: nat)
    ensures Full(free, Block(page, 0)) <==> page in free
  {
    SinglePage(page);
  }

  /** A pair of neighbouring pages. */
  lemma PairIs(page: nat)
    requires page in {2, 4}
    ensures Block(page, 1).WellFormed() && Block(page, 1).Pages() == {page, page + 1}
    ensures Parent(Block(page, 0)) == Parent(Block(page + 1, 0)) == Block(page, 1)
  {
    LevelSizes();
    var b := Block(page, 1);
    assert b.Contains(page) && b.Contains(page + 1);
    assert b.Pages() == {page, page + 1};
  }

  lemma FourIsWhole()
    ensures Parent(Block(2, 1)) == Block(0, 2) && 0 in Block(0, 2).Pages()
  {
    LevelSizes();
    assert Block(0, 2).Contains(0);
  }

  /** Pages 2 to 5 make two entries of two pages. */
  lemma TwoPairs(free: set<nat>)
    requires free == {2, 3, 4, 5}
    ensures FromLowest(free, 0, 2) && FromLowest(free - {2}, 0, 3)
  {
    hide Parent, MaximalEntries, FromLowest, Aligned, Root;
    PairIs(2);
    PairIs(4);
    FourIsWhole();
    PageIsLowest(free, 2);
    PageIsLowest(free - {2}, 3);
  }

  lemma LastPageIsLowest()
    ensures PageRange(3, 4) == {3} && FromLowest({3}, 0, 3)
  {
    LevelSizes();
    assert forall q: nat :: Between(3, q, 4) <==> q == 3;
    assert Parent(Block(3, 0)) == Block(2, 1) && Block(2, 1).Contains(2) && 2 in Block(2, 1).Pages();
    PageIsLowest({3}, 3);
  }

  /** One page given out after another state of a run. */
  lemma GiveOutPage(worlds: seq<World>, boot: BootMemory, page: nat, md: Metadata) returns (more: seq<World>)
    requires RunFromInit(worlds, boot) && page in worlds[|worlds| - 1].pfa.free
    requires page < |worlds[|worlds| - 1].pfa.metadata| && FromLowest(worlds[|worlds| - 1].pfa.free, 0, page)
    ensures more != [] && RunFromInit(more, boot)
    ensures var w, w' := worlds[|worlds| - 1], more[|more| - 1];
            && w'.live == w.live + {Chunk(page, 1, md)} && w'.pfa.free == w.pfa.free - {page}
            && w'.pfa.metadata == w.pfa.metadata[page := md]
  {
    hide AfterInit, FromLowest;
    var w := worlds[|worlds| - 1];
    var w' := World(PfaState(w.pfa.free - {page}, w.pfa.metadata[page := md]), w.live + {Chunk(page, 1, md)});
    OnePageIsAnyPage(w.pfa.free);
    SinglePage(page);
    PagesAreARange(Block(page, 0));
    assert AllocCall(w, PAGE_SIZE, md, Address(page * PAGE_SIZE), w');
    ExtendRun(worlds, w');
    more := worlds + [w'];
  }

  /** The check takes two neighbours of different types for pages of the first one's type. */
  ghost predicate AcceptedAlthoughMixed(m: seq<Metadata>, c: Chunk, d: Chunk) {
    && c.page + c.count == d.page && d.page + d.count <= |m| && PageType(c.md) != PageType(d.md)
    && RangeVerdict(m, c.page, c.count + d.count, PageType(c.md))
    && !AllOfType(m, c.page, c.count + d.count, PageType(c.md))
  }

  lemma FourPagesFree() returns (worlds: seq<World>, boot: BootMemory)
    ensures |worlds| == 1 && RunFromInit(worlds, boot)
    ensures worlds[0].live == {} && worlds[0].pfa.free == {2, 3, 4, 5} && |worlds[0].pfa.metadata| == 6
  {
    hide RunFromInit, AfterInit, ReservedEnd, InitiallyFree;
    boot := SmallBoot(6, PAGE_SIZE);
    SmallBootFree(6, 1);
    InitialWorldIsReached(boot);
    worlds := [InitialWorld(boot)];
    assert forall q: nat :: Between(2, q, 6) <==> q in {2, 3, 4, 5};
  }

  /** Two neighbouring allocations of different types: the check accepts the range of both for the first type. */
  lemma MixedRangeIsAccepted() returns (w: World)
    ensures Reachable(w) && |w.live| == 2
    ensures exists c, d :: c in w.live && d in w.live && AcceptedAlthoughMixed(w.pfa.metadata, c, d)
  {
    hide RunFromInit, AfterInit, ReservedEnd, InitiallyFree, FromLowest, InitialWorld;
    var worlds, boot := FourPagesFree();
    TwoPairs(worlds[0].pfa.free);
    worlds := GiveOutPage(worlds, boot, 2, PAGE_TYPE_KERNEL_DATA);
    worlds := GiveOutPage(worlds, boot, 3, PAGE_TYPE_KERNEL_TEXT);
    w := worlds[|worlds| - 1];
    var c, d := Chunk(2, 1, PAGE_TYPE_KERNEL_DATA), Chunk(3, 1, PAGE_TYPE_KERNEL_TEXT);
    assert w.live == {c, d} && w.pfa.metadata[3] == d.md;
  }

  /** An allocation that ends with the last managed page: the check refuses it for its own type. */
  lemma LastPageIsRefused() returns (w: World)
    ensures Reachable(w)
    ensures exists c :: c in w.live && c.page + c.count == |w.pfa.metadata| &&
              AllOfType(w.pfa.metadata, c.page, c.count, PageType(c.md)) &&
              !RangeVerdict(w.pfa.metadata, c.page, c.count, PageType(c.md))
  {
    hide RunFromInit, AfterInit, ReservedEnd, InitiallyFree;
    var boot := SmallBoot(4, 2 * PAGE_SIZE);
    SmallBootFree(4, 2);
    InitialWorldIsReached(boot);
    var worlds := [InitialWorld(boot)];
    LastPageIsLowest();
    worlds := GiveOutPage(worlds, boot, 3, PAGE_TYPE_KERNEL_TEXT);
    w := worlds[|worlds| - 1];
    assert Chunk(3, 1, PAGE_TYPE_KERNEL_TEXT) in w.live;
  }
}
