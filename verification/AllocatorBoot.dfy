/**
 Runs of allocator calls from the state that pmap_pfa_init leaves
 (kernel/machine/pmap/pmap_pfa.c:329-431): what stays reserved through all of
 them.
 */
module AllocatorBoot {
  import opened Bits
  import opened Pages
  import opened BuddyLevels
  import opened BuddySizes
  import opened BuddyBlocks
  import opened BuddyBitmap
  import opened AllocatorSpec
  import opened AllocatorRuns
  import opened PageFrameAllocator
  import opened AllocatorTests

  /** Any calls in any order after init. */
  ghost predicate RunFromInit(worlds: seq<World>, boot: BootMemory) {
    Run(worlds) && AfterInit(worlds[0].pfa, boot)
  }

  ghost predicate Reachable(w: World) {
    exists worlds, boot :: RunFromInit(worlds, boot) && w == worlds[|worlds| - 1]
  }

  /** Init, and then any script of calls, on the real data structures: every state is one of such a run. */
  method BootAndExecute(boot: BootMemory, script: seq<Call>)
    returns (pfa: Pfa, results: seq<Allocation>, live: set<Chunk>, ghost worlds: seq<World>)
    requires boot.Fits()
    ensures AllPerformed(script, results, worlds)
    ensures pfa.Valid() && RunFromInit(worlds, boot) && worlds[|worlds| - 1] == World(pfa.State(), live)
  {
    hide Pfa.Valid, AfterInit, Run;
    pfa := Init(boot);
    results, live, worlds := Execute(pfa, script);
    RunsAreNotEmpty(worlds);
  }

  lemma RunsAreNotEmpty(worlds: seq<World>)
    requires Run(worlds)
    ensures worlds != []
  {
  }

  /** A state that init can leave: pages that it does not type are data. */
  ghost function InitialWorld(boot: BootMemory): (w: World)
    requires boot.Fits()
  {
    var metadata := seq(SizeToPageCount(boot.ramSize), p requires p >= 0 =>
        if boot.IsText(p) then PAGE_TYPE_KERNEL_TEXT else PAGE_TYPE_KERNEL_DATA);
    World(PfaState(InitiallyFree(boot.ramSize, boot.bootstrapReserved), metadata), {})
  }

  lemma InitialWorldIsReached(boot: BootMemory)
    requires boot.Fits()
    ensures RunFromInit([InitialWorld(boot)], boot)
  {
    hide RequiredBytes;
    var reserved := ReservedEnd(boot.ramSize, boot.bootstrapReserved);
    PagesAround(reserved, boot.ramSize);
    var n := SizeToPageCount(boot.ramSize);
    var first := reserved / PAGE_SIZE;
    assert forall q: nat :: Between(first, q, first + SizeToPageCount(boot.ramSize - reserved)) ==> Between(0, q, n);
  }

  lemma {:induction false} AddingWholePages(bytes: nat, pages: nat)
    ensures (bytes + pages * PAGE_SIZE) % PAGE_SIZE == bytes % PAGE_SIZE
    decreases pages
  {
    if pages > 0 {
      AddingWholePages(bytes + PAGE_SIZE, pages - 1);
    }
  }

  lemma RoundedUpIsWholePages(bytes: nat, rounded: nat)
    ensures (bytes + RoundUp(rounded, PAGE_SIZE)) % PAGE_SIZE == bytes % PAGE_SIZE
  {
    AddingWholePages(bytes, (rounded + PAGE_SIZE - 1) / PAGE_SIZE);
  }

  lemma RoundingUpIsExact(size: nat)
    ensures SizeToPageCount(size) == size / PAGE_SIZE + (if size % PAGE_SIZE == 0 then 0 else 1)
  {
  }

  /** Rounding a boundary up for one side and down for the other overlaps unless it is on a page. */
  lemma RangesMeetOnPageBoundary(end: nat, ramSize: nat)
    requires end <= ramSize
    ensures PageRange(0, SizeToPageCount(end)) !!
            PageRange(end / PAGE_SIZE, end / PAGE_SIZE + SizeToPageCount(ramSize - end))
            <==> end % PAGE_SIZE == 0 || end == ramSize
  {
    RoundingUpIsExact(end);
    RoundingUpIsExact(ramSize - end);
    var first, last := end / PAGE_SIZE, end / PAGE_SIZE + SizeToPageCount(ramSize - end);
    if end % PAGE_SIZE == 0 || end == ramSize {
      assert forall q: nat :: !(Between(0, q, SizeToPageCount(end)) && Between(first, q, last));
    } else {
      assert Between(0, first, SizeToPageCount(end)) && Between(first, first, last);
      assert first in PageRange(0, SizeToPageCount(end)) && first in PageRange(first, last);
    }
  }

  /**
   * The pages below the reserved end stay allocated exactly when the bootstrap
   * allocations end on a page boundary (or nothing is left to free).
   */
  lemma ReservedPagesStayReserved(ramSize: nat, bootstrapReserved: nat)
    requires ReservedEnd(ramSize, bootstrapReserved) <= ramSize
    ensures PageRange(0, SizeToPageCount(ReservedEnd(ramSize, bootstrapReserved)))
            !! InitiallyFree(ramSize, bootstrapReserved)
            <==> bootstrapReserved % PAGE_SIZE == 0 || ReservedEnd(ramSize, bootstrapReserved) == ramSize
  {
    hide BitmapBytesFrom;
    var count := SizeToPageCount(ramSize);
    RoundedUpIsWholePages(bootstrapReserved, PFA_STRUCT_SIZE + BitmapBytesFrom(count, 0) + count);
    RangesMeetOnPageBoundary(ReservedEnd(ramSize, bootstrapReserved), ramSize);
  }

  /** A page is with the allocator's callers or could be handed to one. */
  ghost predicate InCirculation(w: World, p: nat) {
    p in w.pfa.free || p in LivePages(w.live)
  }

  lemma CirculationIsInitiallyFree(worlds: seq<World>, boot: BootMemory, p: nat)
    requires RunFromInit(worlds, boot)
    ensures InCirculation(worlds[|worlds| - 1], p) <==> p in InitiallyFree(boot.ramSize, boot.bootstrapReserved)
    ensures var w := worlds[|worlds| - 1];
            && |w.pfa.metadata| == |worlds[0].pfa.metadata|
            && (p < |w.pfa.metadata| && !InCirculation(w, p) ==> w.pfa.metadata[p] == worlds[0].pfa.metadata[p])
  {
    hide InitiallyFree, Run, LivePages, ChunkKept;
    RunsAreNotEmpty(worlds);
    EveryStateConserves(worlds);
  }

  /**
   * At every point of every run of calls after init, no reserved page is free or held, exactly
   * when the bootstrap allocations end on a page boundary (or nothing is left to free).
   */
  lemma ReservedInEveryRun(boot: BootMemory)
    requires boot.Fits()
    ensures (forall worlds, p: nat :: RunFromInit(worlds, boot) && boot.IsReserved(p) ==>
               !InCirculation(worlds[|worlds| - 1], p))
            <==> boot.bootstrapReserved % PAGE_SIZE == 0
                 || ReservedEnd(boot.ramSize, boot.bootstrapReserved) == boot.ramSize
  {
    hide InitiallyFree, ReservedEnd, AfterInit, Step, InCirculation;
    var reserved := PageRange(0, SizeToPageCount(ReservedEnd(boot.ramSize, boot.bootstrapReserved)));
    var free := InitiallyFree(boot.ramSize, boot.bootstrapReserved);
    ReservedPagesStayReserved(boot.ramSize, boot.bootstrapReserved);
    InitialWorldIsReached(boot);
    forall p: nat
      ensures boot.IsReserved(p) <==> p in reserved
    {
      assert Between(0, p, SizeToPageCount(ReservedEnd(boot.ramSize, boot.bootstrapReserved))) <==> boot.IsReserved(p);
    }
    forall worlds, p: nat | RunFromInit(worlds, boot)
      ensures InCirculation(worlds[|worlds| - 1], p) <==> p in free
    {
      CirculationIsInitiallyFree(worlds, boot, p);
    }
    var start := [InitialWorld(boot)];
    assert RunFromInit(start, boot);
    if p :| p in reserved && p in free {
      assert boot.IsReserved(p) && InCirculation(start[|start| - 1], p);
    }
  }

  /** Reserved pages keep the type that init gave them: kernel text stays text, the rest kernel data. */
  lemma ReservedPagesKeepTheirType(worlds: seq<World>, boot: BootMemory, p: nat)
    requires RunFromInit(worlds, boot) && boot.bootstrapReserved % PAGE_SIZE == 0 && boot.IsReserved(p)
    ensures var w := worlds[|worlds| - 1];
            && !InCirculation(w, p) && p < |w.pfa.metadata|
            && w.pfa.metadata[p] == if boot.IsText(p) then PAGE_TYPE_KERNEL_TEXT else PAGE_TYPE_KERNEL_DATA
  {
    hide InitiallyFree, ReservedEnd, InCirculation, Run, PageRange;
    ReservedInEveryRun(boot);
    CirculationIsInitiallyFree(worlds, boot, p);
    PagesAround(ReservedEnd(boot.ramSize, boot.bootstrapReserved), boot.ramSize);
    RunsAreNotEmpty(worlds);
  }

  // Small memories, as witnesses.

  /** `pages` pages of RAM, with bootstrap allocations up to an address. */
  function SmallBoot(pages: nat, bootstrapReserved: nat): (boot: BootMemory) {
    BootMemory(pages * PAGE_SIZE, 0, 0, 0, 0, bootstrapReserved)
  }

  lemma {:induction false} ShiftToOne(n: nat, level: nat)
    requires Pow2(level) <= n < Pow2(level + 1)
    ensures ShiftRight(n, level) == 1
  {
    if level > 0 {
      assert Pow2(level) == 2 * Pow2(level - 1) && Pow2(level + 1) == 2 * Pow2(level);
      ShiftToOne(n / 2, level - 1);
    }
  }

  lemma OneWord(pages: nat, level: nat)
    requires 1 <= pages <= 64
    ensures SlotCount(pages, level) == 1
  {
    LevelsGrow(6, level + 6);
    LevelSizes();
    NextPow2(5);
    NextPow2(level + 6);
    ShiftToOne(pages + Pow2(level + 6) - 1, level + 6);
  }

  lemma {:induction false} OneWordEach(pages: nat, level: nat)
    requires 1 <= pages <= 64 && level <= BUDDY_LEVELS
    ensures BitmapBytesFrom(pages, level) == 8 * (BUDDY_LEVELS - level)
    decreases BUDDY_LEVELS - level
  {
    hide SlotCount;
    if level < BUDDY_LEVELS {
      OneWord(pages, level);
      OneWordEach(pages, level + 1);
    }
  }

  lemma SmallRequiredBytes(pages: nat)
    requires 1 <= pages <= 64
    ensures RequiredBytes(pages) == PAGE_SIZE
  {
    hide BitmapBytesFrom;
    OneWordEach(pages, 0);
  }

  /** The allocator's own data takes one page, and all after it is free. */
  lemma SmallBootFree(pages: nat, reserved: nat)
    requires 1 <= pages <= 64 && reserved + 1 <= pages
    ensures var boot := SmallBoot(pages, reserved * PAGE_SIZE);
            && boot.Fits() && SizeToPageCount(boot.ramSize) == pages
            && ReservedEnd(boot.ramSize, boot.bootstrapReserved) == (reserved + 1) * PAGE_SIZE
            && InitiallyFree(boot.ramSize, boot.bootstrapReserved) == PageRange(reserved + 1, pages)
  {
    hide RequiredBytes;
    SmallRequiredBytes(pages);
    WholePages(pages);
    WholePages(reserved + 1);
    WholePages(pages - (reserved + 1));
  }

  /** With bootstrap allocations one byte into page 0, page 1 is reserved and handed out all the same. */
  lemma UnalignedBootstrapFreesAPage() returns (boot: BootMemory)
    ensures boot.Fits() && boot.bootstrapReserved == 1
    ensures boot.IsReserved(1) && 1 in InitiallyFree(boot.ramSize, boot.bootstrapReserved)
  {
    hide RequiredBytes;
    SmallRequiredBytes(4);
    WholePages(4);
    boot := SmallBoot(4, 1);
    assert Between(1, 1, 1 + SizeToPageCount(boot.ramSize - ReservedEnd(boot.ramSize, 1)));
  }
}