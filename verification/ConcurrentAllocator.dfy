/**
 Allocator calls from any number of threads. Each call works on the allocator's
 memory between PFA_LOCK and PFA_UNLOCK (kernel/machine/pmap/pmap_pfa.c:43-44),
 in several accesses between which the memory is not that of an allocator at
 rest. With the spin lock of synchs.c the calls behave as a run of single calls.
 */
module ConcurrentAllocator {
  import opened Bits
  import opened BuddyLevels
  import opened BuddySizes
  import opened BuddyBlocks
  import opened BuddyAlgorithm
  import opened AllocatorSpec
  import opened AllocatorRuns
  import opened PageFrameAllocator
  import opened AllocatorBoot
  import opened SpinLock
  import opened Pages

  /** What the thread in the section has in its local variables. */
  datatype Hand =
    | Nothing
    | Taken(entry: Block)
    | Cutting(page: nat, next: nat, limit: nat)
    | Returning(block: Block, merging: bool)

  /**
   * The allocator's memory: the entries on the lists, those whose bit is set, the metadata;
   * the allocations that callers hold, and the hand of the section under way.
   */
  datatype Memory = Memory(listed: set<Block>, marked: set<Block>, metadata: seq<Metadata>, live: set<Chunk>,
                           hand: Hand)

  ghost function View(m: Memory): (w: World) {
    World(PfaState(PagesOf(m.listed), m.metadata), m.live)
  }

  /** An allocator at rest: the buddy invariant holds and no thread has anything in hand. */
  ghost predicate Ready(m: Memory) {
    Placed(m.listed, |m.metadata|) && Coalesced(m.listed) && m.marked == m.listed && m.hand.Nothing?
  }

  // pmap_pfa_alloc_contig_small_locked (pmap_pfa.c:442-522), one access after the other.

  /** Which entry is found from a level up, given those on the lists: one of the lowest level that has any. */
  ghost predicate FoundIn(hand: Hand, blocks: set<Block>, level: nat) {
    if hand.Taken? then
      && hand.entry in blocks && level <= hand.entry.level
      && forall b :: b in blocks ==> b.level < level || hand.entry.level <= b.level
    else
      hand.Nothing? && forall b :: b in blocks ==> b.level < level
  }

  /** The order of the lists decides which one that is; it may be another one each time. */
  type Finder = (set<Block>, nat) -> Hand

  ghost predicate Finds(find: Finder) {
    forall blocks, level :: AllWellFormed(blocks) ==> FoundIn(find(blocks, level), blocks, level)
  }

  ghost function UnlinkFound(m: Memory, size: nat, find: Finder): (m': Memory) {
    var hand := find(m.listed, MinBuddyLevelForSize(size));
    if hand.Taken? then m.(listed := m.listed - {hand.entry}, hand := hand) else m
  }

  /** The bit is cleared; the pages after those of the request are to be free again. */
  ghost function UnmarkFound(m: Memory, size: nat): (m': Memory) {
    if !m.hand.Taken? then m
    else
      var e := m.hand.entry;
      m.(marked := m.marked - {e}, hand := Cutting(e.page, e.page + SizeToPageCount(size), e.End()))
  }

  /** The next entry that the rest is cut into (pmap_pfa.c:313-316). */
  ghost function NextCut(from: nat, limit: nat): (b: Block) {
    Block(from, FitLevel(from, limit, TOP_LEVEL))
  }

  ghost function LinkNext(m: Memory): (m': Memory) {
    if m.hand.Cutting? && m.hand.next < m.hand.limit
    then m.(listed := m.listed + {NextCut(m.hand.next, m.hand.limit)})
    else m
  }

  ghost function MarkNext(m: Memory): (m': Memory) {
    if m.hand.Cutting? && m.hand.next < m.hand.limit
    then
      var b := NextCut(m.hand.next, m.hand.limit);
      m.(marked := m.marked + {b}, hand := m.hand.(next := b.End()))
    else m
  }

  /** Rounds of buddy_insert_range_freed_locked; those past the end do nothing. */
  ghost function CutRounds(n: nat): (section: Section<Memory>) {
    if n == 0 then [] else [LinkNext, MarkNext] + CutRounds(n - 1)
  }

  /** The metadata of the pages is set and the caller has them. */
  ghost function HandOut(m: Memory, size: nat, md: Metadata): (m': Memory) {
    if !m.hand.Cutting? then m
    else
      var c := Chunk(m.hand.page, SizeToPageCount(size), md);
      m.(metadata := Stamped(m.metadata, c), live := if size > 0 then m.live + {c} else m.live, hand := Nothing)
  }

  ghost function Stamped(metadata: seq<Metadata>, c: Chunk): (r: seq<Metadata>) {
    seq(|metadata|, p requires 0 <= p < |metadata| => if c.page <= p < c.page + c.count then c.md else metadata[p])
  }

  ghost function AllocSection(size: nat, md: Metadata, find: Finder): (section: Section<Memory>) {
    [m => UnlinkFound(m, size, find), m => UnmarkFound(m, size)] + CutRounds(Pow2(TOP_LEVEL))
    + [m => HandOut(m, size, md)]
  }

  // pmap_pfa_free_contig (pmap_pfa.c:625-641), one access after the other.

  /** The caller gives up a chunk; one that nobody holds is left alone. */
  ghost function GiveUp(m: Memory, c: Chunk): (m': Memory) {
    if c in m.live then m.(live := m.live - {c}, hand := Returning(Block(c.page, 0), false)) else m
  }

  /** A page of the chunk is to be free again, merged with what is free around it (pmap_pfa.c:587-621). */
  ghost function PickPage(m: Memory, page: nat): (m': Memory) {
    if m.hand.Returning? then m.(hand := Returning(Block(page, 0), true)) else m
  }

  /** The buddy's bit says whether it is free; if so, it is cleared (pmap_pfa.c:591-603). */
  ghost function UnmarkBuddy(m: Memory): (m': Memory) {
    if !(m.hand.Returning? && m.hand.merging) then m
    else
      var b := m.hand.block;
      if b.level < TOP_LEVEL && b.WellFormed() && Buddy(b) in m.marked
      then m.(marked := m.marked - {Buddy(b)})
      else m.(hand := Returning(b, false))
  }

  /** The free buddy leaves its list and the two go on as one entry (pmap_pfa.c:605-609). */
  ghost function UnlinkBuddy(m: Memory): (m': Memory) {
    if !(m.hand.Returning? && m.hand.merging) then m
    else
      var b := m.hand.block;
      if b.WellFormed() then m.(listed := m.listed - {Buddy(b)}, hand := Returning(Parent(b), true)) else m
  }

  ghost function MergeRounds(n: nat): (section: Section<Memory>) {
    if n == 0 then [] else [UnmarkBuddy, UnlinkBuddy] + MergeRounds(n - 1)
  }

  ghost function LinkHand(m: Memory): (m': Memory) {
    if m.hand.Returning? then m.(listed := m.listed + {m.hand.block}) else m
  }

  ghost function MarkHand(m: Memory): (m': Memory) {
    if m.hand.Returning? then m.(marked := m.marked + {m.hand.block}) else m
  }

  ghost function ReturnPage(page: nat): (section: Section<Memory>) {
    [m => PickPage(m, page)] + MergeRounds(TOP_LEVEL) + [LinkHand, MarkHand]
  }

  ghost function ReturnPages(page: nat, count: nat): (section: Section<Memory>) {
    if count == 0 then [] else ReturnPages(page, count - 1) + ReturnPage(page + count - 1)
  }

  ghost function LetGo(m: Memory): (m': Memory) {
    if m.hand.Returning? then m.(hand := Nothing) else m
  }

  ghost function FreeSection(c: Chunk): (section: Section<Memory>) {
    [m => GiveUp(m, c)] + ReturnPages(c.page, c.count) + [LetGo]
  }

  /** The section of an allocation that is not too large, or of a free. */
  ghost predicate IsCall(section: Section<Memory>) {
    || (exists size: nat, md, find :: size <= MAX_ALLOCATION && Finds(find) && section == AllocSection(size, md, find))
    || (exists c :: section == FreeSection(c))
  }

  /** A choice that Finds is there to make. */
  ghost function FindFrom(blocks: set<Block>, level: nat): (hand: Hand)
    decreases BUDDY_LEVELS - level
  {
    if level >= BUDDY_LEVELS then Nothing
    else if b :| b in blocks && b.level == level then Taken(b)
    else FindFrom(blocks, level + 1)
  }

  lemma {:induction false} FindFromFinds(blocks: set<Block>, level: nat)
    requires AllWellFormed(blocks)
    ensures FoundIn(FindFrom(blocks, level), blocks, level)
    decreases BUDDY_LEVELS - level
  {
    if level < BUDDY_LEVELS && !exists b :: b in blocks && b.level == level {
      FindFromFinds(blocks, level + 1);
    }
  }

  lemma FindFromIsAFinder()
    ensures Finds(FindFrom)
  {
    forall blocks, level | AllWellFormed(blocks)
      ensures FoundIn(FindFrom(blocks, level), blocks, level)
    {
      FindFromFinds(blocks, level);
    }
  }

  // Sections that run without interruption.

  lemma {:induction false} PartialOfPrefix(s: Section<Memory>, more: Section<Memory>, n: nat, m: Memory)
    requires n <= |s|
    ensures Partial(s + more, n, m) == Partial(s, n, m)
  {
    if n > 0 {
      PartialOfPrefix(s, more, n - 1, m);
    }
  }

  lemma {:induction false} PartialOfAppend(s: Section<Memory>, more: Section<Memory>, n: nat, m: Memory)
    requires n <= |more|
    ensures Partial(s + more, |s| + n, m) == Partial(more, n, Whole(s, m))
  {
    if n == 0 {
      PartialOfPrefix(s, more, |s|, m);
    } else {
      PartialOfAppend(s, more, n - 1, m);
    }
  }

  lemma WholeOfAppend(s: Section<Memory>, more: Section<Memory>, m: Memory)
    ensures Whole(s + more, m) == Whole(more, Whole(s, m))
  {
    PartialOfAppend(s, more, |more|, m);
  }

  lemma WholeOfOne(f: Memory -> Memory, m: Memory)
    ensures Whole([f], m) == f(m)
  {
    assert Partial([f], 0, m) == m;
  }

  lemma WholeOfTwo(f: Memory -> Memory, g: Memory -> Memory, m: Memory)
    ensures Whole([f, g], m) == g(f(m))
  {
    assert Partial([f, g], 0, m) == m;
    assert Partial([f, g], 1, m) == f(m);
  }

  lemma {:induction false} RoundsCut(n: nat, m: Memory)
    requires m.hand.Cutting? && m.hand.limit <= m.hand.next + n && m.marked == m.listed
    ensures var blocks := CutInto(m.listed, m.hand.next, m.hand.limit);
            var m' := Whole(CutRounds(n), m);
            m'.hand.Cutting? && m' == m.(listed := blocks, marked := blocks, hand := m.hand.(next := m'.hand.next))
  {
    if n > 0 {
      var m' := MarkNext(LinkNext(m));
      hide Whole, FitLevel;
      WholeOfTwo(LinkNext, MarkNext, m);
      WholeOfAppend([LinkNext, MarkNext], CutRounds(n - 1), m);
      RoundsCut(n - 1, m');
    }
  }

  lemma {:induction false} NothingToCut(n: nat, m: Memory)
    requires !m.hand.Cutting?
    ensures Whole(CutRounds(n), m) == m
  {
    if n > 0 {
      hide Whole;
      WholeOfTwo(LinkNext, MarkNext, m);
      WholeOfAppend([LinkNext, MarkNext], CutRounds(n - 1), m);
      NothingToCut(n - 1, m);
    }
  }

  lemma WholeAlloc(size: nat, md: Metadata, find: Finder, m: Memory)
    ensures Whole(AllocSection(size, md, find), m)
         == HandOut(Whole(CutRounds(Pow2(TOP_LEVEL)), UnmarkFound(UnlinkFound(m, size, find), size)), size, md)
  {
    hide UnlinkFound, UnmarkFound, HandOut, CutRounds, Whole, Pow2;
    var start: Section<Memory> := [x => UnlinkFound(x, size, find), x => UnmarkFound(x, size)];
    var rounds := CutRounds(Pow2(TOP_LEVEL));
    var last: Section<Memory> := [x => HandOut(x, size, md)];
    WholeOfTwo(start[0], start[1], m);
    WholeOfAppend(start, rounds, m);
    WholeOfAppend(start + rounds, last, m);
    WholeOfOne(last[0], Whole(start + rounds, m));
  }

  lemma RestingIsCanonical(m: Memory)
    requires Ready(m)
    ensures Canonical(m.listed) && AllWellFormed(m.listed)
  {
  }

  lemma EntryIsAligned(m: Memory, entry: Block, level: nat)
    requires Ready(m) && entry in m.listed && level <= entry.level
    ensures Aligned(entry.page, level) && Pow2(level) <= Pow2(entry.level) && entry.End() <= |m.metadata|
    ensures Pow2(entry.level) <= Pow2(TOP_LEVEL)
  {
    LevelsGrow(entry.level, TOP_LEVEL);
    AlignedBelow(entry.page, level, entry.level);
    LevelsGrow(level, entry.level);
  }

  lemma ChunkIsManaged(m: Memory, entry: Block, c: Chunk)
    requires entry.End() <= |m.metadata| && c.page == entry.page && c.count <= Pow2(entry.level)
    ensures Applied(m.metadata, c.page, c.count, c.md, Stamped(m.metadata, c))
  {
  }

  /** The accesses of an allocation make one allocation call. */
  lemma AllocPerforms(size: nat, md: Metadata, find: Finder, m: Memory) returns (r: Allocation)
    requires Ready(m) && size <= MAX_ALLOCATION && Finds(find)
    ensures var m' := Whole(AllocSection(size, md, find), m);
            Ready(m') && AllocCall(View(m), size, md, r, View(m'))
  {
    hide Placed, Coalesced, Canonical, PagesOf, Pow2, Aligned, HasFreeRun, CutInto, PageRange, Applied, Stamped;
    hide FromLowest, AllWellFormed, MinBuddyLevelForSize, SizeToPageCount, Whole, AllocSection, CutRounds;
    WholeAlloc(size, md, find, m);
    RestingIsCanonical(m);
    var level, count := MinBuddyLevelForSize(size), SizeToPageCount(size);
    SearchLevelHolds(size);
    SearchFindsFreeRuns(m.listed, level);
    var hand := find(m.listed, level);
    assert FoundIn(hand, m.listed, level);
    var cutting := UnmarkFound(UnlinkFound(m, size, find), size);
    if hand.Taken? {
      LowestIsFound(m.listed, level, hand.entry);
      EntryIsAligned(m, hand.entry, level);
      RoundsCut(Pow2(TOP_LEVEL), cutting);
      CutRest(m.listed, hand.entry, count, |m.metadata|);
      ChunkIsManaged(m, hand.entry, Chunk(hand.entry.page, count, md));
      WholePages(hand.entry.page);
      r := Address(hand.entry.page * PAGE_SIZE);
    } else {
      NothingToCut(Pow2(TOP_LEVEL), cutting);
      r := Invalid;
    }
  }

  /** Inside a section the pages in hand are neither free nor held: the lock is what hides this. */
  lemma PagesInHandAreMissing(m: Memory, size: nat, find: Finder, first: World)
    requires Ready(m) && Conserves(View(m), first) && Finds(find) && UnlinkFound(m, size, find).hand.Taken?
    ensures !Conserves(View(UnlinkFound(m, size, find)), first)
    ensures UnlinkFound(m, size, find).listed != UnlinkFound(m, size, find).marked
  {
    hide Coalesced, ChunkKept;
    var entry := UnlinkFound(m, size, find).hand.entry;
    assert FoundIn(Taken(entry), m.listed, MinBuddyLevelForSize(size));
    RemoveEntry(m.listed, entry, |m.metadata|);
    assert entry.Contains(entry.page) && entry.page in entry.Pages() && entry.page in PagesOf(m.listed);
  }

  /** What the rounds make of lists, bits and hand: merging goes on until the buddy is not free. */
  lemma {:induction false} RoundsMerge(n: nat, m: Memory)
    requires m.hand.Returning? && m.marked == m.listed
    requires m.hand.merging ==> m.hand.block.level <= TOP_LEVEL <= m.hand.block.level + n
    ensures var m' := Whole(MergeRounds(n), m);
            && m'.hand.Returning? && m' == m.(listed := m'.listed, marked := m'.listed, hand := m'.hand)
            && m'.listed + {m'.hand.block}
               == if m.hand.merging then MergeUp(m.listed, m.hand.block) else m.listed + {m.hand.block}
  {
    if n > 0 {
      var m' := UnlinkBuddy(UnmarkBuddy(m));
      hide Whole;
      WholeOfTwo(UnmarkBuddy, UnlinkBuddy, m);
      WholeOfAppend([UnmarkBuddy, UnlinkBuddy], MergeRounds(n - 1), m);
      RoundsMerge(n - 1, m');
    }
  }

  lemma {:induction false} NothingToMerge(n: nat, m: Memory)
    requires !m.hand.Returning?
    ensures Whole(MergeRounds(n), m) == m
  {
    if n > 0 {
      hide Whole;
      WholeOfTwo(UnmarkBuddy, UnlinkBuddy, m);
      WholeOfAppend([UnmarkBuddy, UnlinkBuddy], MergeRounds(n - 1), m);
      NothingToMerge(n - 1, m);
    }
  }

  lemma WholeReturn(page: nat, m: Memory)
    ensures Whole(ReturnPage(page), m) == MarkHand(LinkHand(Whole(MergeRounds(TOP_LEVEL), PickPage(m, page))))
  {
    hide PickPage, LinkHand, MarkHand, MergeRounds, Whole;
    var first: Section<Memory> := [x => PickPage(x, page)];
    var rounds := MergeRounds(TOP_LEVEL);
    WholeOfOne(first[0], m);
    WholeOfAppend(first, rounds, m);
    WholeOfAppend(first + rounds, [LinkHand, MarkHand], m);
    WholeOfTwo(LinkHand, MarkHand, Whole(first + rounds, m));
  }

  lemma PageReturns(page: nat, m: Memory)
    requires m.hand.Returning? && m.marked == m.listed
    ensures var blocks := MergeUp(m.listed, Block(page, 0));
            var m' := Whole(ReturnPage(page), m);
            m'.hand.Returning? && m' == m.(listed := blocks, marked := blocks, hand := m'.hand)
  {
    hide Whole, MergeRounds, MergeUp, ReturnPage;
    WholeReturn(page, m);
    RoundsMerge(TOP_LEVEL, PickPage(m, page));
  }

  /** A chunk in hand goes back page by page. */
  lemma {:induction false} PagesReturn(page: nat, count: nat, m: Memory)
    requires m.hand.Returning? && m.marked == m.listed
    requires Placed(m.listed, |m.metadata|) && Coalesced(m.listed)
    requires page + count <= |m.metadata| && PageRange(page, page + count) !! PagesOf(m.listed)
    ensures var m' := Whole(ReturnPages(page, count), m);
            && m'.hand.Returning? && m' == m.(listed := m'.listed, marked := m'.listed, hand := m'.hand)
            && Placed(m'.listed, |m.metadata|) && Coalesced(m'.listed)
            && PagesOf(m'.listed) == PagesOf(m.listed) + PageRange(page, page + count)
  {
    hide Placed, Coalesced, PagesOf, MergeUp, PageRange, ReturnPage;
    if count == 0 {
      NoPages(page);
    } else {
      var last := page + count - 1;
      OneMorePage(PagesOf(m.listed), page, last);
      NextRun({}, page, last, last + 1);
      PagesReturn(page, count - 1, m);
      var rest := Whole(ReturnPages(page, count - 1), m);
      WholeOfAppend(ReturnPages(page, count - 1), ReturnPage(last), m);
      PageReturns(last, rest);
      SinglePage(last);
      PagesAreARange(Block(last, 0));
      MergeUpFrees(rest.listed, Block(last, 0), |m.metadata|);
    }
  }

  lemma NoPages(page: nat)
    ensures PageRange(page, page) == {}
  {
    assert forall q: nat :: !Between(page, q, page);
  }

  lemma WholeFree(c: Chunk, m: Memory)
    ensures Whole(FreeSection(c), m) == LetGo(Whole(ReturnPages(c.page, c.count), GiveUp(m, c)))
  {
    hide GiveUp, LetGo, ReturnPages, Whole;
    var first: Section<Memory> := [x => GiveUp(x, c)];
    var pages := ReturnPages(c.page, c.count);
    WholeOfOne(first[0], m);
    WholeOfAppend(first, pages, m);
    WholeOfAppend(first + pages, [LetGo], m);
    WholeOfOne(LetGo, Whole(first + pages, m));
  }

  lemma {:induction false} NothingToReturn(page: nat, count: nat, m: Memory)
    requires !m.hand.Returning?
    ensures Whole(ReturnPages(page, count), m) == m
  {
    if count > 0 {
      hide Whole, ReturnPage, MergeRounds;
      NothingToReturn(page, count - 1, m);
      WholeOfAppend(ReturnPages(page, count - 1), ReturnPage(page + count - 1), m);
      WholeReturn(page + count - 1, m);
      NothingToMerge(TOP_LEVEL, m);
    } else {
      assert Whole([], m) == m;
    }
  }

  /** The accesses of a free make one free call, or nothing happens. */
  lemma FreePerforms(c: Chunk, m: Memory)
    requires Ready(m)
    requires c in m.live ==> c.page + c.count <= |m.metadata| && c.Pages() !! PagesOf(m.listed)
    ensures var m' := Whole(FreeSection(c), m);
            Ready(m') && if c in m.live then FreeCall(View(m), c, View(m')) else m' == m
  {
    hide Placed, Coalesced, PagesOf, ReturnPages, Whole, FreeSection, SizeToPageCount;
    WholeFree(c, m);
    if c in m.live {
      PagesReturn(c.page, c.count, GiveUp(m, c));
      WholePages(c.page);
      WholePages(c.count);
    } else {
      NothingToReturn(c.page, c.count, m);
    }
  }

  /** The section is that of a call, and this is what the call does. */
  ghost predicate Makes(section: Section<Memory>, w: World, w': World) {
    || (exists size: nat, md, find, r {:trigger AllocSection(size, md, find), AllocCall(w, size, md, r, w')} ::
          section == AllocSection(size, md, find) && AllocCall(w, size, md, r, w'))
    || (exists c :: section == FreeSection(c) && FreeOrSkip(w, c, w'))
  }

  /** A section that a thread runs alone is one call, or changes nothing that its caller sees. */
  lemma SectionPerforms(section: Section<Memory>, m: Memory, first: World)
    requires IsCall(section) && Ready(m) && Conserves(View(m), first)
    ensures var m' := Whole(section, m);
            && Ready(m') && Conserves(View(m'), first)
            && Makes(section, View(m), View(m')) && Step(View(m), View(m'))
  {
    hide Ready, Conserves, AllocCall, FreeCall, AllocSection, FreeSection, PagesOf, LivePages;
    if size: nat, md, find :| size <= MAX_ALLOCATION && Finds(find) && section == AllocSection(size, md, find) {
      var r := AllocPerforms(size, md, find, m);
      AllocConserves(View(m), size, md, r, View(Whole(section, m)), first);
    } else {
      var c :| section == FreeSection(c);
      if c in m.live {
        HeldIsNotFree(View(m), c, first);
      }
      FreePerforms(c, m);
      if c in m.live {
        FreeConserves(View(m), c, View(Whole(section, m)), first);
      }
    }
  }

  lemma HeldIsNotFree(w: World, c: Chunk, first: World)
    requires Conserves(w, first) && c in w.live
    ensures c.page + c.count <= |w.pfa.metadata| && c.Pages() !! w.pfa.free
  {
    assert ChunkKept(w, c) && c.Pages() <= LivePages(w.live);
  }

  /** The worlds before, between and after the complete calls of the log. */
  ghost function Worlds(log: seq<Section<Memory>>, m: Memory): (worlds: seq<World>)
    ensures |worlds| == |log| + 1 && worlds[0] == View(m) && worlds[|worlds| - 1] == View(InSequence(log, m))
  {
    if log == [] then [View(m)]
    else Worlds(log[..|log| - 1], m) + [View(InSequence(log, m))]
  }

  ghost predicate AllCalls(log: seq<Section<Memory>>) {
    forall i :: 0 <= i < |log| ==> IsCall(log[i])
  }

  /** Each call of the log leads from its world to the next. */
  ghost predicate EachMade(log: seq<Section<Memory>>, worlds: seq<World>) {
    |worlds| == |log| + 1 && forall i :: 0 <= i < |log| ==> Makes(log[i], worlds[i], worlds[i + 1])
  }

  lemma {:induction false} SerialCallsAreARun(log: seq<Section<Memory>>, m: Memory)
    requires AllCalls(log) && AtStart(m)
    ensures Run(Worlds(log, m)) && EachMade(log, Worlds(log, m))
    ensures Ready(InSequence(log, m)) && Conserves(View(InSequence(log, m)), View(m))
  {
    hide Ready, Conserves, IsCall, Step, Makes;
    if log == [] {
      AtStartConserves(m);
    } else {
      var before := log[..|log| - 1];
      SerialCallsAreARun(before, m);
      SectionPerforms(log[|log| - 1], InSequence(before, m), View(m));
      assert InSequence(log, m) == Whole(log[|log| - 1], InSequence(before, m));
    }
  }

  /** An allocator at rest of which nothing is held. */
  ghost predicate AtStart(m: Memory) {
    Ready(m) && m.live == {}
  }

  lemma AtStartConserves(m: Memory)
    requires AtStart(m)
    ensures Run([View(m)]) && Conserves(View(m), View(m))
  {
    FreePagesAreManaged(m.listed, |m.metadata|);
    EveryStateConserves([View(m)]);
  }

  lemma FreePagesAreManaged(blocks: set<Block>, n: nat)
    requires Placed(blocks, n)
    ensures PagesOf(blocks) <= PageRange(0, n)
  {
    forall b, q | b in blocks && q in b.Pages()
      ensures Between(0, q, n)
    {
      assert b.Contains(q);
    }
  }

  /**
   * Whenever nobody holds the lock the buddy invariant holds (an entry is on its list iff its
   * bit is set, and whatever can merge has merged), no page is lost, none is handed out twice
   * and the metadata of every held page is as given.
   */
  lemma AtRestWhenFree(states: seq<State<Memory>>)
    requires Execution(states, 1) && OnlySections(states, IsCall)
    requires AtStart(states[0].data)
    ensures var first, last := states[0].data, states[|states| - 1];
            Free(last) ==>
              && last.data.listed == last.data.marked && Canonical(last.data.listed)
              && Conserves(View(last.data), View(first))
  {
    hide Next, SomeThreadSteps, OnlySections, LegalEntries, IsCall, Conserves, Placed, Coalesced;
    var first, last := states[0].data, states[|states| - 1];
    var legal := (section: Section<Memory>, d: Memory) => IsCall(section);
    var kept := (m: Memory) => Ready(m) && Conserves(View(m), View(first));
    OnlySectionsAreLegal(states, IsCall, legal);
    AtStartConserves(first);
    forall section, m | legal(section, m) && kept(m)
      ensures kept(Whole(section, m))
    {
      SectionPerforms(section, m, View(first));
    }
    KeptWhenFree(states, legal, kept);
    if Free(last) {
      RestingIsCanonical(last.data);
    }
  }

  /**
   * However the threads interleave: the completed calls form a run, and whenever nobody
   * holds the lock the memory is that of the last world of this run: its free entries are
   * the one coalesced decomposition of the free pages.
   */
  lemma ConcurrentCallsAreARun(states: seq<State<Memory>>)
    requires Execution(states, 1) && OnlySections(states, IsCall)
    requires AtStart(states[0].data)
    ensures var first, last := states[0].data, states[|states| - 1];
            var worlds := Worlds(last.log, first);
            && Run(worlds) && worlds[0] == View(first) && EachMade(last.log, worlds)
            && (Free(last) ==>
                  && View(last.data) == worlds[|worlds| - 1]
                  && last.data.listed == last.data.marked == MaximalEntries(worlds[|worlds| - 1].pfa.free))
  {
    hide Next, SomeThreadSteps, OnlySections, LegalEntries, IsCall, Conserves, Run, MaximalEntries, Canonical, EachMade;
    var first, last := states[0].data, states[|states| - 1];
    var legal := (section: Section<Memory>, d: Memory) => IsCall(section);
    OnlySectionsAreLegal(states, IsCall, legal);
    EverySectionIsLegal(states, legal);
    EveryStateIsSerial(states);
    SerialCallsAreARun(last.log, first);
    if Free(last) {
      AtRestWhenFree(states);
      CanonicalFormExists(PagesOf(last.data.listed));
    }
  }

  /** The memory after init is at rest, whatever init is given. */
  lemma BootedMemory(boot: BootMemory) returns (m: Memory)
    requires boot.Fits()
    ensures AtStart(m) && AfterInit(View(m).pfa, boot)
  {
    hide Canonical, MaximalEntries;
    var w := InitialWorld(boot);
    InitialWorldIsReached(boot);
    CanonicalFormExists(w.pfa.free);
    m := Memory(MaximalEntries(w.pfa.free), MaximalEntries(w.pfa.free), w.pfa.metadata, {}, Nothing);
    CanonicalIsPlaced(m.listed, |m.metadata|);
  }

  lemma CanonicalIsPlaced(blocks: set<Block>, n: nat)
    requires Canonical(blocks) && PagesOf(blocks) <= PageRange(0, n)
    ensures Placed(blocks, n) && Coalesced(blocks)
  {
    forall b | b in blocks
      ensures b.End() <= n
    {
      assert b.Contains(b.End() - 1) && b.End() - 1 in b.Pages();
      assert b.End() - 1 in PagesOf(blocks);
    }
  }

  /**
   * Whatever threads do after init, a reserved page is neither free nor held and has the
   * type that init gave it whenever nobody holds the lock.
   */
  lemma ReservedWhenFree(states: seq<State<Memory>>, boot: BootMemory, p: nat)
    requires Execution(states, 1) && OnlySections(states, IsCall)
    requires AtStart(states[0].data) && AfterInit(View(states[0].data).pfa, boot)
    requires boot.bootstrapReserved % PAGE_SIZE == 0 && boot.IsReserved(p)
    ensures var last := states[|states| - 1];
            var w := View(last.data);
            Free(last) ==>
              && !InCirculation(w, p) && p < |w.pfa.metadata|
              && w.pfa.metadata[p] == if boot.IsText(p) then PAGE_TYPE_KERNEL_TEXT else PAGE_TYPE_KERNEL_DATA
  {
    hide Next, SomeThreadSteps, OnlySections, AfterInit, InCirculation, Run, AtStart;
    ConcurrentCallsAreARun(states);
    ReservedPagesKeepTheirType(Worlds(states[|states| - 1].log, states[0].data), boot, p);
  }
}
