/**
 The allocator's own test cases (kernel/testing/tests/test_pmap_pfa.c), proved
 to pass for every allocator state instead of run on one.
 */
module AllocatorTests {
  import opened Pages
  import opened BuddyLevels
  import opened BuddySizes
  import opened BuddyBlocks
  import opened AllocatorSpec
  import opened AllocatorRuns
  import opened PageFrameAllocator

  ghost function Elements(pages: seq<nat>): (r: set<nat>) {
    set p | p in pages
  }

  ghost predicate Distinct(pages: seq<nat>) {
    forall i, j :: 0 <= i < j < |pages| ==> pages[i] != pages[j]
  }

  lemma OnePageIsAnyPage(free: set<nat>)
    ensures HasFreeRun(free, 0) <==> free != {}
    ensures MinBuddyLevelForSize(PAGE_SIZE) == 0 && SizeToPageCount(PAGE_SIZE) == 1
  {
    if p :| p in free {
      SinglePage(p);
      assert Full(free, Block(p, 0));
    }
    forall b: Block | b.WellFormed() && b.level == 0 && Full(free, b)
      ensures free != {}
    {
      assert b.Contains(b.page) && b.page in b.Pages();
    }
  }

  /** One page comes off the free set, or none is free. */
  method AllocateOne(pfa: Pfa, md: Metadata) returns (r: Allocation)
    requires pfa.Valid()
    modifies pfa.repr
    ensures pfa.Valid()
    ensures r.Invalid? <==> old(pfa.free) == {}
    ensures r.Invalid? ==> pfa.free == old(pfa.free)
    ensures r.Address? ==> r.pa / PAGE_SIZE in old(pfa.free) && pfa.free == old(pfa.free) - {r.pa / PAGE_SIZE}
  {
    hide Pfa.Valid;
    OnePageIsAnyPage(pfa.free);
    r := pfa.AllocContig(PAGE_SIZE, md);
    if r.Address? {
      SinglePage(r.pa / PAGE_SIZE);
      PagesAreARange(Block(r.pa / PAGE_SIZE, 0));
    }
  }

  method FreeOne(pfa: Pfa, page: nat)
    requires pfa.Valid() && page < pfa.pageCount && page !in pfa.free
    modifies pfa.repr
    ensures pfa.Valid() && pfa.free == old(pfa.free) + {page}
  {
    hide Pfa.Valid;
    pfa.ValidIsCanonical();
    OnePageIsAnyPage({});
    SinglePage(page);
    PagesAreARange(Block(page, 0));
    pfa.FreeContig(page * PAGE_SIZE, PAGE_SIZE);
  }

  lemma NothingTaken()
    ensures Distinct([]) && Elements([]) == {}
  {
  }

  lemma OneMore(pages: seq<nat>, page: nat)
    ensures Elements([page] + pages) == {page} + Elements(pages)
    ensures Elements(pages + [page]) == Elements(pages) + {page}
    ensures page !in Elements(pages) && Distinct(pages) ==> Distinct([page] + pages)
  {
  }

  /** Repeated one-page allocation hands out every free page exactly once and then fails (test_pmap_pfa.c:107-116). */
  method AllocateEverything(pfa: Pfa, md: Metadata) returns (pages: seq<nat>)
    requires pfa.Valid()
    modifies pfa.repr
    ensures pfa.Valid() && pfa.free == {}
    ensures Distinct(pages) && Elements(pages) == old(pfa.free)
  {
    hide Pfa.Valid, Distinct, Elements;
    pages := [];
    NothingTaken();
    while true
      invariant pfa.Valid()
      invariant Distinct(pages) && Elements(pages) !! pfa.free
      invariant Elements(pages) + pfa.free == old(pfa.free)
      decreases |pfa.free|
    {
      var r := AllocateOne(pfa, md);
      if r.Invalid? {
        break;
      }
      OneMore(pages, r.pa / PAGE_SIZE);
      pages := [r.pa / PAGE_SIZE] + pages;
    }
  }

  /** Freeing single pages in any order puts exactly them back (test_pmap_pfa.c:119-129). */
  method FreeEach(pfa: Pfa, pages: seq<nat>)
    requires pfa.Valid() && Distinct(pages)
    requires forall p :: p in pages ==> p < pfa.pageCount && p !in pfa.free
    modifies pfa.repr
    ensures pfa.Valid() && pfa.free == old(pfa.free) + Elements(pages)
  {
    hide Pfa.Valid;
    for i := 0 to |pages|
      invariant pfa.Valid()
      invariant pfa.free == old(pfa.free) + Elements(pages[..i])
    {
      assert pages[i] !in pages[..i];
      OneMore(pages[..i], pages[i]);
      assert pages[..i + 1] == pages[..i] + [pages[i]];
      FreeOne(pfa, pages[i]);
    }
    assert pages[..|pages|] == pages;
  }

  /** oom_sweep (test_pmap_pfa.c:90-138): the level counts are those of the start. */
  method OomSweep(pfa: Pfa, md: Metadata) returns (pages: seq<nat>, passed: bool)
    requires pfa.Valid()
    modifies pfa.repr
    ensures Distinct(pages) && Elements(pages) == old(pfa.free)
    ensures pfa.Valid() && pfa.blocks == old(pfa.blocks) && passed
  {
    hide Pfa.Valid, Canonical;
    pfa.ValidIsCanonical();
    var original := pfa.GetState();
    pages := AllocateEverything(pfa, md);
    assert forall p :: p in pages ==> p in Elements(pages);
    FreeEach(pfa, pages);
    pfa.ValidIsCanonical();
    CanonicalFormIsUnique(pfa.blocks, old(pfa.blocks));
    var state := pfa.GetState();
    passed := state == original;
  }

  ghost predicate Served(free: set<nat>, size: nat) {
    size <= MAX_ALLOCATION && HasFreeRun(free, MinBuddyLevelForSize(size))
  }

  /** A free run of the top level is enough for any request. */
  lemma TopRunServesAll(free: set<nat>, size: nat)
    requires HasFreeRun(free, TOP_LEVEL) && size <= MAX_ALLOCATION
    ensures Served(free, size)
  {
    var level := MinBuddyLevelForSize(size);
    SearchLevelHolds(size);
    var b: Block :| b.WellFormed() && b.level == TOP_LEVEL && Full(free, b);
    var first := Block(b.page, level);
    AlignedBelow(b.page, level, TOP_LEVEL);
    RootsNest(b.page, level, TOP_LEVEL);
    AlignedIsItsRoot(b.page, TOP_LEVEL);
    NestOrDisjoint(first, b);
    assert Full(free, first);
  }

  /** How a sweep ends: it may also free the result of a failed request, which is undefined. */
  datatype SweepResult = Passed | StateChanged | FreesInvalid

  /**
   * simple_sweep (test_pmap_pfa.c:26-41), for any number of requests of any sizes. It
   * passes exactly when each of them is served; one free run of the top level is enough.
   */
  method SimpleSweep(pfa: Pfa, md: Metadata, sizes: seq<nat>) returns (result: SweepResult)
    requires pfa.Valid()
    modifies pfa.repr
    ensures pfa.Valid() && pfa.blocks == old(pfa.blocks)
    ensures result == Passed <==> forall i :: 0 <= i < |sizes| ==> Served(old(pfa.free), sizes[i])
    ensures result == Passed || result == FreesInvalid
    ensures HasFreeRun(old(pfa.free), TOP_LEVEL) && (forall i :: 0 <= i < |sizes| ==> sizes[i] <= MAX_ALLOCATION) ==>
              result == Passed
  {
    hide Pfa.Valid, Canonical, HasFreeRun;
    if HasFreeRun(pfa.free, TOP_LEVEL) {
      forall i | 0 <= i < |sizes| && sizes[i] <= MAX_ALLOCATION
        ensures Served(pfa.free, sizes[i])
      {
        TopRunServesAll(pfa.free, sizes[i]);
      }
    }
    pfa.ValidIsCanonical();
    var original := pfa.GetState();
    for i := 0 to |sizes|
      invariant pfa.Valid() && pfa.blocks == old(pfa.blocks) && pfa.free == old(pfa.free)
      invariant forall k :: 0 <= k < i ==> Served(old(pfa.free), sizes[k])
    {
      var r := pfa.AllocContig(sizes[i], md);
      if r.Invalid? {
        assert !Served(old(pfa.free), sizes[i]);
        pfa.ValidIsCanonical();
        CanonicalFormIsUnique(pfa.blocks, old(pfa.blocks));
        return FreesInvalid;
      }
      pfa.FreeContig(r.pa, sizes[i]);
      pfa.ValidIsCanonical();
      CanonicalFormIsUnique(pfa.blocks, old(pfa.blocks));
      var state := pfa.GetState();
      if state != original {
        return StateChanged;
      }
    }
    return Passed;
  }

  /** A caller's script: requests, and frees of chunks it may or may not hold at that point. */
  datatype Call = Alloc(size: nat, md: Metadata) | Free(chunk: Chunk)

  /** What a call of a script does, with its result. */
  ghost predicate Performed(w: World, call: Call, r: Allocation, w': World) {
    match call
    case Alloc(size, md) => AllocCall(w, size, md, r, w')
    case Free(c) => FreeOrSkip(w, c, w')
  }

  /** The worlds before, between and after the calls of a script. */
  ghost predicate AllPerformed(script: seq<Call>, results: seq<Allocation>, worlds: seq<World>) {
    && |results| == |script| == |worlds| - 1
    && forall i :: 0 <= i < |script| ==> Performed(worlds[i], script[i], results[i], worlds[i + 1])
  }

  lemma PerformedIsAStep(w: World, call: Call, r: Allocation, w': World)
    requires Performed(w, call, r, w')
    ensures Step(w, w')
  {
    hide AllocCall, FreeOrSkip;
  }

  /** One more call. */
  lemma OneMoreCall(script: seq<Call>, results: seq<Allocation>, worlds: seq<World>, call: Call, r: Allocation,
                    w: World)
    requires AllPerformed(script, results, worlds) && Run(worlds)
    requires Performed(worlds[|worlds| - 1], call, r, w)
    ensures AllPerformed(script + [call], results + [r], worlds + [w]) && Run(worlds + [w])
  {
    hide Performed, Step;
    PerformedIsAStep(worlds[|worlds| - 1], call, r, w);
    ExtendRun(worlds, w);
  }

  /** One call on the real data structures. */
  method Perform(pfa: Pfa, call: Call, live: set<Chunk>, ghost worlds: seq<World>)
    returns (r: Allocation, live': set<Chunk>)
    requires pfa.Valid() && Run(worlds) && worlds[|worlds| - 1] == World(pfa.State(), live)
    modifies pfa.repr
    ensures pfa.Valid() && Performed(old(World(pfa.State(), live)), call, r, World(pfa.State(), live'))
  {
    hide Pfa.Valid, AllocStep, FreeStep, CanFree;
    r, live' := Invalid, live;
    match call {
      case Alloc(size, md) =>
        r := pfa.AllocContig(size, md);
        if r.Address? && size > 0 {
          live' := live + {Chunk(r.pa / PAGE_SIZE, SizeToPageCount(size), md)};
        }
      case Free(c) =>
        if c in live {
          HeldChunksCanBeFreed(worlds, c);
          pfa.FreeContig(c.page * PAGE_SIZE, c.count * PAGE_SIZE);
          live' := live - {c};
        }
    }
  }

  /**
   * Makes any calls in any order, skipping frees of what is not held. Every
   * call does what it promises, and the states form a Run.
   */
  method Execute(pfa: Pfa, script: seq<Call>)
    returns (results: seq<Allocation>, live: set<Chunk>, ghost worlds: seq<World>)
    requires pfa.Valid()
    modifies pfa.repr
    ensures pfa.Valid()
    ensures AllPerformed(script, results, worlds) && Run(worlds) && worlds[0] == World(old(pfa.State()), {})
    ensures worlds[|worlds| - 1] == World(pfa.State(), live)
  {
    hide Pfa.Valid, Performed, Run, PageRange;
    results, live, worlds := [], {}, [World(pfa.State(), {})];
    StartsARun(pfa);
    assert script[..0] == [];
    for i := 0 to |script|
      invariant pfa.Valid() && Run(worlds) && AllPerformed(script[..i], results, worlds)
      invariant worlds[0] == World(old(pfa.State()), {})
      invariant worlds[|worlds| - 1] == World(pfa.State(), live)
    {
      var r;
      r, live := Perform(pfa, script[i], live, worlds);
      OneMoreCall(script[..i], results, worlds, script[i], r, World(pfa.State(), live));
      assert script[..i + 1] == script[..i] + [script[i]];
      results, worlds := results + [r], worlds + [World(pfa.State(), live)];
    }
    assert script[..|script|] == script;
  }

  lemma StartsARun(pfa: Pfa)
    requires pfa.Valid()
    ensures Run([World(pfa.State(), {})])
  {
    ManagedPages(pfa);
  }
  lemma ManagedPages(pfa: Pfa)
    requires pfa.Valid()
    ensures pfa.free <= PageRange(0, |pfa.State().metadata|)
  {
    pfa.ValidIsCanonical();
    assert forall p :: p in pfa.free ==> Between(0, p, pfa.pageCount);
  }

  lemma ExtendRun(worlds: seq<World>, w: World)
    requires Run(worlds) && Step(worlds[|worlds| - 1], w)
    ensures Run(worlds + [w])
  {
  }

  /** multi_sweep (test_pmap_pfa.c:43-82), for any script that frees all it holds, in any order. */
  method MultiSweep(pfa: Pfa, script: seq<Call>)
    returns (results: seq<Allocation>, live: set<Chunk>, passed: bool, ghost worlds: seq<World>)
    requires pfa.Valid()
    modifies pfa.repr
    ensures pfa.Valid() && AllPerformed(script, results, worlds)
    ensures worlds[0] == World(old(pfa.State()), {}) && worlds[|worlds| - 1].live == live
    ensures live == {} ==> passed && pfa.blocks == old(pfa.blocks)
  {
    hide Pfa.Valid, Canonical, Run, Performed;
    pfa.ValidIsCanonical();
    var original := pfa.GetState();
    results, live, worlds := Execute(pfa, script);
    pfa.ValidIsCanonical();
    var state := pfa.GetState();
    passed := state == original;
    if live == {} {
      FreeingEverythingRestores(worlds, old(pfa.blocks), pfa.blocks);
    }
  }
}
