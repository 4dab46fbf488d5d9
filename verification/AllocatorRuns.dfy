/**
 Whole runs of allocator calls: what every state reachable from init keeps,
 and what is back in place once everything has been freed.
 */
module AllocatorRuns {
  import opened Pages
  import opened BuddySizes
  import opened BuddyBlocks
  import opened AllocatorSpec

  /** The allocator and the allocations that callers hold. */
  datatype World = World(pfa: PfaState, live: set<Chunk>)

  /** A call of pmap_pfa_alloc_contig; an allocation of no pages leaves nothing to hold. */
  ghost predicate AllocCall(w: World, size: nat, md: Metadata, r: Allocation, w': World) {
    && AllocStep(w.pfa, size, md, r, w'.pfa)
    && w'.live == if r.Address? && size > 0
                  then w.live + {Chunk(r.pa / PAGE_SIZE, SizeToPageCount(size), md)}
                  else w.live
  }

  /** A call of pmap_pfa_free_contig for an allocation that a caller holds. */
  ghost predicate FreeCall(w: World, c: Chunk, w': World) {
    && c in w.live
    && FreeStep(w.pfa, c.page * PAGE_SIZE, c.count * PAGE_SIZE, w'.pfa)
    && w'.live == w.live - {c}
  }

  /** A free is skipped when the caller does not hold the chunk. */
  ghost predicate FreeOrSkip(w: World, c: Chunk, w': World) {
    if c in w.live then FreeCall(w, c, w') else w' == w
  }

  ghost predicate Step(w: World, w': World) {
    || (exists size: nat, md, r :: AllocCall(w, size, md, r, w'))
    || (exists c :: FreeOrSkip(w, c, w'))
  }

  /** Any calls in any order, from a state in which nothing is held. */
  ghost predicate Run(worlds: seq<World>) {
    && |worlds| > 0 && worlds[0].live == {}
    && worlds[0].pfa.free <= PageRange(0, |worlds[0].pfa.metadata|)
    && forall i :: 0 <= i < |worlds| - 1 ==> Step(worlds[i], worlds[i + 1])
  }

  ghost function LivePages(live: set<Chunk>): (r: set<nat>) {
    set c, q | c in live && q in c.Pages() :: q
  }

  ghost predicate ChunkKept(w: World, c: Chunk) {
    && c.count > 0
    && c.page + c.count <= |w.pfa.metadata|
    && forall p {:trigger w.pfa.metadata[p]} :: c.page <= p < c.page + c.count ==> w.pfa.metadata[p] == c.md
  }

  /**
   * Since the state `first`: no page is lost, none is handed out twice, the metadata of a
   * held page is what its allocation was given, and that of a page that was not free at
   * first is what it was.
   */
  ghost predicate Conserves(w: World, first: World) {
    && |w.pfa.metadata| == |first.pfa.metadata| && first.pfa.free <= PageRange(0, |w.pfa.metadata|)
    && w.pfa.free + LivePages(w.live) == first.pfa.free
    && w.pfa.free !! LivePages(w.live)
    && (forall c, d :: c in w.live && d in w.live && c != d ==> c.Pages() !! d.Pages())
    && (forall c :: c in w.live ==> ChunkKept(w, c))
    && (forall p {:trigger w.pfa.metadata[p]} :: 0 <= p < |w.pfa.metadata| && p !in first.pfa.free ==>
          w.pfa.metadata[p] == first.pfa.metadata[p])
  }

  lemma WholePages(count: nat)
    ensures SizeToPageCount(count * PAGE_SIZE) == count && count * PAGE_SIZE / PAGE_SIZE == count
  {
  }

  lemma AllocConserves(w: World, size: nat, md: Metadata, r: Allocation, w': World, first: World)
    requires Conserves(w, first) && AllocCall(w, size, md, r, w')
    ensures Conserves(w', first)
  {
    if r.Address? {
      var c := Chunk(r.pa / PAGE_SIZE, SizeToPageCount(size), md);
      assert c.Pages() <= w.pfa.free;
      if size > 0 {
        assert LivePages(w'.live) == LivePages(w.live) + c.Pages();
      } else {
        assert forall q: nat :: !Between(c.page, q, c.page);
        assert c.Pages() == {};
      }
      forall d | d in w.live
        ensures d.Pages() !! c.Pages() && ChunkKept(w', d)
      {
        assert ChunkKept(w, d) && d.Pages() <= LivePages(w.live);
        forall p | d.page <= p < d.page + d.count
          ensures w'.pfa.metadata[p] == d.md
        {
          assert Between(d.page, p, d.page + d.count) && p in d.Pages();
          assert !Between(c.page, p, c.page + c.count);
          assert w.pfa.metadata[p] == d.md;
        }
      }
    }
  }

  lemma FreeConserves(w: World, c: Chunk, w': World, first: World)
    requires Conserves(w, first) && FreeCall(w, c, w')
    ensures Conserves(w', first)
  {
    WholePages(c.page);
    WholePages(c.count);
    assert LivePages(w.live) == LivePages(w'.live) + c.Pages();
    forall d | d in w'.live
      ensures ChunkKept(w', d)
    {
      assert ChunkKept(w, d);
    }
  }

  lemma StartConserves(w: World)
    requires w.live == {} && w.pfa.free <= PageRange(0, |w.pfa.metadata|)
    ensures Conserves(w, w)
  {
    assert LivePages(w.live) == {};
  }

  /** Every state of every run conserves the pages that were free at the start, and all others' metadata. */
  lemma {:induction false} EveryStateConserves(worlds: seq<World>)
    requires Run(worlds)
    ensures Conserves(worlds[|worlds| - 1], worlds[0])
  {
    hide Conserves, AllocCall, FreeCall;
    var last := |worlds| - 1;
    if last == 0 {
      StartConserves(worlds[0]);
    } else {
      var before := worlds[..last];
      assert forall i :: 0 <= i < |before| - 1 ==> Step(worlds[i], worlds[i + 1]);
      EveryStateConserves(before);
      var w, w' := worlds[last - 1], worlds[last];
      assert before[|before| - 1] == w && Step(w, w');
      if size: nat, md, r :| AllocCall(w, size, md, r, w') {
        AllocConserves(w, size, md, r, w', worlds[0]);
      } else {
        var c :| FreeOrSkip(w, c, w');
        if c in w.live {
          FreeConserves(w, c, w', worlds[0]);
        }
      }
    }
  }

  /** An allocation that is held may be freed, in whole. */
  lemma HeldChunksCanBeFreed(worlds: seq<World>, c: Chunk)
    requires Run(worlds) && c in worlds[|worlds| - 1].live
    ensures CanFree(worlds[|worlds| - 1].pfa, c.page * PAGE_SIZE, c.count * PAGE_SIZE)
  {
    EveryStateConserves(worlds);
    WholePages(c.page);
    WholePages(c.count);
    assert ChunkKept(worlds[|worlds| - 1], c);
    assert c.Pages() <= LivePages(worlds[|worlds| - 1].live);
  }

  /**
   * Once nothing is held any more, the free entries of every level are those
   * of the start, whatever was allocated and in whatever order it was freed.
   */
  lemma FreeingEverythingRestores(worlds: seq<World>, start: set<Block>, end: set<Block>)
    requires Run(worlds) && worlds[|worlds| - 1].live == {}
    requires Canonical(start) && PagesOf(start) == worlds[0].pfa.free
    requires Canonical(end) && PagesOf(end) == worlds[|worlds| - 1].pfa.free
    ensures end == start
  {
    EveryStateConserves(worlds);
    assert LivePages({}) == {};
    CanonicalFormIsUnique(start, end);
  }
}
