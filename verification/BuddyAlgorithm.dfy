/**
 The steps of the allocator on a set of free entries as a value: merging on
 free, cutting up a run, and the search for an entry
 (kernel/machine/pmap/pmap_pfa.c:287-327, 461-492, 579-623).
 */
module BuddyAlgorithm {
  import opened Bits
  import opened BuddyLevels
  import opened BuddyBlocks

  /** Frees the entry in hand: merges it with its buddy as long as that is free (pmap_pfa.c:589-622). */
  ghost function MergeUp(blocks: set<Block>, hand: Block): (r: set<Block>)
    decreases TOP_LEVEL - hand.level
  {
    if hand.level < TOP_LEVEL && hand.WellFormed() && Buddy(hand) in blocks
    then MergeUp(blocks - {Buddy(hand)}, Parent(hand))
    else blocks + {hand}
  }

  lemma {:induction false} MergeUpFrees(blocks: set<Block>, hand: Block, n: nat)
    requires Placed(blocks, n) && Coalesced(blocks) && hand.WellFormed() && hand.End() <= n
    requires hand.Pages() !! PagesOf(blocks)
    ensures var r := MergeUp(blocks, hand);
            Placed(r, n) && Coalesced(r) && PagesOf(r) == PagesOf(blocks) + hand.Pages()
    decreases TOP_LEVEL - hand.level
  {
    hide Placed, Coalesced, PagesOf;
    PlacedIsWellFormed(blocks, n);
    if hand.level < TOP_LEVEL && Buddy(hand) in blocks {
      MergeStep(blocks, hand, n);
      RemoveEntry(blocks, Buddy(hand), n);
      MergeUpFrees(blocks - {Buddy(hand)}, Parent(hand), n);
    } else {
      AddEntry(blocks, hand, n);
      AddWithoutBuddy(blocks, hand);
    }
  }

  lemma PlacedIsWellFormed(blocks: set<Block>, n: nat)
    requires Placed(blocks, n)
    ensures AllWellFormed(blocks)
  {
  }

  /** The highest level, from `level` down, of an entry that starts here and ends by `limit`. */
  function FitLevel(start: nat, limit: nat, level: nat): (r: nat) {
    if level == 0 || (Aligned(start, level) && start + Pow2(level) <= limit) then level
    else FitLevel(start, limit, level - 1)
  }

  lemma {:induction false} FitLevelFits(start: nat, limit: nat, level: nat)
    requires start < limit && level <= TOP_LEVEL
    requires CannotGrow(Block(start, level), limit)
    ensures var b := Block(start, FitLevel(start, limit, level));
            b.WellFormed() && b.End() <= limit && CannotGrow(b, limit)
  {
    if level > 0 && !(Aligned(start, level) && start + Pow2(level) <= limit) {
      FitLevelFits(start, limit, level - 1);
    }
  }

  /** Adds a run as the largest entries that fit, from left to right (pmap_pfa.c:287-327). */
  ghost function CutInto(blocks: set<Block>, from: nat, limit: nat): (r: set<Block>)
    decreases limit - from
  {
    if from >= limit then blocks
    else
      var b := Block(from, FitLevel(from, limit, TOP_LEVEL));
      CutInto(blocks + {b}, b.End(), limit)
  }

  lemma {:induction false} CutIntoInserts(before: set<Block>, blocks: set<Block>, base: nat, from: nat, limit: nat,
                                          n: nat)
    requires Placed(blocks, n) && Coalesced(blocks) && base <= from <= limit <= n
    requires PageRange(from, limit) !! PagesOf(blocks)
    requires before <= blocks && NoBuddyIn(before, base, limit)
    requires forall c :: c in blocks - before ==> c.End() <= from && CannotGrow(c, limit)
    ensures var r := CutInto(blocks, from, limit);
            Placed(r, n) && Coalesced(r) && PagesOf(r) == PagesOf(blocks) + PageRange(from, limit)
    decreases limit - from
  {
    if from < limit {
      var b := Block(from, FitLevel(from, limit, TOP_LEVEL));
      FitLevelFits(from, limit, TOP_LEVEL);
      hide Placed, Coalesced, PagesOf, FitLevel, PageRange, Pow2;
      PlacedIsWellFormed(blocks, n);
      PagesAreARange(b);
      NextRun({}, from, b.End(), limit);
      TwoRuns(from, b.End(), limit);
      GreedyEntryHasNoBuddy(before, blocks, base, b, limit);
      AddEntry(blocks, b, n);
      AddWithoutBuddy(blocks, b);
      CutIntoInserts(before, blocks + {b}, base, b.End(), limit, n);
    } else {
      assert forall q: nat :: !Between(from, q, limit);
    }
  }

  /** What taking an entry off and putting its tail back does to the free pages. */
  lemma CutEntry(blocks: set<Block>, entry: Block, count: nat, n: nat)
    requires Canonical(blocks) && Placed(blocks, n) && entry in blocks && count <= Pow2(entry.level)
    ensures NoBuddyIn(blocks - {entry}, entry.page + count, entry.End())
    ensures PageRange(entry.page + count, entry.End()) <= entry.Pages() <= PagesOf(blocks)
    ensures PageRange(entry.page, entry.page + count) <= PagesOf(blocks)
    ensures PagesOf(blocks) - entry.Pages() + PageRange(entry.page + count, entry.End())
            == PagesOf(blocks) - PageRange(entry.page, entry.page + count)
  {
    TailHasNoBuddy(blocks, entry, entry.page + count);
    PagesAreARange(entry);
    TwoRuns(entry.page, entry.page + count, entry.End());
    NextRun({}, entry.page, entry.page + count, entry.End());
    assert entry.Pages() <= PagesOf(blocks);
  }

  /** Cutting up the rest of an entry takes off exactly its first `count` pages. */
  lemma CutRest(blocks: set<Block>, entry: Block, count: nat, n: nat)
    requires Canonical(blocks) && Placed(blocks, n) && entry in blocks && count <= Pow2(entry.level)
    ensures var r := CutInto(blocks - {entry}, entry.page + count, entry.End());
            && Placed(r, n) && Coalesced(r)
            && PagesOf(r) == PagesOf(blocks) - PageRange(entry.page, entry.page + count)
    ensures PageRange(entry.page, entry.page + count) <= PagesOf(blocks)
  {
    hide CutInto, NoBuddyIn;
    var rest := blocks - {entry};
    CutEntry(blocks, entry, count, n);
    RemoveEntry(blocks, entry, n);
    CutIntoInserts(rest, rest, entry.page + count, entry.page + count, entry.End(), n);
  }
}
