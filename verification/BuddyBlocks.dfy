/**
 Sets of free entries, without the lists and bitmaps that store them. The main
 result is that a coalesced set of free entries is determined by the pages it
 covers (CanonicalFormIsUnique).
 */
module BuddyBlocks {
  import opened Bits
  import opened BuddyLevels
  import opened BuddySizes

  /** An entry of the buddy allocator: its first page and its level. */
  datatype Block = Block(page: nat, level: nat) {
    function End(): (r: nat) {
      page + Pow2(level)
    }

    predicate Contains(q: nat) {
      page <= q < End()
    }

    ghost function Pages(): (r: set<nat>) {
      set q: nat | page <= q < End() && Contains(q)
    }

    predicate WellFormed() {
      level < BUDDY_LEVELS && Aligned(page, level)
    }
  }

  function Buddy(b: Block): (buddy: Block)
    requires Aligned(b.page, b.level)
  {
    BuddyIsTheOtherHalf(b.page, b.level);
    Block(BuddyPage(b.page, b.level), b.level)
  }

  function Parent(b: Block): (r: Block) {
    Block(RootBuddyPage(b.page, b.level), b.level + 1)
  }

  ghost function PagesOf(blocks: set<Block>): (r: set<nat>) {
    set b, q | b in blocks && q in b.Pages() :: q
  }

  /** The pages [start, end). */
  ghost function PageRange(start: nat, end: nat): (r: set<nat>) {
    set q: nat | start <= q < end && Between(start, q, end)
  }

  predicate Between(start: nat, q: nat, end: nat) {
    start <= q < end
  }

  ghost function EntriesAt(blocks: set<Block>, level: nat): (r: set<Block>) {
    set b | b in blocks && b.level == level
  }

  ghost predicate AllWellFormed(blocks: set<Block>) {
    forall b :: b in blocks ==> b.WellFormed()
  }

  ghost predicate Disjoint(blocks: set<Block>) {
    forall a, b :: a in blocks && b in blocks && a != b ==> a.End() <= b.page || b.End() <= a.page
  }

  /** Below the top level no entry has a free buddy. */
  ghost predicate Coalesced(blocks: set<Block>)
    requires AllWellFormed(blocks)
  {
    forall b :: b in blocks && b.level < TOP_LEVEL ==> Buddy(b) !in blocks
  }

  /** The buddy invariant. */
  ghost predicate Canonical(blocks: set<Block>) {
    AllWellFormed(blocks) && Disjoint(blocks) && Coalesced(blocks)
  }

  /** All of an entry's pages are in a set of pages. */
  ghost predicate Full(pages: set<nat>, b: Block) {
    b.Pages() <= pages
  }

  /** Two aligned entries either nest or do not meet. */
  lemma NestOrDisjoint(a: Block, b: Block)
    requires a.WellFormed() && b.WellFormed() && a.level <= b.level
    ensures a.Pages() <= b.Pages() || a.End() <= b.page || b.End() <= a.page
    ensures a.Pages() <= b.Pages() <==> Root(a.page, b.level) == b.page
  {
    assert a.page in a.Pages();
    RootIsTheEntry(a.page, b.level, b.page);
    AlignedIsItsRoot(a.page, a.level);
    RootsNest(a.page, a.level, b.level);
    if Root(a.page, b.level) != b.page && a.page < b.page < a.End() {
      RootIsTheEntry(b.page, a.level, a.page);
      AlignedBelow(b.page, a.level, b.level);
      AlignedIsItsRoot(b.page, a.level);
      assert false;
    }
  }

  lemma PagesAreARange(b: Block)
    ensures b.Pages() == PageRange(b.page, b.End())
  {
    assert forall q: nat :: b.Contains(q) <==> Between(b.page, q, b.End());
  }

  lemma SinglePage(page: nat)
    ensures Block(page, 0).WellFormed() && Block(page, 0).End() == page + 1 && Block(page, 0).Pages() == {page}
  {
    assert forall q: nat :: Block(page, 0).Contains(q) <==> q == page;
  }

  lemma TwoRuns(start: nat, middle: nat, end: nat)
    requires start <= middle <= end
    ensures PageRange(start, end) == PageRange(start, middle) + PageRange(middle, end)
  {
    assert forall q: nat :: Between(start, q, end) <==> Between(start, q, middle) || Between(middle, q, end);
  }

  /** An entry one level up is its two halves. */
  lemma HalvesOf(page: nat, level: nat) returns (left: Block, right: Block)
    requires level + 1 < BUDDY_LEVELS && Aligned(page, level + 1)
    ensures left == Block(page, level) && right == Block(page + Pow2(level), level)
    ensures left.WellFormed() && right.WellFormed() && Buddy(left) == right && Buddy(right) == left
    ensures Parent(left) == Parent(right) == Block(page, level + 1)
    ensures Block(page, level + 1).Pages() == left.Pages() + right.Pages()
  {
    hide Aligned, Root, ShiftRight, Pow2, BuddyPage;
    left, right := Block(page, level), Block(page + Pow2(level), level);
    AlignedGrowth(page, level);
    AlignedIsItsRoot(page, level + 1);
    BuddyIsTheOtherHalf(page, level);
    TwoRuns(page, left.End(), right.End());
    NextPow2(level);
    PagesAreARange(Block(page, level + 1));
    PagesAreARange(left);
    PagesAreARange(right);
  }

  /** An entry inside one of the same level is that entry; inside one of a higher level, its parent is too. */
  lemma InsideHigherOrSame(a: Block, b: Block)
    requires a.WellFormed() && b.WellFormed() && a.level <= b.level && a.Pages() <= b.Pages()
    ensures a.level == b.level ==> a == b
    ensures a.level < b.level ==> Parent(a).WellFormed() && Parent(a).Pages() <= b.Pages()
  {
    NestOrDisjoint(a, b);
    AlignedIsItsRoot(a.page, a.level);
    assert b == Block(b.page, b.level) && a == Block(a.page, a.level);
    if a.level < b.level {
      BuddyIsTheOtherHalf(a.page, a.level);
      RootOfRoot(a.page, a.level + 1, b.level);
      NestOrDisjoint(Parent(a), b);
    }
  }

  /**
   * In a coalesced set, an aligned entry whose pages are all free lies inside
   * one free entry: it is never pieced together from smaller ones.
   */
  lemma {:induction false} FullEntryIsInsideOne(blocks: set<Block>, b: Block) returns (cover: Block)
    requires Canonical(blocks) && b.WellFormed() && Full(PagesOf(blocks), b)
    ensures cover in blocks && b.level <= cover.level && b.Pages() <= cover.Pages()
    decreases b.level
  {
    if b.level == 0 {
      SinglePage(b.page);
      assert b == Block(b.page, 0);
      assert b.page in PagesOf(blocks);
      cover :| cover in blocks && b.page in cover.Pages();
    } else {
      var left, right := HalvesOf(b.page, b.level - 1);
      assert b == Parent(left) == Parent(right);
      var c := FullEntryIsInsideOne(blocks, left);
      var d := FullEntryIsInsideOne(blocks, right);
      InsideHigherOrSame(left, c);
      InsideHigherOrSame(right, d);
      assert left !in blocks || right !in blocks;
      cover := if c.level == left.level then d else c;
    }
  }

  /**
   * The entries of a coalesced set are exactly the maximal free aligned
   * entries: nothing but the free pages decides them.
   */
  lemma EntriesAreTheMaximalOnes(blocks: set<Block>, b: Block)
    requires Canonical(blocks) && b.WellFormed()
    ensures b in blocks <==>
            && Full(PagesOf(blocks), b)
            && (b.level == TOP_LEVEL || !Full(PagesOf(blocks), Parent(b)))
  {
    var free := PagesOf(blocks);
    if b in blocks {
      if b.level < TOP_LEVEL && Full(free, Parent(b)) {
        StaysBelowParent(blocks, b);
      }
    } else if Full(free, b) {
      var cover := FullEntryIsInsideOne(blocks, b);
      InsideHigherOrSame(b, cover);
    }
  }

  lemma StaysBelowParent(blocks: set<Block>, b: Block)
    requires Canonical(blocks) && b in blocks && b.level < TOP_LEVEL
    ensures !Full(PagesOf(blocks), Parent(b))
  {
    BuddyIsTheOtherHalf(b.page, b.level);
    assert Parent(b).Contains(b.page) && b.page in Parent(b).Pages();
    if Full(PagesOf(blocks), Parent(b)) {
      var cover := FullEntryIsInsideOne(blocks, Parent(b));
      assert false;
    }
  }

  /** Two coalesced states with the same free pages have the same free entries at every level. */
  lemma CanonicalFormIsUnique(s: set<Block>, t: set<Block>)
    requires Canonical(s) && Canonical(t) && PagesOf(s) == PagesOf(t)
    ensures s == t
  {
    forall b | b in s || b in t
      ensures b in s && b in t
    {
      EntriesAreTheMaximalOnes(s, b);
      EntriesAreTheMaximalOnes(t, b);
    }
  }

  /** Aligned entries that do not overlap and lie below page n. */
  ghost predicate Placed(blocks: set<Block>, n: nat) {
    AllWellFormed(blocks) && Disjoint(blocks) && forall b :: b in blocks ==> b.End() <= n
  }

  lemma AddEntry(blocks: set<Block>, b: Block, n: nat)
    requires Placed(blocks, n) && b.WellFormed() && b.End() <= n && b.Pages() !! PagesOf(blocks)
    ensures Placed(blocks + {b}, n)
    ensures PagesOf(blocks + {b}) == PagesOf(blocks) + b.Pages()
    ensures forall c :: c in blocks ==> c.page != b.page
  {
    forall c | c in blocks
      ensures c.End() <= b.page || b.End() <= c.page
    {
      assert c.Contains(c.page) && b.Contains(b.page);
      assert c.page in c.Pages() && b.page in b.Pages();
      if c.level <= b.level {
        NestOrDisjoint(c, b);
      } else {
        NestOrDisjoint(b, c);
      }
    }
  }

  lemma RemoveEntry(blocks: set<Block>, b: Block, n: nat)
    requires Placed(blocks, n) && b in blocks
    ensures Placed(blocks - {b}, n)
    ensures PagesOf(blocks - {b}) == PagesOf(blocks) - b.Pages()
    ensures Coalesced(blocks) ==> Coalesced(blocks - {b})
  {
    forall c, q | c in blocks && c != b && q in c.Pages()
      ensures q !in b.Pages()
    {
      assert c.Contains(q);
      assert !b.Contains(q);
    }
  }

  lemma AddWithoutBuddy(blocks: set<Block>, b: Block)
    requires AllWellFormed(blocks) && Coalesced(blocks) && b.WellFormed()
    requires b.level < TOP_LEVEL ==> Buddy(b) !in blocks
    ensures Coalesced(blocks + {b})
  {
    forall c | c in blocks + {b} && c.level < TOP_LEVEL
      ensures Buddy(c) !in blocks + {b}
    {
      BuddyIsTheOtherHalf(c.page, c.level);
      BuddyIsTheOtherHalf(b.page, b.level);
      assert Buddy(Buddy(c)) == c;
    }
  }

  lemma ParentIsBoth(b: Block)
    requires b.WellFormed() && b.level < TOP_LEVEL
    ensures Parent(b).WellFormed() && Buddy(b).WellFormed()
    ensures Parent(b).Pages() == b.Pages() + Buddy(b).Pages() && b.Pages() !! Buddy(b).Pages()
    ensures Parent(b).End() == if b.page < Buddy(b).page then Buddy(b).End() else b.End()
  {
    BuddyIsTheOtherHalf(b.page, b.level);
    var left, right := HalvesOf(Parent(b).page, b.level);
    assert b == Block(b.page, b.level);
    assert (left == b && right == Buddy(b)) || (right == b && left == Buddy(b));
  }

  /** A free aligned entry that is not part of a larger one. */
  ghost predicate Maximal(pages: set<nat>, b: Block) {
    b.WellFormed() && Full(pages, b) && (b.level == TOP_LEVEL || !Full(pages, Parent(b)))
  }

  ghost function MaximalEntries(pages: set<nat>): (blocks: set<Block>) {
    set q, l | q in pages && 0 <= l < BUDDY_LEVELS && Maximal(pages, Block(q, l)) :: Block(q, l)
  }

  lemma MaximalIsMember(pages: set<nat>, b: Block)
    ensures b in MaximalEntries(pages) <==> Maximal(pages, b)
  {
    if Maximal(pages, b) {
      assert b.Contains(b.page) && b.page in b.Pages() && b == Block(b.page, b.level);
    }
  }

  /** Every free entry lies in a maximal one. */
  lemma {:induction false} Climb(pages: set<nat>, b: Block) returns (top: Block)
    requires b.WellFormed() && Full(pages, b)
    ensures Maximal(pages, top) && b.Pages() <= top.Pages()
    decreases TOP_LEVEL - b.level
  {
    if b.level == TOP_LEVEL || !Full(pages, Parent(b)) {
      top := b;
    } else {
      ParentIsBoth(b);
      top := Climb(pages, Parent(b));
    }
  }

  lemma MaximalEntriesAreDisjoint(pages: set<nat>, a: Block, b: Block)
    requires Maximal(pages, a) && Maximal(pages, b) && a.level <= b.level && a != b
    ensures a.End() <= b.page || b.End() <= a.page
  {
    NestOrDisjoint(a, b);
    if a.Pages() <= b.Pages() {
      InsideHigherOrSame(a, b);
    }
  }

  /** Every set of pages has exactly one coalesced decomposition into entries. */
  lemma CanonicalFormExists(pages: set<nat>)
    ensures Canonical(MaximalEntries(pages)) && PagesOf(MaximalEntries(pages)) == pages
    ensures forall s :: Canonical(s) && PagesOf(s) == pages ==> s == MaximalEntries(pages)
  {
    hide Maximal, MaximalEntries;
    var blocks := MaximalEntries(pages);
    forall b
      ensures b in blocks <==> Maximal(pages, b)
    {
      MaximalIsMember(pages, b);
    }
    MaximalEntriesAreCanonical(pages, blocks);
    forall s | Canonical(s) && PagesOf(s) == pages
      ensures s == blocks
    {
      CanonicalFormIsUnique(s, blocks);
    }
  }

  lemma MaximalEntriesAreCanonical(pages: set<nat>, blocks: set<Block>)
    requires forall b :: b in blocks <==> Maximal(pages, b)
    ensures Canonical(blocks) && PagesOf(blocks) == pages
  {
    forall a, b | a in blocks && b in blocks && a != b
      ensures a.End() <= b.page || b.End() <= a.page
    {
      if a.level <= b.level {
        MaximalEntriesAreDisjoint(pages, a, b);
      } else {
        MaximalEntriesAreDisjoint(pages, b, a);
      }
    }
    forall b | b in blocks && b.level < TOP_LEVEL
      ensures Buddy(b) !in blocks
    {
      ParentIsBoth(b);
    }
    forall q | q in pages
      ensures q in PagesOf(blocks)
    {
      SinglePage(q);
      var top := Climb(pages, Block(q, 0));
    }
  }

  /**
   * One merge on free: the free buddy of the entry in hand leaves the free set
   * and the two continue as one entry, at the lower of their pages.
   */
  lemma MergeStep(blocks: set<Block>, hand: Block, n: nat)
    requires Placed(blocks, n) && hand.WellFormed() && hand.level < TOP_LEVEL && hand.End() <= n
    requires hand.Pages() !! PagesOf(blocks) && Buddy(hand) in blocks
    ensures var rest, merged := blocks - {Buddy(hand)}, Parent(hand);
            && merged.WellFormed() && merged.End() <= n
            && merged.Pages() !! PagesOf(rest)
            && PagesOf(rest) + merged.Pages() == PagesOf(blocks) + hand.Pages()
  {
    ParentIsBoth(hand);
    RemoveEntry(blocks, Buddy(hand), n);
    assert Buddy(hand).Pages() <= PagesOf(blocks);
  }

  /** The entry one level up does not start here or does not end by `limit`. */
  ghost predicate CannotGrow(b: Block, limit: nat) {
    b.level < TOP_LEVEL ==> !Aligned(b.page, b.level + 1) || limit < b.page + Pow2(b.level + 1)
  }

  /**
   * When entries are cut from a run from left to right, each as large as fits,
   * the next one never has its buddy among those already free.
   */
  lemma GreedyEntryHasNoBuddy(before: set<Block>, blocks: set<Block>, base: nat, b: Block, limit: nat)
    requires AllWellFormed(blocks) && before <= blocks && b.WellFormed()
    requires base <= b.page && b.End() <= limit
    requires forall c :: c in before && c.level < TOP_LEVEL ==> !(Buddy(c).Pages() <= PageRange(base, limit))
    requires forall c :: c in blocks - before ==> c.End() <= b.page && CannotGrow(c, limit)
    ensures b.level < TOP_LEVEL ==> Buddy(b) !in blocks
  {
    if b.level < TOP_LEVEL {
      var buddy := Buddy(b);
      BuddyIsTheOtherHalf(b.page, b.level);
      PagesAreARange(b);
      assert Buddy(buddy) == b && b.Pages() <= PageRange(base, limit);
      assert buddy !in before;
      assert Pow2(b.level + 1) == 2 * Pow2(b.level);
      assert buddy.page < b.page ==> !CannotGrow(buddy, limit);
      assert buddy !in blocks - before;
    }
  }

  lemma NextRun(pages: set<nat>, base: nat, from: nat, next: nat)
    requires base <= from <= next
    ensures pages + PageRange(base, from) + PageRange(from, next) == pages + PageRange(base, next)
    ensures PageRange(from, next) <= PageRange(base, next)
    ensures PageRange(from, next) !! PageRange(base, from)
  {
    TwoRuns(base, from, next);
    assert forall q: nat :: Between(from, q, next) ==> !Between(base, q, from);
  }

  lemma OneMorePage(pages: set<nat>, base: nat, next: nat)
    requires base <= next
    ensures pages + PageRange(base, next) + {next} == pages + PageRange(base, next + 1)
    ensures next !in PageRange(base, next)
  {
    TwoRuns(base, next, next + 1);
    SinglePage(next);
    PagesAreARange(Block(next, 0));
    assert !Between(base, next, next);
  }

  /** No free entry below the top level has its buddy inside the run [base, limit). */
  ghost predicate NoBuddyIn(blocks: set<Block>, base: nat, limit: nat)
    requires AllWellFormed(blocks)
  {
    forall b :: b in blocks && b.level < TOP_LEVEL ==> !(Buddy(b).Pages() <= PageRange(base, limit))
  }

  /** Some aligned run of 2^level pages is free. */
  ghost predicate HasFreeRun(pages: set<nat>, level: nat) {
    exists b: Block :: b.WellFormed() && b.level == level && Full(pages, b)
  }

  /** Whether a search from a level upwards finds an entry depends on the free pages alone. */
  lemma SearchFindsFreeRuns(blocks: set<Block>, level: nat)
    requires Canonical(blocks) && level < BUDDY_LEVELS
    ensures HasFreeRun(PagesOf(blocks), level) <==> exists b :: b in blocks && level <= b.level
  {
    if HasFreeRun(PagesOf(blocks), level) {
      var b: Block :| b.WellFormed() && b.level == level && Full(PagesOf(blocks), b);
      var cover := FullEntryIsInsideOne(blocks, b);
    }
    if b :| b in blocks && level <= b.level {
      var first := Block(b.page, level);
      AlignedBelow(b.page, level, b.level);
      RootsNest(b.page, level, b.level);
      AlignedIsItsRoot(b.page, b.level);
      AlignedIsItsRoot(b.page, level);
      NestOrDisjoint(first, b);
      assert Full(PagesOf(blocks), first);
    }
  }

  /** Nothing that is free can merge with a part of a free entry that is being cut up. */
  lemma TailHasNoBuddy(blocks: set<Block>, b: Block, start: nat)
    requires Canonical(blocks) && b in blocks && b.page <= start
    ensures NoBuddyIn(blocks - {b}, start, b.End())
  {
    forall c | c in blocks - {b} && c.level < TOP_LEVEL
      ensures !(Buddy(c).Pages() <= PageRange(start, b.End()))
    {
      var d := Buddy(c);
      BuddyIsTheOtherHalf(c.page, c.level);
      PagesAreARange(b);
      if d.Pages() <= PageRange(start, b.End()) {
        assert d.Contains(d.page) && d.Contains(d.End() - 1);
        assert d.page in d.Pages() && d.End() - 1 in d.Pages();
        if d.level >= b.level {
          LevelsGrow(b.level, d.level);
          assert false;
        } else {
          InsideParent(c, b);
          assert false;
        }
      }
    }
  }

  /** An entry that holds the buddy of a smaller entry holds that entry too. */
  lemma InsideParent(c: Block, b: Block)
    requires c.WellFormed() && b.WellFormed() && c.level < b.level
    requires b.page <= Buddy(c).page < b.End()
    ensures b.page <= c.page && c.End() <= b.End()
  {
    var d := Buddy(c);
    BuddyIsTheOtherHalf(c.page, c.level);
    RootIsTheEntry(d.page, b.level, b.page);
    RootsNest(d.page, c.level + 1, b.level);
    RootsNest(c.page, c.level + 1, b.level);
    RootIsTheEntry(c.page, b.level, b.page);
    AlignedIsItsRoot(c.page, c.level);
    RootsNest(c.page, c.level, b.level);
  }

  /** The entries of a coalesced set are those that its pages decide. */
  lemma CanonicalIsMaximal(blocks: set<Block>)
    requires Canonical(blocks)
    ensures blocks == MaximalEntries(PagesOf(blocks))
  {
    CanonicalFormExists(PagesOf(blocks));
  }
}
