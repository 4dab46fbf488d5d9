/**
 Page and level arithmetic of the buddy page-frame allocator
 (kernel/machine/pmap/pmap_pfa.c). A level-l entry is a run of 2^l pages, the
 buddy_level_page_count (pmap_pfa.c:105-109), that starts at a multiple of 2^l.
 The shifts of the C code are defined by halving and doubling, one level at a time.
 */
module BuddyLevels {
  import opened Bits

  const BUDDY_LEVELS: nat := 6
  const TOP_LEVEL: nat := 5
  /** Page ids from here on do not survive a 32-bit `<< PAGE_SHIFT`. */
  const PAGE_ID_LIMIT: nat := 0x10_0000

  lemma LevelSizes()
    ensures Pow2(0) == 1 && Pow2(1) == 2 && Pow2(2) == 4
    ensures Pow2(3) == 8 && Pow2(4) == 16 && Pow2(5) == 32
  {
    assert Pow2(3) == 2 * Pow2(2);
  }

  /** `page >> level` */
  function ShiftRight(page: nat, level: nat): (n: nat) {
    if level == 0 then page else ShiftRight(page / 2, level - 1)
  }

  /** The low `level` bits of the page id are clear. */
  predicate Aligned(page: nat, level: nat) {
    level == 0 || (page % 2 == 0 && Aligned(page / 2, level - 1))
  }

  /** `page & ~((1 << level) - 1)`: the start of the level-`level` entry a page lies in. */
  function Root(page: nat, level: nat): (root: nat) {
    if level == 0 then page else 2 * Root(page / 2, level - 1)
  }

  /** The page id of the buddy of an entry of a level (pmap_pfa.c:195-207). */
  function BuddyPage(page: nat, level: nat): (r: int) {
    if ShiftRight(page, level) % 2 == 0
    then page + Pow2(level)
    else page - Pow2(level)
  }

  /** Where an entry and its buddy merge (pmap_pfa.c:209-212). */
  function RootBuddyPage(page: nat, level: nat): (r: nat) {
    Root(page, level + 1)
  }

  /** A page lies in exactly one aligned entry of each level: the one at its root. */
  lemma {:induction false} RootIsTheEntry(page: nat, level: nat, start: nat)
    requires Aligned(start, level)
    ensures Aligned(Root(page, level), level)
    ensures start <= page < start + Pow2(level) <==> Root(page, level) == start
  {
    if level > 0 {
      RootIsTheEntry(page / 2, level - 1, start / 2);
    }
  }

  lemma {:induction false} RootOfRoot(page: nat, low: nat, high: nat)
    requires low <= high
    ensures Root(Root(page, low), high) == Root(page, high)
  {
    if low > 0 {
      RootOfRoot(page / 2, low - 1, high - 1);
    }
  }

  lemma {:induction false} RootIsAligned(page: nat, low: nat, high: nat)
    requires low <= high
    ensures Aligned(Root(page, high), low)
  {
    if low > 0 {
      RootIsAligned(page / 2, low - 1, high - 1);
    }
  }

  lemma {:induction false} RootStartsBefore(page: nat, low: nat, high: nat)
    requires low <= high
    ensures Root(page, high) <= Root(page, low) <= page
    ensures Root(page, low) + Pow2(low) <= Root(page, high) + Pow2(high)
  {
    if low > 0 {
      RootStartsBefore(page / 2, low - 1, high - 1);
    } else if high > 0 {
      RootStartsBefore(page / 2, 0, high - 1);
      assert Root(page, high) == 2 * Root(page / 2, high - 1);
    }
  }

  /** Entries nest: an entry lies inside one entry of every higher level. */
  lemma RootsNest(page: nat, low: nat, high: nat)
    requires low <= high
    ensures Root(Root(page, low), high) == Root(page, high)
    ensures Root(page, high) <= Root(page, low)
    ensures Root(page, low) + Pow2(low) <= Root(page, high) + Pow2(high)
    ensures Aligned(Root(page, high), low)
  {
    RootOfRoot(page, low, high);
    RootStartsBefore(page, low, high);
    RootIsAligned(page, low, high);
  }

  lemma {:induction false} AlignedIsItsRoot(page: nat, level: nat)
    ensures Aligned(page, level) <==> Root(page, level) == page
  {
    if level > 0 {
      AlignedIsItsRoot(page / 2, level - 1);
    }
  }

  /** An aligned page is aligned for every lower level. */
  lemma {:induction false} AlignedBelow(page: nat, low: nat, high: nat)
    requires low <= high && Aligned(page, high)
    ensures Aligned(page, low)
  {
    if low > 0 {
      AlignedBelow(page / 2, low - 1, high - 1);
    }
  }

  lemma Doubled(half: nat, level: nat)
    ensures BuddyPage(2 * half, level + 1) == 2 * BuddyPage(half, level)
    ensures Root(2 * half, level + 1) == 2 * Root(half, level)
    ensures Aligned(2 * half, level + 1) == Aligned(half, level)
  {
    assert ShiftRight(2 * half, level + 1) == ShiftRight(half, level);
  }

  lemma {:induction false} BuddiesPair(page: nat, level: nat)
    requires Aligned(page, level)
    ensures BuddyPage(page, level) >= 0
    ensures var buddy: nat := BuddyPage(page, level);
            buddy != page && Aligned(buddy, level) && BuddyPage(buddy, level) == page
  {
    if level > 0 {
      var half := page / 2;
      BuddiesPair(half, level - 1);
      Doubled(half, level - 1);
      Doubled(BuddyPage(half, level - 1), level - 1);
    }
  }

  lemma {:induction false} BuddiesShareARoot(page: nat, level: nat)
    requires Aligned(page, level)
    ensures BuddyPage(page, level) >= 0
    ensures var buddy: nat := BuddyPage(page, level);
            && RootBuddyPage(buddy, level) == RootBuddyPage(page, level)
            && RootBuddyPage(page, level) == (if page < buddy then page else buddy)
            && RootBuddyPage(page, level) + Pow2(level) == (if page < buddy then buddy else page)
  {
    hide ShiftRight, Root, BuddyPage;
    BuddiesPair(page, level);
    if level > 0 {
      var half := page / 2;
      BuddiesShareARoot(half, level - 1);
      Doubled(half, level - 1);
      Doubled(half, level);
      Doubled(BuddyPage(half, level - 1), level);
    } else {
      NeighboursShareARoot(page);
    }
  }

  lemma NeighboursShareARoot(page: nat)
    ensures var buddy := BuddyPage(page, 0);
            && buddy == (if page % 2 == 0 then page + 1 else page - 1)
            && Root(page, 1) == Root(buddy, 1) == page - page % 2
  {
  }

  /**
   * The buddy of an entry is the other half of the entry one level up, and
   * that entry is rooted at the lower of the two.
   */
  lemma BuddyIsTheOtherHalf(page: nat, level: nat)
    requires Aligned(page, level)
    ensures BuddyPage(page, level) >= 0
    ensures var buddy := BuddyPage(page, level);
            && buddy != page
            && Aligned(buddy, level)
            && BuddyPage(buddy, level) == page
            && RootBuddyPage(buddy, level) == RootBuddyPage(page, level)
            && RootBuddyPage(page, level) == (if page < buddy then page else buddy)
            && RootBuddyPage(page, level) + Pow2(level) == (if page < buddy then buddy else page)
    ensures Aligned(RootBuddyPage(page, level), level + 1)
  {
    BuddiesPair(page, level);
    BuddiesShareARoot(page, level);
    RootIsAligned(page, level + 1, level + 1);
  }

  /** A run that contains an aligned entry's two halves contains it whole. */
  lemma AlignedGrowth(page: nat, level: nat)
    ensures Aligned(page, level + 1) ==> Aligned(page, level) && Aligned(page + Pow2(level), level)
    ensures Aligned(page, level) ==> Aligned(page + Pow2(level), level)
  {
    if level > 0 {
      AlignedGrowth(page / 2, level - 1);
    }
  }
}
