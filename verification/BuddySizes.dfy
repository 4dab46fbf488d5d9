/**
 Which level a request or a run of free pages goes to
 (kernel/machine/pmap/pmap_pfa.c:117-177).
 */
module BuddySizes {
  import opened Bits
  import opened Pages
  import opened BuddyLevels

  /** The largest request that is served, `PAGE_SIZE << (BUDDY_LEVELS - 1)`. */
  const MAX_ALLOCATION: nat := 131072

  /** The least number of pages that hold `size` bytes. */
  function SizeToPageCount(size: nat): (r: nat) {
    (size + (PAGE_SIZE - 1)) / PAGE_SIZE
  }

  function CountTrailingZeros(n: nat): (r: nat)
    requires n > 0
  {
    if n % 2 == 1 then 0 else 1 + CountTrailingZeros(n / 2)
  }

  /** The bits of n up to its highest set bit, `64 - __builtin_clzl(n)`. */
  function BitLength(n: nat): (r: nat) {
    if n == 0 then 0 else 1 + BitLength(n / 2)
  }

  lemma {:induction false} ZerosAreAlignment(page: nat, level: nat)
    requires page > 0
    ensures Aligned(page, level) <==> level <= CountTrailingZeros(page)
  {
    if level > 0 && page % 2 == 0 {
      ZerosAreAlignment(page / 2, level - 1);
    }
  }

  lemma {:induction false} ZeroIsAligned(level: nat)
    ensures Aligned(0, level)
  {
    if level > 0 {
      ZeroIsAligned(level - 1);
    }
  }

  /** The highest level an entry that starts at a page can have (pmap_pfa.c:124-136). */
  function MaxLevelForPageAlignment(page: nat): (r: nat) {
    if page == 0 || CountTrailingZeros(page) >= BUDDY_LEVELS then TOP_LEVEL else CountTrailingZeros(page)
  }

  lemma MaxLevelIsTheAlignment(page: nat, level: nat)
    requires level <= TOP_LEVEL
    ensures MaxLevelForPageAlignment(page) <= TOP_LEVEL
    ensures Aligned(page, level) <==> level <= MaxLevelForPageAlignment(page)
  {
    if page == 0 {
      ZeroIsAligned(level);
    } else {
      ZerosAreAlignment(page, level);
    }
  }

  /** The highest level whose entries are no larger than `size` bytes, or 0 (pmap_pfa.c:143-159). */
  method MinBuddyLevelForSizeNoOverflow(size: nat) returns (level: nat)
    ensures level <= TOP_LEVEL
    ensures level > 0 ==> PAGE_SIZE * Pow2(level) <= size
    ensures level < TOP_LEVEL ==> size < PAGE_SIZE * Pow2(level + 1)
  {
    level := 0;
    var value := PAGE_SIZE;
    while level < BUDDY_LEVELS - 1 && value < size
      invariant level <= TOP_LEVEL && value == PAGE_SIZE * Pow2(level)
      invariant level > 0 ==> value < 2 * size
    {
      level := level + 1;
      value := 2 * value;
    }
    if level > 0 && value > size {
      level := level - 1;
    }
  }

  /** The level at which the search for `size` bytes starts (pmap_pfa.c:161-177). */
  function MinBuddyLevelForSize(size: nat): (r: nat) {
    if size <= PAGE_SIZE then 0
    else
      var level := BitLength(SizeToPageCount(size));
      if level < TOP_LEVEL then level else TOP_LEVEL
  }

  lemma {:induction false} BitLengthBounds(n: nat)
    ensures n < Pow2(BitLength(n))
    ensures n > 0 ==> BitLength(n) > 0 && Pow2(BitLength(n) - 1) <= n
  {
    if n > 0 {
      BitLengthBounds(n / 2);
    }
  }

  lemma {:induction false} LevelsGrow(low: nat, high: nat)
    requires low <= high
    ensures Pow2(low) <= Pow2(high)
    ensures low < high ==> Pow2(low) < Pow2(high)
    decreases high
  {
    if low < high {
      LevelsGrow(low, high - 1);
    }
  }

  /**
   * The level that is searched first holds the request and is at most one
   * level more than it needs.
   */
  lemma SearchLevelIsSufficient(size: nat)
    requires 0 < size <= MAX_ALLOCATION
    ensures var count, level := SizeToPageCount(size), MinBuddyLevelForSize(size);
            level <= TOP_LEVEL && 1 <= count <= Pow2(level) <= 2 * count
  {
    var count := SizeToPageCount(size);
    LevelSizes();
    BitLengthBounds(count);
    if size > PAGE_SIZE {
      LevelsGrow(1, BitLength(count));
      if BitLength(count) >= BUDDY_LEVELS {
        LevelsGrow(TOP_LEVEL, BitLength(count) - 1);
      }
    }
  }

  /**
   * The comment at pmap_pfa.c:167-170 asks for the nearest level that holds the
   * request. That is what is searched, except for exactly 2, 4, 8 or 16
   * pages, where the search starts one level too high.
   */
  lemma SearchLevelIsNearest(size: nat)
    requires 0 < size <= MAX_ALLOCATION
    ensures var count, level := SizeToPageCount(size), MinBuddyLevelForSize(size);
            level == 0 || Pow2(level - 1) < count <==> count !in {2, 4, 8, 16}
  {
    var count := SizeToPageCount(size);
    LevelSizes();
    BitLengthBounds(count);
    SearchLevelIsSufficient(size);
    if size > PAGE_SIZE && BitLength(count) <= TOP_LEVEL {
      var low := BitLength(count) - 1;
      assert low == 1 || low == 2 || low == 3 || low == 4 by {
        LevelsGrow(0, low);
      }
    } else if size > PAGE_SIZE {
      LevelsGrow(TOP_LEVEL, BitLength(count) - 1);
    }
  }

  /** The largest request that is served is a whole entry of the top level. */
  lemma LargestRequest()
    ensures MAX_ALLOCATION == PAGE_SIZE * Pow2(TOP_LEVEL) && BUDDY_LEVELS == TOP_LEVEL + 1
    ensures MinBuddyLevelForSize(MAX_ALLOCATION) == TOP_LEVEL
  {
    LevelSizes();
    assert BitLength(31) == 5;
  }

  lemma SearchLevelHolds(size: nat)
    requires size <= MAX_ALLOCATION
    ensures MinBuddyLevelForSize(size) <= TOP_LEVEL
    ensures SizeToPageCount(size) <= Pow2(MinBuddyLevelForSize(size))
  {
    if size > 0 {
      SearchLevelIsSufficient(size);
    }
  }
}
