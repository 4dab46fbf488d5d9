/**
 The buddy bitmaps (kernel/machine/pmap/pmap_pfa.c:214-271): for each level an
 array of 64-bit words that holds one bit per entry of that level.
 */
module BuddyBitmap {
  import opened Bits
  import opened BuddyLevels

  /** The word that holds the bit of an entry, `page >> (6 + level)`. */
  function BitIndex(page: nat, level: nat): (r: nat) {
    ShiftRight(page, level + 6)
  }

  /** The bit within it, `(page >> level) & 63`. */
  function BitOffset(page: nat, level: nat): (r: bv6) {
    (ShiftRight(page, level) % 64) as bv6
  }

  /** The words of a level's bitmap: the page count rounded up to whole words, as words. */
  function SlotCount(pageCount: nat, level: nat): (r: nat) {
    ShiftRight(pageCount + Pow2(level + 6) - 1, level + 6)
  }

  predicate HasBit(word: bv64, offset: bv6) {
    (word >> offset) & 1 == 1
  }

  function WithBit(word: bv64, offset: bv6, value: bool): (r: bv64) {
    (word & !((1 as bv64) << offset)) | ((if value then 1 as bv64 else 0) << offset)
  }

  /** The bit of an entry: set when the entry is free. */
  predicate BitOf(words: seq<bv64>, page: nat, level: nat)
    requires BitIndex(page, level) < |words|
  {
    HasBit(words[BitIndex(page, level)], BitOffset(page, level))
  }

  /** buddy_bitmap_set_bit_locked (pmap_pfa.c:253-262). */
  method SetBit(words: array<bv64>, page: nat, level: nat, value: bool)
    requires BitIndex(page, level) < words.Length && Aligned(page, level)
    modifies words
    ensures forall q: nat {:trigger BitOf(words[..], q, level)} ::
              Aligned(q, level) && BitIndex(q, level) < words.Length ==>
              BitOf(words[..], q, level) == if q == page then value else old(BitOf(words[..], q, level))
  {
    var idx := BitIndex(page, level);
    var offset := BitOffset(page, level);
    words[idx] := WithBit(words[idx], offset, value);
    assert words[..] == old(words[..])[idx := WithBit(old(words[..])[idx], offset, value)];
    forall q: nat | Aligned(q, level) && BitIndex(q, level) < words.Length
      ensures BitOf(words[..], q, level) == if q == page then value else old(BitOf(words[..], q, level))
    {
      OneBitChanges(old(words[..]), page, level, value, q);
    }
  }

  /** Writing the bit of one entry leaves the bit of every other entry of the level alone. */
  lemma OneBitChanges(words: seq<bv64>, page: nat, level: nat, value: bool, q: nat)
    requires Aligned(page, level) && BitIndex(page, level) < |words|
    requires Aligned(q, level) && BitIndex(q, level) < |words|
    ensures var idx := BitIndex(page, level);
            BitOf(words[idx := WithBit(words[idx], BitOffset(page, level), value)], q, level)
            == if q == page then value else BitOf(words, q, level)
  {
    hide HasBit, WithBit, BitIndex, BitOffset, Aligned;
    DistinctBits(page, q, level);
    SetThenGet(words[BitIndex(page, level)], BitOffset(page, level), value, BitOffset(q, level));
  }

  /** buddy_bitmap_get_bit_locked (pmap_pfa.c:264-271). */
  method GetBit(words: array<bv64>, page: nat, level: nat) returns (value: bool)
    requires BitIndex(page, level) < words.Length
    ensures value == BitOf(words[..], page, level)
  {
    value := HasBit(words[BitIndex(page, level)], BitOffset(page, level));
  }

  /** Setting a bit of a word changes that bit and no other. */
  lemma SetThenGet(word: bv64, offset: bv6, value: bool, other: bv6)
    ensures HasBit(WithBit(word, offset, value), other) == (if other == offset then value else HasBit(word, other))
  {
    if other == offset {
    } else {
    }
  }

  lemma ZeroHasNoBits(offset: bv6)
    ensures !HasBit(0, offset)
  {
  }

  lemma {:induction false} ShiftsAdd(page: nat, low: nat, more: nat)
    ensures ShiftRight(page, low + more) == ShiftRight(ShiftRight(page, low), more)
  {
    if low > 0 {
      ShiftsAdd(page / 2, low - 1, more);
    }
  }

  lemma {:induction false} ShiftOfSum(page: nat, level: nat)
    ensures ShiftRight(page + Pow2(level), level) == ShiftRight(page, level) + 1
  {
    if level > 0 {
      assert (page + Pow2(level)) / 2 == page / 2 + Pow2(level - 1);
      ShiftOfSum(page / 2, level - 1);
    }
  }

  lemma {:induction false} ShiftMonotone(a: nat, b: nat, level: nat)
    requires a <= b
    ensures ShiftRight(a, level) <= ShiftRight(b, level)
  {
    if level > 0 {
      ShiftMonotone(a / 2, b / 2, level - 1);
    }
  }

  lemma {:induction false} AlignedByShift(a: nat, b: nat, level: nat)
    requires Aligned(a, level) && Aligned(b, level) && ShiftRight(a, level) == ShiftRight(b, level)
    ensures a == b
  {
    if level > 0 {
      AlignedByShift(a / 2, b / 2, level - 1);
    }
  }

  lemma ShiftBySix(n: nat)
    ensures ShiftRight(n, 6) == n / 64
  {
    assert ShiftRight(n, 6) == ShiftRight(n / 2, 5) == ShiftRight(n / 2 / 2, 4) == ShiftRight(n / 2 / 2 / 2, 3);
    var m := n / 2 / 2 / 2;
    assert ShiftRight(m, 3) == ShiftRight(m / 2, 2) == ShiftRight(m / 2 / 2, 1) == m / 2 / 2 / 2;
  }

  /** Different entries of a level have different bits. */
  lemma DistinctBits(a: nat, b: nat, level: nat)
    requires Aligned(a, level) && Aligned(b, level)
    ensures a != b ==> BitIndex(a, level) != BitIndex(b, level) || BitOffset(a, level) != BitOffset(b, level)
  {
    var x, y := ShiftRight(a, level), ShiftRight(b, level);
    assert BitOffset(a, level) == BitOffset(b, level) ==> x % 64 == y % 64 by {
      OffsetsAreSixBits(x % 64);
      OffsetsAreSixBits(y % 64);
    }
    ShiftsAdd(a, level, 6);
    ShiftsAdd(b, level, 6);
    ShiftBySix(ShiftRight(a, level));
    ShiftBySix(ShiftRight(b, level));
    if x == y {
      AlignedByShift(a, b, level);
    }
  }

  lemma OffsetsAreSixBits(n: nat)
    requires n < 64
    ensures (n as bv6) as nat == n
  {
  }

  /** The bit of every managed entry is within the words allocated for its level. */
  lemma BitsAreAllocated(page: nat, level: nat, pageCount: nat)
    requires page < pageCount
    ensures BitIndex(page, level) < SlotCount(pageCount, level)
  {
    ShiftOfSum(page, level + 6);
    ShiftMonotone(page + Pow2(level + 6), pageCount + Pow2(level + 6) - 1, level + 6);
  }

  /** So is the bit of its buddy, even where the buddy lies past the last managed page. */
  lemma BuddyBitsAreAllocated(page: nat, level: nat)
    requires Aligned(page, level)
    ensures BuddyPage(page, level) >= 0 && BitIndex(BuddyPage(page, level), level) == BitIndex(page, level)
  {
    BuddyShift(page, level);
    var buddy: nat := BuddyPage(page, level);
    ShiftsAdd(page, level, 6);
    ShiftsAdd(buddy, level, 6);
    ShiftBySix(ShiftRight(page, level));
    ShiftBySix(ShiftRight(buddy, level));
  }

  lemma BuddyShift(page: nat, level: nat)
    requires Aligned(page, level)
    ensures BuddyPage(page, level) >= 0
    ensures ShiftRight(BuddyPage(page, level), level) ==
            if ShiftRight(page, level) % 2 == 0 then ShiftRight(page, level) + 1 else ShiftRight(page, level) - 1
  {
    BuddyIsTheOtherHalf(page, level);
    ShiftOfSum(page, level);
    if BuddyPage(page, level) < page {
      ShiftOfSum(BuddyPage(page, level), level);
    }
  }

  lemma {:induction false} ShiftIsDivision(n: nat, level: nat)
    ensures ShiftRight(n, level) * Pow2(level) <= n < (ShiftRight(n, level) + 1) * Pow2(level)
  {
    if level > 0 {
      ShiftIsDivision(n / 2, level - 1);
      HalvedTwice(ShiftRight(n / 2, level - 1), Pow2(level - 1), n);
      NextPow2(level - 1);
    }
  }

  lemma HalvedTwice(q: nat, p: nat, n: nat)
    requires q * p <= n / 2 < (q + 1) * p
    ensures q * (2 * p) <= n < (q + 1) * (2 * p)
  {
    assert q * (2 * p) == 2 * (q * p) && (q + 1) * (2 * p) == 2 * ((q + 1) * p);
  }

  /** A level has as many words as its entries need bits for, and no more. */
  lemma SlotCountIsLeast(pageCount: nat, level: nat)
    ensures pageCount <= SlotCount(pageCount, level) * (64 * Pow2(level))
    ensures SlotCount(pageCount, level) > 0 ==> (SlotCount(pageCount, level) - 1) * (64 * Pow2(level)) < pageCount
  {
    hide Pow2, ShiftRight;
    SixLevelsUp(level);
    ShiftIsDivision(pageCount + Pow2(level + 6) - 1, level + 6);
    LeastMultiple(SlotCount(pageCount, level), Pow2(level + 6), pageCount);
  }

  lemma LeastMultiple(q: nat, size: nat, n: nat)
    requires q * size <= n + size - 1 < (q + 1) * size
    ensures n <= q * size && (q > 0 ==> (q - 1) * size < n)
  {
    assert (q + 1) * size == q * size + size;
    assert (q - 1) * size == q * size - size;
  }

  lemma SixLevelsUp(level: nat)
    ensures Pow2(level + 6) == 64 * Pow2(level)
  {
    NextPow2(level + 5);
    NextPow2(level + 4);
    NextPow2(level + 3);
    NextPow2(level + 2);
    NextPow2(level + 1);
    NextPow2(level);
  }
}
