/** The six bitmaps together: the set of entries whose bit is set. */
module FreeBitmaps {
  import opened BuddyLevels
  import opened BuddyBlocks
  import opened BuddyBitmap

  class FreeBitmaps {
    const pageCount: nat
    const buddyBitmaps: seq<array<bv64>>
    /** The entries whose bit is set. */
    ghost var free: set<Block>
    ghost const repr: set<object>

    ghost predicate Shape() {
      && |buddyBitmaps| == BUDDY_LEVELS
      && this in repr
      && (forall l {:trigger buddyBitmaps[l]} :: 0 <= l < BUDDY_LEVELS ==>
            buddyBitmaps[l] in repr && buddyBitmaps[l].Length == SlotCount(pageCount, l))
      && (forall l, m :: 0 <= l < m < BUDDY_LEVELS ==> buddyBitmaps[l] != buddyBitmaps[m])
    }

    ghost predicate LevelMatches(l: nat)
      requires Shape() && l < BUDDY_LEVELS
      reads repr
    {
      forall q: nat {:trigger BitOf(buddyBitmaps[l][..], q, l)} {:trigger Block(q, l) in free} ::
        Aligned(q, l) && BitIndex(q, l) < buddyBitmaps[l].Length ==>
        (BitOf(buddyBitmaps[l][..], q, l) <==> Block(q, l) in free)
    }

    ghost predicate Valid()
      reads repr
    {
      Shape() && forall l {:trigger LevelMatches(l)} :: 0 <= l < BUDDY_LEVELS ==> LevelMatches(l)
    }

    /** The bit of an entry lies in the words of its level. */
    predicate InRange(page: nat, level: nat) {
      Aligned(page, level) && BitIndex(page, level) < SlotCount(pageCount, level)
    }

    /** All bits clear, over the bits of `pageCount` pages. */
    constructor (pageCount: nat)
      ensures Valid() && free == {} && this.pageCount == pageCount && fresh(repr)
    {
      var bs: seq<array<bv64>> := [];
      ghost var arrays: set<object> := {};
      while |bs| < BUDDY_LEVELS
        invariant |bs| <= BUDDY_LEVELS
        invariant forall l {:trigger bs[l]} :: 0 <= l < |bs| ==>
          && bs[l] in arrays && bs[l].Length == SlotCount(pageCount, l)
          && (forall i :: 0 <= i < bs[l].Length ==> bs[l][i] == 0)
        invariant forall l, m :: 0 <= l < m < |bs| ==> bs[l] != bs[m]
        invariant fresh(arrays)
      {
        var b := new bv64[SlotCount(pageCount, |bs|)](_ => 0);
        bs := bs + [b];
        arrays := arrays + {b};
      }
      this.pageCount := pageCount;
      buddyBitmaps := bs;
      free := {};
      repr := arrays + {this};
      new;
      forall l {:trigger LevelMatches(l)} | 0 <= l < BUDDY_LEVELS
        ensures LevelMatches(l)
      {
        forall q: nat | Aligned(q, l) && BitIndex(q, l) < buddyBitmaps[l].Length
          ensures !BitOf(buddyBitmaps[l][..], q, l)
        {
          assert buddyBitmaps[l][BitIndex(q, l)] == 0;
          ZeroHasNoBits(BitOffset(q, l));
        }
      }
    }

    method Set(page: nat, level: nat, value: bool)
      requires Valid() && level < BUDDY_LEVELS && InRange(page, level)
      modifies repr
      ensures Valid() && free == if value then old(free) + {Block(page, level)} else old(free) - {Block(page, level)}
    {
      SetBit(buddyBitmaps[level], page, level, value);
      free := if value then free + {Block(page, level)} else free - {Block(page, level)};
      forall l {:trigger LevelMatches(l)} | 0 <= l < BUDDY_LEVELS
        ensures LevelMatches(l)
      {
        assert old(LevelMatches(l));
        if l != level {
          assert buddyBitmaps[l] != buddyBitmaps[level];
          assert buddyBitmaps[l][..] == old(buddyBitmaps[l][..]);
        }
      }
    }

    method Get(page: nat, level: nat) returns (value: bool)
      requires Valid() && level < BUDDY_LEVELS && InRange(page, level)
      ensures value == (Block(page, level) in free)
    {
      assert LevelMatches(level);
      value := GetBit(buddyBitmaps[level], page, level);
    }
  }
}
