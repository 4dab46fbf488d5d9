/**
 The allocator's six free lists (kernel/machine/pmap/pmap_pfa.c:64-68, 84-94):
 a list per level, threaded through the first bytes of the free pages.
 */
module FreeLists {
  import opened BuddyLevels
  import opened BuddyBlocks
  import opened IntrusiveList

  class FreeLists {
    const buddyLists: seq<List>
    /** The free entry that the first bytes of each managed page can hold. */
    const entries: seq<ListElem>
    /** The entries on the lists: Block(p, l) is here when page p is on list l. */
    ghost var blocks: set<Block>
    ghost const repr: set<object>

    /** What init sets up and nothing changes: every node is its own, at its own address. */
    ghost predicate Shape() {
      && |buddyLists| == BUDDY_LEVELS
      && this in repr
      && (forall l {:trigger buddyLists[l]} :: 0 <= l < BUDDY_LEVELS ==> LevelShape(l))
      && (forall p {:trigger entries[p]} :: 0 <= p < |entries| ==> entries[p].addr == p && entries[p] in repr)
    }

    ghost predicate LevelShape(l: nat)
      requires l < |buddyLists|
    {
      && buddyLists[l] in repr && buddyLists[l].head in repr && buddyLists[l].tail in repr
      && buddyLists[l].head.addr == -1 - 2 * l && buddyLists[l].tail.addr == -2 - 2 * l
    }

    ghost predicate IsEntry(e: ListElem) {
      0 <= e.addr < |entries| && entries[e.addr] == e
    }

    /** The nodes of list l are the entries of the pages that are free at level l. */
    ghost predicate ListMatches(l: nat)
      requires Shape() && l < BUDDY_LEVELS
      reads repr
    {
      && (forall e :: e in buddyLists[l].elems ==> IsEntry(e) && Block(e.addr, l) in blocks)
      && (forall p: nat :: Block(p, l) in blocks ==> p < |entries| && entries[p] in buddyLists[l].elems)
      && (assert forall e :: e in buddyLists[l].elems ==> e in repr; buddyLists[l].Valid())
    }

    /** A page is on one list at most. */
    ghost predicate OneListPerPage()
      reads this`blocks
    {
      forall b, c :: b in blocks && c in blocks && b.page == c.page ==> b == c
    }

    ghost predicate Valid()
      reads repr
    {
      && Shape() && OneListPerPage()
      && (forall b :: b in blocks ==> b.level < BUDDY_LEVELS)
      && (forall l {:trigger ListMatches(l)} :: 0 <= l < BUDDY_LEVELS ==> ListMatches(l))
    }

    lemma NodesApart(l: nat, m: nat)
      requires Valid() && l < BUDDY_LEVELS && m < BUDDY_LEVELS && l != m
      ensures Apart(buddyLists[l].Nodes(), buddyLists[m].Nodes())
    {
      var s, t := buddyLists[l], buddyLists[m];
      assert LevelShape(l) && LevelShape(m) && ListMatches(l) && ListMatches(m);
      forall e | e in s.elems
        ensures e !in t.elems
      {
        assert Block(e.addr, l) in blocks;
        assert Block(e.addr, m) !in blocks;
      }
      assert forall e :: e in s.Nodes() ==> e !in t.Nodes();
      forall x, y | 0 <= x < |s.Nodes()| && 0 <= y < |t.Nodes()|
        ensures s.Nodes()[x] != t.Nodes()[y]
      {
        assert s.Nodes()[x] in s.Nodes() && t.Nodes()[y] in t.Nodes();
      }
    }

    lemma NotOnAnyList(page: nat, l: nat)
      requires Valid() && page < |entries| && l < BUDDY_LEVELS
      requires forall b :: b in blocks ==> b.page != page
      ensures entries[page] !in buddyLists[l].Nodes()
    {
      assert LevelShape(l) && ListMatches(l);
      assert Block(page, l) !in blocks;
    }

    /** Empty lists over the entries of `pageCount` pages. */
    constructor (pageCount: nat)
      ensures Valid() && blocks == {} && |entries| == pageCount && fresh(repr)
    {
      hide Chain;
      var es: seq<ListElem> := [];
      ghost var nodes: set<object> := {};
      while |es| < pageCount
        invariant |es| <= pageCount
        invariant forall p {:trigger es[p]} :: 0 <= p < |es| ==> es[p].addr == p && es[p] in nodes
        invariant fresh(nodes)
      {
        var e := new ListElem(|es|);
        es := es + [e];
        nodes := nodes + {e};
      }
      var ls: seq<List> := [];
      while |ls| < BUDDY_LEVELS
        invariant |ls| <= BUDDY_LEVELS
        invariant forall l {:trigger ls[l]} :: 0 <= l < |ls| ==>
          && ls[l].Valid() && ls[l].elems == []
          && ls[l] in nodes && ls[l].head in nodes && ls[l].tail in nodes
          && ls[l].head.addr == -1 - 2 * l && ls[l].tail.addr == -2 - 2 * l
        invariant forall p {:trigger es[p]} :: 0 <= p < |es| ==> es[p].addr == p && es[p] in nodes
        invariant fresh(nodes)
      {
        var l := new List(-1 - 2 * |ls|, -2 - 2 * |ls|);
        ls := ls + [l];
        nodes := nodes + {l, l.head, l.tail};
      }
      buddyLists := ls;
      entries := es;
      blocks := {};
      repr := nodes + {this};
      new;
      forall l {:trigger LevelShape(l)} | 0 <= l < BUDDY_LEVELS
        ensures LevelShape(l)
      {
        assert ls[l].Valid();
      }
      forall l {:trigger ListMatches(l)} | 0 <= l < BUDDY_LEVELS
        ensures ListMatches(l)
      {
        assert ls[l].Valid();
      }
    }

    /** Puts a page at the front of a level's list. */
    method PushFront(page: nat, level: nat)
      requires Valid() && page < |entries| && level < BUDDY_LEVELS
      requires forall b :: b in blocks ==> b.page != page
      modifies repr
      ensures Valid() && blocks == old(blocks) + {Block(page, level)}
    {
      hide Chain;
      assert ListMatches(level) && LevelShape(level);
      forall m | 0 <= m < BUDDY_LEVELS
        ensures entries[page] !in buddyLists[m].Nodes()
        ensures m != level ==> Apart(buddyLists[m].Nodes(), buddyLists[level].Nodes())
      {
        NotOnAnyList(page, m);
        if m != level {
          NodesApart(m, level);
        }
      }
      assert forall e :: e in buddyLists[level].Nodes() ==> e in repr;
      buddyLists[level].PushFront(entries[page]);
      blocks := blocks + {Block(page, level)};
      forall m {:trigger ListMatches(m)} | 0 <= m < BUDDY_LEVELS
        ensures ListMatches(m)
      {
        assert old(ListMatches(m)) && LevelShape(m);
        if m != level {
          assert buddyLists[m] != buddyLists[level];
          assert buddyLists[m].elems == old(buddyLists[m].elems);
          assert buddyLists[m].Valid();
        }
      }
    }

    /** Takes a page off the list it is on. */
    method Remove(page: nat, level: nat)
      requires Valid() && Block(page, level) in blocks
      modifies repr
      ensures Valid() && blocks == old(blocks) - {Block(page, level)}
    {
      hide Chain;
      assert ListMatches(level) && LevelShape(level);
      forall m | 0 <= m < BUDDY_LEVELS && m != level
        ensures Apart(buddyLists[m].Nodes(), buddyLists[level].Nodes())
      {
        NodesApart(m, level);
      }
      assert forall e :: e in buddyLists[level].Nodes() ==> e in repr;
      ghost var k :| 0 <= k < |buddyLists[level].elems| && buddyLists[level].elems[k] == entries[page];
      var _ := buddyLists[level].Remove(entries[page], k);
      blocks := blocks - {Block(page, level)};
      forall m {:trigger ListMatches(m)} | 0 <= m < BUDDY_LEVELS
        ensures ListMatches(m)
      {
        assert old(ListMatches(m)) && LevelShape(m);
        if m != level {
          assert buddyLists[m] != buddyLists[level];
          assert buddyLists[m].elems == old(buddyLists[m].elems);
          assert buddyLists[m].Valid();
        }
      }
    }

    method Empty(level: nat) returns (empty: bool)
      requires Valid() && level < BUDDY_LEVELS
      ensures empty <==> forall b :: b in blocks ==> b.level != level
    {
      assert ListMatches(level) && LevelShape(level);
      empty := buddyLists[level].Empty();
      if !empty {
        assert buddyLists[level].elems[0] in buddyLists[level].elems;
        assert Block(buddyLists[level].elems[0].addr, level) in blocks;
      } else {
        forall b | b in blocks
          ensures b.level != level
        {
          assert b == Block(b.page, b.level);
        }
      }
    }

    /** The page whose entry is at the front of a level's list. */
    method Front(level: nat) returns (page: nat)
      requires Valid() && level < BUDDY_LEVELS
      requires exists b :: b in blocks && b.level == level
      ensures Block(page, level) in blocks
    {
      assert ListMatches(level) && LevelShape(level);
      ghost var b :| b in blocks && b.level == level;
      assert b == Block(b.page, level);
      var e := buddyLists[level].Front();
      assert e in buddyLists[level].elems;
      page := e.addr;
    }

    /** The number of free entries of a level. */
    method Size(level: nat) returns (count: nat)
      requires Valid() && level < BUDDY_LEVELS
      ensures count == |EntriesAt(blocks, level)|
    {
      hide Chain;
      assert ListMatches(level) && LevelShape(level);
      count := buddyLists[level].Size();
      ghost var s := buddyLists[level].elems;
      NoDupElems(buddyLists[level]);
      CountEntries(s, level);
      assert EntriesAt(blocks, level) == EntriesOf(s, level) by {
        forall b | b in EntriesAt(blocks, level)
          ensures b in EntriesOf(s, level)
        {
          assert b == Block(b.page, level) && entries[b.page] in s;
        }
      }
    }

    lemma NoDupElems(l: List)
      requires l.Valid()
      ensures NoDup(l.elems)
    {
      assert forall i :: 0 <= i < |l.elems| ==> l.elems[i] == l.Nodes()[i + 1];
    }

    ghost function EntriesOf(s: seq<ListElem>, level: nat): (r: set<Block>)
      requires forall e :: e in s ==> IsEntry(e)
    {
      set e | e in s && e.addr >= 0 :: Block(e.addr, level)
    }

    lemma {:induction false} CountEntries(s: seq<ListElem>, level: nat)
      requires NoDup(s) && forall e :: e in s ==> IsEntry(e)
      ensures |EntriesOf(s, level)| == |s|
    {
      if |s| > 0 {
        var last, rest := s[|s| - 1], s[..|s| - 1];
        assert IsEntry(last);
        CountEntries(rest, level);
        assert EntriesOf(s, level) == EntriesOf(rest, level) + {Block(last.addr, level)};
        assert Block(last.addr, level) !in EntriesOf(rest, level);
      }
    }
  }
}
