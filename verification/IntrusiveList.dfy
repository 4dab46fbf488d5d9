/**
 The kernel's intrusive doubly linked list (kernel/lib/list.c): a head and a
 tail sentinel with the elements threaded between them.
 */
module IntrusiveList {

  class ListElem {
    var prev: ListElem?
    var next: ListElem?
    /** Stands for the element's address: it never changes and says what the element is embedded in. */
    const addr: int

    constructor (addr: int)
      ensures this.addr == addr && prev == null && next == null
    {
      this.addr := addr;
      prev, next := null, null;
    }
  }

  /** No element is in both. */
  ghost predicate Apart(s: seq<ListElem>, t: seq<ListElem>) {
    forall x, y :: 0 <= x < |s| && 0 <= y < |t| ==> s[x] != t[y]
  }

  /** The elements of `c`, from head sentinel to tail sentinel, are linked both ways. */
  ghost predicate Chain(c: seq<ListElem>)
    reads c
  {
    && |c| >= 2
    && NoDup(c)
    && c[0].prev == null
    && c[|c| - 1].next == null
    && (forall i {:trigger c[i].next} :: 0 <= i < |c| - 1 ==> c[i].next == c[i + 1])
    && (forall i {:trigger c[i].prev} :: 1 <= i < |c| ==> c[i].prev == c[i - 1])
  }

  ghost predicate NoDup(s: seq<ListElem>) {
    forall i, j :: 0 <= i < j < |s| ==> s[i] != s[j]
  }

  /** Inserts `elem` just before `before`, an interior element or a tail (list.c:144-152). */
  method ListInsert(before: ListElem, elem: ListElem, ghost c: seq<ListElem>, ghost k: nat)
    requires Chain(c) && 1 <= k < |c| && before == c[k] && elem !in c
    modifies elem, before, c[k - 1]
    ensures Chain(c[..k] + [elem] + c[k..])
  {
    elem.prev := before.prev;
    elem.next := before;
    before.prev.next := elem;
    before.prev := elem;
  }

  /** Unlinks `elem` and returns the element that followed it (list.c:215-220). */
  method ListRemove(elem: ListElem, ghost c: seq<ListElem>, ghost k: nat) returns (following: ListElem)
    requires Chain(c) && 1 <= k < |c| - 1 && elem == c[k]
    modifies c[k - 1], c[k + 1]
    ensures Chain(c[..k] + c[k + 1..])
    ensures following == c[k + 1]
    ensures elem.prev == c[k - 1] && elem.next == c[k + 1]
  {
    elem.prev.next := elem.next;
    elem.next.prev := elem.prev;
    following := elem.next;
  }

  /** The elements of a segment are linked both ways; its ends may point anywhere. */
  ghost predicate SegmentLinked(s: seq<ListElem>)
    reads s
  {
    && NoDup(s)
    && (forall n {:trigger s[n].next} :: 0 <= n < |s| - 1 ==> s[n].next == s[n + 1])
    && (forall n {:trigger s[n].prev} :: 1 <= n < |s| ==> s[n].prev == s[n - 1])
  }

  /** A chain without its segment [j..k]. */
  ghost function Without(c: seq<ListElem>, j: nat, k: nat): (r: seq<ListElem>)
    requires j <= k <= |c|
  {
    c[..j] + c[k..]
  }

  /** A chain with a segment put in at position i. */
  ghost function With(d: seq<ListElem>, i: nat, segment: seq<ListElem>): (r: seq<ListElem>)
    requires i <= |d|
  {
    d[..i] + segment + d[i..]
  }

  /** The first step of list_splice: closes the gap around [first, end] (list.c:166-168). */
  method UnlinkSegment(first: ListElem, end: ListElem, ghost c: seq<ListElem>, ghost j: nat, ghost k: nat)
    requires Chain(c) && 1 <= j < k < |c| && first == c[j] && end == c[k - 1]
    modifies c[j - 1], c[k]
    ensures Chain(Without(c, j, k)) && SegmentLinked(c[j..k]) && first.prev == c[j - 1]
  {
    first.prev.next := end.next;
    end.next.prev := first.prev;
  }

  /** `before` is at place i of a chain that does not meet the segment. */
  ghost predicate Beside(before: ListElem, d: seq<ListElem>, i: nat, segment: seq<ListElem>)
    reads d
  {
    Chain(d) && 1 <= i < |d| && before == d[i] && Apart(segment, d)
  }

  /** `before` is itself at place i of the segment. */
  ghost predicate Within(before: ListElem, i: nat, segment: seq<ListElem>)
    reads before
  {
    i < |segment| && before == segment[i] && before.prev != null && before.prev !in segment[i..]
  }

  /**
   * The second step of list_splice: links [first, end] in before `before` (list.c:170-174). If
   * that lies in the segment itself, no well-formed list has it any more.
   */
  method LinkSegment(before: ListElem, first: ListElem, end: ListElem,
                     ghost d: seq<ListElem>, ghost i: nat, ghost segment: seq<ListElem>)
    requires SegmentLinked(segment) && |segment| > 0 && first == segment[0] && end == segment[|segment| - 1]
    requires Beside(before, d, i, segment) || Within(before, i, segment)
    modifies before, before.prev, first, end
    ensures old(Beside(before, d, i, segment)) ==> Chain(With(d, i, segment))
    ensures old(Within(before, i, segment)) ==> forall e: seq<ListElem> :: Chain(e) ==> before !in e
  {
    ghost var inside := Within(before, i, segment);
    first.prev := before.prev;
    end.next := before;
    before.prev.next := first;
    before.prev := end;
    if inside {
      NoChainThrough(before, i, segment);
    }
  }

  lemma NoChainThrough(before: ListElem, i: nat, segment: seq<ListElem>)
    requires i < |segment| && before == segment[i] && segment[|segment| - 1].next == before
    requires forall n {:trigger segment[n].next} :: i <= n < |segment| - 1 ==> segment[n].next == segment[n + 1]
    ensures forall e: seq<ListElem> :: Chain(e) ==> before !in e
  {
    forall e: seq<ListElem> | Chain(e)
      ensures before !in e
    {
      NoChainThroughCycle(segment[i..], e);
    }
  }

  lemma CutApart(c: seq<ListElem>, j: nat, k: nat)
    requires NoDup(c) && j <= k <= |c|
    ensures Apart(c[j..k], Without(c, j, k))
  {
  }

  /** c[j..k] moved within its chain to before c[i]. */
  ghost function Moved(c: seq<ListElem>, i: nat, j: nat, k: nat): (r: seq<ListElem>)
    requires j <= k <= |c| && i <= |c| && (i < j || k <= i)
  {
    With(Without(c, j, k), if i < j then i else i - (k - j), c[j..k])
  }

  lemma EndOfSegment(c: seq<ListElem>, j: nat, k: nat)
    requires Chain(c) && 1 <= j <= k < |c|
    ensures NoDup(c) && c[k].prev == c[k - 1] && (c[j] == c[k] ==> j == k)
  {
  }

  lemma PlaceOutside(c: seq<ListElem>, i: nat, j: nat, k: nat)
    requires NoDup(c) && 1 <= j <= k < |c| && 1 <= i < |c| && (i < j || k <= i) && Chain(Without(c, j, k))
    ensures Beside(c[i], Without(c, j, k), if i < j then i else i - (k - j), c[j..k]) && c[i].prev in c
  {
    CutApart(c, j, k);
    var d, place := Without(c, j, k), if i < j then i else i - (k - j);
    assert d[place] == c[i] && d[place - 1] in c;
    assert d[place].prev == d[place - 1];
  }

  lemma PlaceInside(c: seq<ListElem>, i: nat, j: nat, k: nat)
    requires NoDup(c) && 1 <= j <= i < k < |c| && SegmentLinked(c[j..k]) && c[j].prev == c[j - 1]
    ensures Within(c[i], i - j, c[j..k]) && c[i].prev in c
  {
    var s := c[j..k];
    assert s[i - j] == c[i] && s[i - j..] == c[i..k];
    assert i > j ==> s[i - j].prev == s[i - j - 1] == c[i - 1];
    assert c[i].prev == c[i - 1] && c[i - 1] !in c[i..k];
  }

  /**
   * list_splice within one list (list.c:157-175): moves [first, last) just before `before`.
   * It does not check that `before` lies outside the segment; if not, no well-formed
   * list has `before` in it any more.
   */
  method ListSplice(before: ListElem, first: ListElem, last: ListElem,
                    ghost c: seq<ListElem>, ghost i: nat, ghost j: nat, ghost k: nat)
    requires Chain(c) && 1 <= j <= k < |c| && 1 <= i < |c|
    requires before == c[i] && first == c[j] && last == c[k]
    modifies c
    ensures i < j || k <= i ==> Chain(Moved(c, i, j, k))
    ensures j <= i < k ==> forall d: seq<ListElem> :: Chain(d) ==> before !in d
  {
    hide Chain, SegmentLinked, NoDup, Apart, Beside, Within;
    EndOfSegment(c, j, k);
    if first == last {
      assert i < j || k <= i ==> Moved(c, i, j, k) == c;
      return;
    }
    var end := last.prev;
    UnlinkSegment(first, end, c, j, k);
    ghost var place := if i < j then i else if i < k then i - j else i - (k - j);
    if i < j || k <= i {
      PlaceOutside(c, i, j, k);
    } else {
      PlaceInside(c, i, j, k);
    }
    LinkSegment(before, first, end, Without(c, j, k), place, c[j..k]);
  }

  /** The elements of s lead to one another and back to the first, so no chain holds the first. */
  lemma NoChainThroughCycle(s: seq<ListElem>, d: seq<ListElem>)
    requires s != [] && Chain(d) && s[|s| - 1].next == s[0]
    requires forall n {:trigger s[n].next} :: 0 <= n < |s| - 1 ==> s[n].next == s[n + 1]
    ensures s[0] !in d
  {
    if s[0] in d {
      var x :| 0 <= x < |d| && d[x] == s[0];
      FollowChain(s, d, x, |s| - 1);
    }
  }

  lemma {:induction false} FollowChain(s: seq<ListElem>, d: seq<ListElem>, x: nat, n: nat)
    requires Chain(d) && n < |s| && x < |d| && d[x] == s[0] && s[|s| - 1].next == s[0]
    requires forall n {:trigger s[n].next} :: 0 <= n < |s| - 1 ==> s[n].next == s[n + 1]
    ensures x + n < |d| - 1 && d[x + n] == s[n]
  {
    if n > 0 {
      FollowChain(s, d, x, n - 1);
      assert s[n - 1].next == s[n];
      assert d[x + n - 1].next == d[x + n];
    }
    assert s[n].next != null;
  }

  /** list_splice from one list into another: moves [first, last) just before `before` (list.c:157-175). */
  method ListSpliceAcross(before: ListElem, first: ListElem, last: ListElem,
                          ghost c: seq<ListElem>, ghost j: nat, ghost k: nat, ghost d: seq<ListElem>, ghost i: nat)
    requires Chain(c) && 1 <= j <= k < |c| && first == c[j] && last == c[k]
    requires Chain(d) && 1 <= i < |d| && before == d[i] && Apart(c, d)
    modifies c, d
    ensures Chain(Without(c, j, k)) && Chain(With(d, i, c[j..k]))
  {
    if first == last {
      assert Without(c, j, k) == c && With(d, i, c[j..k]) == d;
      return;
    }
    var end := last.prev;
    UnlinkSegment(first, end, c, j, k);
    CutApart(c, j, k);
    LinkSegment(before, first, end, d, i, c[j..k]);
  }

  lemma TakenOut(head: ListElem, s: seq<ListElem>, tail: ListElem, k: nat)
    requires NoDup([head] + s + [tail]) && k < |s|
    ensures var c := [head] + s + [tail];
            c[k + 1] == s[k] && [head] + (s[..k] + s[k + 1..]) + [tail] == c[..k + 1] + c[k + 2..]
    ensures s[k] !in s[..k] + s[k + 1..]
  {
    var c := [head] + s + [tail];
    assert forall i :: 0 <= i < |s| ==> s[i] == c[i + 1];
  }

  /** A doubly linked list with its head and tail sentinels. */
  class List {
    const head: ListElem
    const tail: ListElem
    ghost var elems: seq<ListElem>

    ghost function Nodes(): (c: seq<ListElem>)
      reads this
    {
      [head] + elems + [tail]
    }

    ghost predicate Valid()
      reads this, Nodes()
    {
      Chain(Nodes())
    }

    constructor (headAddr: int, tailAddr: int)
      ensures Valid() && elems == []
      ensures fresh(head) && fresh(tail) && head.addr == headAddr && tail.addr == tailAddr
    {
      head := new ListElem(headAddr);
      tail := new ListElem(tailAddr);
      elems := [];
      new;
      head.next := tail;
      tail.prev := head;
    }

    method Empty() returns (empty: bool)
      requires Valid()
      ensures empty <==> elems == []
    {
      empty := head.next == tail;
    }

    /** list_size (list.c:252-261). */
    method Size() returns (count: nat)
      requires Valid()
      ensures count == |elems|
    {
      var e := head.next;
      count := 0;
      while e != tail
        invariant count <= |elems| && e == Nodes()[count + 1]
        decreases |elems| - count
      {
        e := e.next;
        count := count + 1;
      }
    }

    method Front() returns (e: ListElem)
      requires Valid() && elems != []
      ensures e == elems[0]
    {
      e := head.next;
    }

    method PushFront(elem: ListElem)
      requires Valid() && elem !in Nodes()
      modifies this, elem, Nodes()
      ensures Valid() && elems == [elem] + old(elems)
    {
      ListInsert(head.next, elem, Nodes(), 1);
      elems := [elem] + elems;
      assert Nodes() == old(Nodes()[..1] + [elem] + Nodes()[1..]);
    }

    method PushBack(elem: ListElem)
      requires Valid() && elem !in Nodes()
      modifies this, elem, Nodes()
      ensures Valid() && elems == old(elems) + [elem]
      ensures Nodes() == old(Nodes()[..|elems| + 1] + [elem] + Nodes()[|elems| + 1..])
    {
      ListInsert(tail, elem, Nodes(), |elems| + 1);
      elems := elems + [elem];
      assert Nodes() == old(Nodes()[..|elems| + 1] + [elem] + Nodes()[|elems| + 1..]);
    }

    method Remove(elem: ListElem, ghost k: nat) returns (following: ListElem)
      requires Valid() && k < |elems| && elem == elems[k]
      modifies this, Nodes()
      ensures Valid() && elems == old(elems[..k] + elems[k + 1..]) && elem !in elems
      ensures Nodes() == old(Nodes()[..k + 1] + Nodes()[k + 2..])
      ensures following == old(Nodes()[k + 2])
    {
      TakenOut(head, elems, tail, k);
      following := ListRemove(elem, Nodes(), k + 1);
      elems := elems[..k] + elems[k + 1..];
    }
  }
}
