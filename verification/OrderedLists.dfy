/**
 The other whole-list operations of kernel/lib/list.c: reversal in place,
 ordered insertion, and removal of adjacent duplicates.
 */
module OrderedLists {
  import opened Sequences
  import opened IntrusiveList
  import opened SortSpec
  import opened ListSort

  /** Links of the chain c after list_reverse's loop has swapped those of the elements before m. */
  ghost predicate SwappedTo(c: seq<ListElem>, m: nat)
    requires 1 <= m < |c|
    reads c
  {
    && NoDup(c) && c[0].prev == null && c[|c| - 1].next == null
    && c[0].next == c[1] && c[|c| - 1].prev == c[|c| - 2]
    && (forall i {:trigger c[i].next} :: 1 <= i < |c| - 1 ==> c[i].next == if i < m then c[i - 1] else c[i + 1])
    && (forall i {:trigger c[i].prev} :: 1 <= i < |c| - 1 ==> c[i].prev == if i < m then c[i + 1] else c[i - 1])
  }

  /** The chain with its elements in the opposite order, between the same sentinels. */
  ghost function Mirrored(c: seq<ListElem>): (r: seq<ListElem>)
    requires |c| >= 2
    ensures |r| == |c|
  {
    [c[0]] + Reversed(c[1..|c| - 1]) + [c[|c| - 1]]
  }

  lemma MirroredAt(c: seq<ListElem>)
    requires |c| >= 2
    ensures var r := Mirrored(c);
            forall i {:trigger r[i]} :: 0 <= i < |c| ==>
              r[i] == c[if i == 0 || i == |c| - 1 then i else |c| - 1 - i]
  {
    var r := Mirrored(c);
    forall i {:trigger r[i]} | 1 <= i < |c| - 1
      ensures r[i] == c[|c| - 1 - i]
    {
      ReversedAt(c[1..|c| - 1], i - 1);
    }
  }

  /** A chain whose links all point the other way, with its ends exchanged, is the mirrored chain. */
  lemma MirroredChain(c: seq<ListElem>)
    requires |c| >= 3 && NoDup(c) && c[0].prev == null && c[|c| - 1].next == null
    requires var n := |c| - 2;
             && c[0].next == c[n] && c[n + 1].prev == c[1] && c[n].prev == c[0] && c[1].next == c[n + 1]
             && (forall i {:trigger c[i].next} :: 2 <= i <= n ==> c[i].next == c[i - 1])
             && (forall i {:trigger c[i].prev} :: 1 <= i < n ==> c[i].prev == c[i + 1])
    ensures Chain(Mirrored(c))
  {
    MirroredAt(c);
    hide Mirrored;
    var r := Mirrored(c);
  }

  /** The loop of list_reverse: swaps the links of every element (list.c:278-279). */
  method SwapLinks(begin: ListElem, end: ListElem, ghost c: seq<ListElem>)
    requires Chain(c) && begin == c[1] && end == c[|c| - 1]
    modifies c
    ensures SwappedTo(c, |c| - 1)
  {
    var e := begin;
    ghost var m := 1;
    while e != end
      invariant 1 <= m < |c| && e == c[m] && SwappedTo(c, m)
      decreases |c| - m
    {
      e.prev, e.next := e.next, e.prev;
      e, m := e.prev, m + 1;
    }
    assert m == |c| - 1;
  }

  /** The end of list_reverse: exchanges the two ends (list.c:280-281). */
  method ExchangeEnds(head: ListElem, tail: ListElem, ghost c: seq<ListElem>)
    requires |c| >= 3 && SwappedTo(c, |c| - 1) && head == c[0] && tail == c[|c| - 1]
    modifies c
    ensures Chain(Mirrored(c))
  {
    head.next, tail.prev := tail.prev, head.next;
    head.next.prev, tail.prev.next := tail.prev.next, head.next.prev;
    hide Mirrored, Chain;
    MirroredChain(c);
  }

  /** list_reverse (list.c:273-283). */
  method Reverse(list: List)
    requires list.Valid()
    modifies list, list.Nodes()
    ensures list.Valid() && list.elems == Reversed(old(list.elems))
  {
    ghost var c := list.Nodes();
    assert c[1..|c| - 1] == list.elems;
    if list.head.next != list.tail {
      SwapLinks(list.head.next, list.tail, c);
      ExchangeEnds(list.head, list.tail, c);
    }
    list.elems := Reversed(list.elems);
  }

  /** The search loop of list_insert_ordered (list.c:383-385). */
  method FindPlace(begin: ListElem, end: ListElem, elem: ListElem, less: Less<ListElem>,
                   ghost s: seq<ListElem>, ghost c: seq<ListElem>)
    returns (e: ListElem, ghost i: nat)
    requires Chain(c) && |c| == |s| + 2 && s == c[1..|s| + 1] && begin == c[1] && end == c[|s| + 1]
    ensures i <= |s| && e == c[i + 1] && Insert(less, elem, s) == s[..i] + [elem] + s[i..]
  {
    hide Insert, Chain;
    assert s[..0] == [] && s[0..] == s;
    e, i := begin, 0;
    while e != end
      invariant i <= |s| && e == c[i + 1]
      invariant Insert(less, elem, s) == s[..i] + Insert(less, elem, s[i..])
      decreases |s| - i
    {
      Neighbours(c, i + 1);
      if less(elem, e) {
        break;
      }
      InsertLater(less, elem, s, i);
      e, i := e.next, i + 1;
    }
    Neighbours(c, i + 1);
    InsertHere(less, elem, s, i);
  }

  /** list_insert_ordered (list.c:372-387). */
  method InsertOrdered(list: List, elem: ListElem, less: Less<ListElem>)
    requires list.Valid() && elem !in list.Nodes()
    modifies list, list.Nodes(), elem
    ensures list.Valid() && list.elems == Insert(less, elem, old(list.elems))
  {
    hide Insert;
    ghost var s, c := list.elems, list.Nodes();
    assert s == c[1..|s| + 1];
    var e, i := FindPlace(list.head.next, list.tail, elem, less, s, c);
    ListInsert(e, elem, c, i + 1);
    list.elems := s[..i] + [elem] + s[i..];
    NodeInserted(list.head, s, list.tail, elem, i);
  }

  lemma NodeInserted(head: ListElem, s: seq<ListElem>, tail: ListElem, elem: ListElem, i: nat)
    requires i <= |s|
    ensures var c := [head] + s + [tail];
            [head] + (s[..i] + [elem] + s[i..]) + [tail] == c[..i + 1] + [elem] + c[i + 1..]
  {
  }

  lemma InsertLater(less: Less<ListElem>, elem: ListElem, s: seq<ListElem>, i: nat)
    requires i < |s| && !less(elem, s[i])
    ensures s[..i] + Insert(less, elem, s[i..]) == s[..i + 1] + Insert(less, elem, s[i + 1..])
  {
    assert s[i..][1..] == s[i + 1..];
  }

  lemma InsertHere(less: Less<ListElem>, elem: ListElem, s: seq<ListElem>, i: nat)
    requires i <= |s| && (i < |s| ==> less(elem, s[i]))
    ensures s[..i] + Insert(less, elem, s[i..]) == s[..i] + [elem] + s[i..]
  {
  }

  /** The first of every group of adjacent equivalent elements, and the rest in order. */
  function Unique<T>(less: Less<T>, s: seq<T>): (r: (seq<T>, seq<T>))
    decreases |s|
  {
    if |s| <= 1 then (s, [])
    else if Equivalent(less, s[0], s[1]) then
      var rest := Unique(less, [s[0]] + s[2..]);
      (rest.0, [s[1]] + rest.1)
    else
      var rest := Unique(less, s[1..]);
      ([s[0]] + rest.0, rest.1)
  }

  lemma FirstCounts<T>(s: seq<T>, kept: seq<T>, dropped: seq<T>)
    requires s != [] && multiset(kept) + multiset(dropped) == multiset(s[1..])
    ensures multiset([s[0]] + kept) + multiset(dropped) == multiset(s)
  {
    assert s == [s[0]] + s[1..];
  }

  lemma SecondCounts<T>(s: seq<T>, kept: seq<T>, dropped: seq<T>)
    requires |s| > 1 && multiset(kept) + multiset(dropped) == multiset([s[0]] + s[2..])
    ensures multiset(kept) + multiset([s[1]] + dropped) == multiset(s)
  {
    assert s == [s[0], s[1]] + s[2..];
    assert multiset(s) == multiset{s[1]} + multiset([s[0]] + s[2..]);
    assert multiset([s[1]] + dropped) == multiset{s[1]} + multiset(dropped);
    assert multiset(kept) + multiset([s[1]] + dropped) == multiset{s[1]} + (multiset(kept) + multiset(dropped));
  }

  /** Nothing is lost, whatever the order of s. */
  lemma {:induction false} UniquePermutes<T>(less: Less<T>, s: seq<T>)
    ensures var (kept, dropped) := Unique(less, s); multiset(kept) + multiset(dropped) == multiset(s)
    decreases |s|
  {
    if |s| > 1 {
      if Equivalent(less, s[0], s[1]) {
        var t := [s[0]] + s[2..];
        UniquePermutes(less, t);
        var rest := Unique(less, t);
        SecondCounts(s, rest.0, rest.1);
      } else {
        UniquePermutes(less, s[1..]);
        var rest := Unique(less, s[1..]);
        FirstCounts(s, rest.0, rest.1);
      }
    }
  }

  /** No two neighbours that stay are equivalent, whatever the order of s. */
  lemma {:induction false} UniqueNeighboursDiffer<T>(less: Less<T>, s: seq<T>)
    ensures var kept := Unique(less, s).0;
            && (forall i :: 0 <= i < |kept| - 1 ==> !Equivalent(less, kept[i], kept[i + 1]))
            && (s != [] ==> kept != [] && kept[0] == s[0])
    decreases |s|
  {
    if |s| > 1 {
      if Equivalent(less, s[0], s[1]) {
        UniqueNeighboursDiffer(less, [s[0]] + s[2..]);
      } else {
        UniqueNeighboursDiffer(less, s[1..]);
      }
    }
  }

  /** The elements that are not equivalent to the one right before them. */
  function StartsAfter<T>(less: Less<T>, s: seq<T>): (r: seq<T>) {
    if |s| < 2 then []
    else (if Equivalent(less, s[0], s[1]) then [] else [s[1]]) + StartsAfter(less, s[1..])
  }

  /** The first element of each group of adjacent equivalent elements. */
  function GroupStarts<T>(less: Less<T>, s: seq<T>): (r: seq<T>) {
    (if s == [] then [] else [s[0]]) + StartsAfter(less, s)
  }

  /** The elements that are equivalent to the one right before them. */
  function RestOfGroups<T>(less: Less<T>, s: seq<T>): (r: seq<T>) {
    if |s| < 2 then []
    else (if Equivalent(less, s[0], s[1]) then [s[1]] else []) + RestOfGroups(less, s[1..])
  }

  /** Equivalent first elements make no difference to what follows them. */
  lemma SameStarts<T>(less: Less<T>, elems: set<T>, x: T, y: T, s: seq<T>)
    requires StrictWeakOrder(less, elems) && x in elems && y in elems && Among(s, elems) && Equivalent(less, x, y)
    ensures StartsAfter(less, [x] + s) == StartsAfter(less, [y] + s)
    ensures RestOfGroups(less, [x] + s) == RestOfGroups(less, [y] + s)
  {
    assert ([x] + s)[1..] == s && ([y] + s)[1..] == s;
    if s != [] {
      assert s[0] in elems;
      assert Equivalent(less, x, s[0]) <==> Equivalent(less, y, s[0]);
    }
  }

  /** The first element of every group of adjacent equivalent elements stays, whatever the order of s; the others go. */
  lemma {:induction false} UniqueKeepsGroupStarts<T>(less: Less<T>, elems: set<T>, s: seq<T>)
    requires StrictWeakOrder(less, elems) && Among(s, elems)
    ensures Unique(less, s) == (GroupStarts(less, s), RestOfGroups(less, s))
    decreases |s|
  {
    if |s| > 1 {
      if Equivalent(less, s[0], s[1]) {
        var t := [s[0]] + s[2..];
        UniqueKeepsGroupStarts(less, elems, t);
        SameStarts(less, elems, s[0], s[1], s[2..]);
        assert [s[1]] + s[2..] == s[1..];
        assert StartsAfter(less, s) == StartsAfter(less, s[1..]);
      } else {
        assert RestOfGroups(less, s) == RestOfGroups(less, s[1..]);
        UniqueKeepsGroupStarts(less, elems, s[1..]);
      }
    } else {
      assert GroupStarts(less, s) == s;
    }
  }

  /** On a sorted list exactly the first element of every class stays, and the others go in order. */
  lemma {:induction false} UniqueKeepsFirsts<T>(less: Less<T>, elems: set<T>, s: seq<T>, x: T)
    requires StrictWeakOrder(less, elems) && Among(s, elems) && Sorted(less, s) && x in elems
    ensures var (kept, dropped) := Unique(less, s);
            var group := Class(less, x, s);
            && Class(less, x, kept) == (if group == [] then [] else group[..1])
            && Class(less, x, dropped) == if group == [] then [] else group[1..]
    decreases |s|
  {
    if |s| > 1 {
      if Equivalent(less, s[0], s[1]) {
        var t := [s[0]] + s[2..];
        UniqueKeepsFirsts(less, elems, t, x);
        assert t[1..] == s[2..] && s[1..][1..] == s[2..];
      } else {
        UniqueKeepsFirsts(less, elems, s[1..], x);
        if Equivalent(less, x, s[0]) {
          NoneAbove(less, elems, x, s[0], s[1..]);
        }
      }
    }
  }

  ghost function Elements<T>(s: seq<T>): (r: set<T>) {
    set e | e in s
  }

  lemma KeepsGroupStarts<T>(less: Less<T>, s: seq<T>)
    ensures StrictWeakOrder(less, Elements(s)) ==> Unique(less, s) == (GroupStarts(less, s), RestOfGroups(less, s))
  {
    if StrictWeakOrder(less, Elements(s)) {
      UniqueKeepsGroupStarts(less, Elements(s), s);
    }
  }

  /** What the loop of list_unique has made of s: the list up to its element i is settled. */
  ghost predicate UniqueTo(less: Less<ListElem>, s: seq<ListElem>, t: seq<ListElem>, i: nat, dups: seq<ListElem>) {
    && i < |t|
    && Unique(less, s).0 == t[..i] + Unique(less, t[i..]).0
    && Unique(less, s).1 == dups + Unique(less, t[i..]).1
  }

  lemma UniqueStarts(less: Less<ListElem>, s: seq<ListElem>)
    requires s != []
    ensures UniqueTo(less, s, s, 0, [])
  {
    assert s[..0] == [] && s[0..] == s;
  }

  lemma UniqueDrops(less: Less<ListElem>, s: seq<ListElem>, t: seq<ListElem>, i: nat, dups: seq<ListElem>)
    requires UniqueTo(less, s, t, i, dups) && i + 1 < |t| && Equivalent(less, t[i], t[i + 1])
    ensures UniqueTo(less, s, t[..i + 1] + t[i + 2..], i, dups + [t[i + 1]])
  {
    var u := t[..i + 1] + t[i + 2..];
    assert u[..i] == t[..i];
    assert u[i..] == [t[i]] + t[i + 2..];
    assert t[i..][2..] == t[i + 2..];
  }

  lemma UniqueKeeps(less: Less<ListElem>, s: seq<ListElem>, t: seq<ListElem>, i: nat, dups: seq<ListElem>)
    requires UniqueTo(less, s, t, i, dups) && i + 1 < |t| && !Equivalent(less, t[i], t[i + 1])
    ensures UniqueTo(less, s, t, i + 1, dups)
  {
    assert t[i..][1..] == t[i + 1..];
    assert t[..i + 1] == t[..i] + [t[i]];
  }

  lemma UniqueEnds(less: Less<ListElem>, s: seq<ListElem>, t: seq<ListElem>, i: nat, dups: seq<ListElem>)
    requires UniqueTo(less, s, t, i, dups) && i + 1 == |t|
    ensures Unique(less, s) == (t, dups)
  {
    assert Unique(less, t[i..]) == (t[i..], []);
    assert t == t[..i] + t[i..] && dups == dups + [];
  }

  /** list_remove leaves other lists alone. */
  method RemoveBeside(elem: ListElem, ghost c: seq<ListElem>, ghost k: nat, ghost other: seq<ListElem>)
    requires Chain(c) && 1 <= k < |c| - 1 && elem == c[k] && Chain(other) && Apart(c, other)
    modifies c
    ensures Chain(c[..k] + c[k + 1..]) && Chain(other)
  {
    var _ := ListRemove(elem, c, k);
  }

  /** list_insert leaves other lists alone. */
  method InsertBeside(before: ListElem, elem: ListElem, ghost d: seq<ListElem>, ghost k: nat,
                      ghost other: seq<ListElem>)
    requires Chain(d) && 1 <= k < |d| && before == d[k] && elem !in d
    requires Chain(other) && Apart(other, d) && elem !in other
    modifies d, elem
    ensures Chain(d[..k] + [elem] + d[k..]) && Chain(other)
  {
    ListInsert(before, elem, d, k);
  }

  /** Moving a node from one of two separate chains to the end of the other keeps them separate. */
  lemma Transfer(c: seq<ListElem>, k: nat, d: seq<ListElem>)
    requires NoDup(c) && Apart(c, d) && k < |c| && |d| >= 2 && 0 < k
    ensures var rest, n := c[..k] + c[k + 1..], |d| - 1;
            && c[k] !in d && c[k] !in rest
            && Apart(rest, d) && Apart(rest, d[..n] + [c[k]] + d[n..])
  {
    var rest, n := c[..k] + c[k + 1..], |d| - 1;
    var d' := d[..n] + [c[k]] + d[n..];
    forall x, y | 0 <= x < |rest| && 0 <= y < |d'|
      ensures rest[x] != d'[y]
    {
      assert rest[x] == c[if x < k then x else x + 1];
      assert y != n ==> d'[y] == d[if y < n then y else y - 1];
    }
  }

  /** Takes an element off its list and appends it to the list of duplicates (list.c:404-406). */
  method MoveToDuplicates(list: List, duplicates: List, next: ListElem, ghost k: nat)
    requires list.Valid() && duplicates.Valid() && Apart(list.Nodes(), duplicates.Nodes())
    requires k < |list.elems| && next == list.elems[k]
    modifies list, list.Nodes(), duplicates, duplicates.Nodes()
    ensures list.Valid() && list.elems == old(list.elems[..k] + list.elems[k + 1..])
    ensures duplicates.Valid() && duplicates.elems == old(duplicates.elems) + [next]
    ensures Apart(list.Nodes(), duplicates.Nodes())
    ensures list.Nodes() == old(list.Nodes()[..k + 1] + list.Nodes()[k + 2..])
    ensures var d := old(duplicates.Nodes()); duplicates.Nodes() == d[..|d| - 1] + [next] + d[|d| - 1..]
  {
    ghost var c, d := list.Nodes(), duplicates.Nodes();
    assert list != duplicates by {
      assert c[0] == list.head && d[0] == duplicates.head;
    }
    ghost var c', d' := c[..k + 1] + c[k + 2..], d[..|d| - 1] + [next] + d[|d| - 1..];
    Transfer(c, k + 1, d);
    TakenOut(list.head, list.elems, list.tail, k);
    Appended(duplicates.head, duplicates.elems, duplicates.tail, next);
    hide Chain, Apart, NoDup;
    RemoveBeside(next, c, k + 1, d);
    InsertBeside(duplicates.tail, next, d, |d| - 1, c');
    list.elems := list.elems[..k] + list.elems[k + 1..];
    duplicates.elems := duplicates.elems + [next];
    assert list.Nodes() == c' && duplicates.Nodes() == d';
  }

  lemma Appended(head: ListElem, s: seq<ListElem>, tail: ListElem, elem: ListElem)
    ensures var d := [head] + s + [tail];
            [head] + (s + [elem]) + [tail] == d[..|d| - 1] + [elem] + d[|d| - 1..]
  {
  }

  /** The list and the list of duplicates, if there is one, are well formed, separate, and made of these nodes. */
  ghost predicate Separate(list: List, duplicates: List?, nodes: set<ListElem>)
    reads list, list.Nodes(), duplicates, if duplicates == null then [] else duplicates.Nodes()
  {
    && list.Valid() && Inside(list.Nodes(), nodes)
    && (duplicates != null ==>
          && duplicates.Valid() && Inside(duplicates.Nodes(), nodes)
          && Apart(list.Nodes(), duplicates.Nodes()))
  }

  lemma InsideStill(c: seq<ListElem>, k: nat, d: seq<ListElem>, nodes: set<ListElem>)
    requires Inside(c, nodes) && Inside(d, nodes) && k < |c| && d != []
    ensures Inside(c[..k] + c[k + 1..], nodes) && Inside(d[..|d| - 1] + [c[k]] + d[|d| - 1..], nodes)
  {
  }

  /** The body of list_unique's loop for a duplicate (list.c:403-406). */
  method DropDuplicate(list: List, duplicates: List?, next: ListElem, ghost k: nat, ghost nodes: set<ListElem>)
    requires Separate(list, duplicates, nodes) && k < |list.elems| && next == list.elems[k]
    modifies list, duplicates, nodes
    ensures Separate(list, duplicates, nodes) && list.elems == old(list.elems[..k] + list.elems[k + 1..])
    ensures duplicates != null ==> duplicates.elems == old(duplicates.elems) + [next]
  {
    ghost var c := list.Nodes();
    assert c[k + 1] == next;
    hide Chain, Apart, Inside;
    InsideStill(c, k + 1, c, nodes);
    if duplicates == null {
      var _ := list.Remove(next, k);
    } else {
      InsideStill(c, k + 1, duplicates.Nodes(), nodes);
      MoveToDuplicates(list, duplicates, next, k);
    }
  }

  /** list_unique (list.c:389-409); `duplicates` may be null, and is not the list itself. */
  method RemoveDuplicates(list: List, duplicates: List?, less: Less<ListElem>, ghost nodes: set<ListElem>)
    requires Separate(list, duplicates, nodes)
    modifies list, duplicates, nodes
    ensures Separate(list, duplicates, nodes) && list.elems == Unique(less, old(list.elems)).0
    ensures duplicates != null ==> duplicates.elems == old(duplicates.elems) + Unique(less, old(list.elems)).1
    ensures var s := old(list.elems);
            StrictWeakOrder(less, Elements(s)) ==>
              && list.elems == GroupStarts(less, s)
              && (duplicates != null ==> duplicates.elems == old(duplicates.elems) + RestOfGroups(less, s))
  {
    hide Chain, Apart, Inside, UniqueTo, Unique, Separate, StrictWeakOrder, GroupStarts, RestOfGroups, Elements;
    KeepsGroupStarts(less, list.elems);
    FirstIsElement(list, duplicates, nodes);
    if list.head.next == list.tail {
      UniqueOfNone(less);
      return;
    }
    ghost var s, i, dups: seq<ListElem> := list.elems, 0, [];
    UniqueStarts(less, s);
    NextIsElement(list, duplicates, nodes, 0);
    var elem := list.head.next;
    var next := elem.next;
    while next != list.tail
      invariant Separate(list, duplicates, nodes) && UniqueTo(less, s, list.elems, i, dups)
      invariant i < |list.elems| && elem == list.elems[i] && next == list.Nodes()[i + 2]
      invariant duplicates != null ==> duplicates.elems == old(duplicates.elems) + dups
      decreases |list.elems| - i
    {
      NextIsElement(list, duplicates, nodes, i);
      if !less(elem, next) && !less(next, elem) {
        UniqueDrops(less, s, list.elems, i, dups);
        DropDuplicate(list, duplicates, next, i + 1, nodes);
        dups := dups + [next];
      } else {
        UniqueKeeps(less, s, list.elems, i, dups);
        elem, i := next, i + 1;
      }
      NextIsElement(list, duplicates, nodes, i);
      next := elem.next;
    }
    NextIsElement(list, duplicates, nodes, i);
    UniqueEnds(less, s, list.elems, i, dups);
  }

  lemma FirstIsElement(list: List, duplicates: List?, nodes: set<ListElem>)
    requires Separate(list, duplicates, nodes)
    ensures list.head.next == if list.elems == [] then list.tail else list.elems[0]
    ensures list.elems != [] ==> list.elems[0] != list.tail
  {
    var c := list.Nodes();
    assert c[0] == list.head && c[1] == if list.elems == [] then list.tail else list.elems[0];
    assert c[|c| - 1] == list.tail;
  }

  lemma UniqueOfNone<T>(less: Less<T>)
    ensures Unique(less, []) == ([], [])
  {
  }

  lemma NextIsElement(list: List, duplicates: List?, nodes: set<ListElem>, i: nat)
    requires Separate(list, duplicates, nodes) && i < |list.elems|
    ensures list.Nodes()[i + 2] == list.tail <==> i + 1 == |list.elems|
    ensures i + 1 < |list.elems| ==> list.Nodes()[i + 2] == list.elems[i + 1]
    ensures list.elems[i].next == list.Nodes()[i + 2]
  {
    var c := list.Nodes();
    assert c[i + 1] == list.elems[i];
  }
}
