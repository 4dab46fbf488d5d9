/**
 The natural merge sort of kernel/lib/list.c, on the linked nodes themselves.
 A ghost sequence says what the chain of nodes is; comparisons outside ASSERTs
 are counted in `cmps`.
 */
module ListSort {
  import opened Bits
  import opened IntrusiveList
  import opened SortSpec

  /** find_end_of_run (list.c:295-311): a is c[p], b is c[r]. */
  method FindEndOfRun(a: ListElem, b: ListElem, less: Less<ListElem>, ghost c: seq<ListElem>, ghost p: nat,
                      ghost r: nat)
    returns (end: ListElem, ghost q: nat, ghost cmps: nat)
    requires Chain(c) && 1 <= p < r < |c| && a == c[p] && b == c[r]
    ensures p < q <= r && end == c[q] && q - p == RunEnd(less, c[p..r])
    ensures cmps <= q - p
  {
    end, q, cmps := a.next, p + 1, 0;
    while end != b
      invariant p < q <= r && end == c[q] && cmps == q - p - 1
      invariant RunEnd(less, c[p..r]) == q - 1 - p + RunEnd(less, c[q - 1..r])
      decreases r - q
    {
      cmps := cmps + 1;
      assert c[q - 1..r][1..] == c[q..r];
      if less(end, end.prev) {
        break;
      }
      end, q := end.next, q + 1;
    }
  }

  /**
   * The else branch of inplace_merge (list.c:330-333): y = c[j] goes before
   * x = c[i]; the node after y is next.
   */
  method MoveBefore(x: ListElem, y: ListElem, ghost c: seq<ListElem>, ghost i: nat, ghost j: nat,
                    ghost nodes: set<ListElem>)
    returns (following: ListElem)
    requires Chain(c) && Inside(c, nodes) && 1 <= i < j && j + 1 < |c| && x == c[i] && y == c[j]
    modifies nodes
    ensures Chain(Moved(c, i, j, j + 1)) && following == c[j + 1]
  {
    hide Moved;
    following := y.next;
    ListSplice(x, following.prev, following, c, i, j, j + 1);
  }

  /** Taking the node at j to position i, where i <= j < r: what it does to the parts of the chain. */
  lemma MoveOne(c: seq<ListElem>, p: nat, i: nat, j: nat, r: nat)
    requires p <= i < j < r < |c|
    ensures var d := Moved(c, i, j, j + 1);
            && |d| == |c| && d[i + 1] == c[i] && d[j + 1] == c[j + 1] && d[r] == c[r]
            && (forall nodes :: Inside(c, nodes) ==> Inside(d, nodes))
            && d[..p] == c[..p] && d[r..] == c[r..]
            && d[p..i + 1] == c[p..i] + [c[j]]
            && d[i + 1..j + 1] == c[i..j] && d[j + 1..r] == c[j + 1..r]
  {
    MovedAt(c, i, j);
    hide Moved;
  }

  lemma MovedAt(c: seq<ListElem>, i: nat, j: nat)
    requires i < j < |c|
    ensures var d := Moved(c, i, j, j + 1);
            && |d| == |c|
            && forall n {:trigger d[n]} :: 0 <= n < |d| ==>
                 d[n] == c[if n < i || j < n then n else if n == i then j else n - 1]
  {
  }

  /** One step of Merge on the two unmerged parts c[i..j] and c[j..r]. */
  lemma MergeRound(less: Less<ListElem>, c: seq<ListElem>, p: nat, i: nat, j: nat, r: nat)
    requires p <= i < j < r <= |c|
    ensures c[p..i] + Merge(less, c[i..j], c[j..r]) ==
            if !less(c[j], c[i]) then c[p..i + 1] + Merge(less, c[i + 1..j], c[j..r])
            else c[p..i] + [c[j]] + Merge(less, c[i..j], c[j + 1..r])
  {
    assert c[i..j][1..] == c[i + 1..j] && c[j..r][1..] == c[j + 1..r];
  }

  lemma MergeDone(less: Less<ListElem>, c: seq<ListElem>, p: nat, i: nat, j: nat, r: nat)
    requires p <= i <= j <= r <= |c| && (i == j || j == r)
    ensures c[p..i] + Merge(less, c[i..j], c[j..r]) == c[p..r]
  {
  }

  /** The nodes of a chain are among those a method may change. */
  ghost predicate Inside(c: seq<ListElem>, nodes: set<ListElem>) {
    forall i :: 0 <= i < |c| ==> c[i] in nodes
  }

  lemma Neighbours(c: seq<ListElem>, i: nat)
    requires Chain(c) && i < |c|
    ensures i + 1 < |c| ==> c[i].next == c[i + 1]
    ensures i > 0 ==> c[i].prev == c[i - 1]
    ensures forall j :: 0 <= j < |c| ==> (c[j] == c[i] <==> i == j)
  {
  }

  /**
   * inplace_merge (list.c:313-334): merges c[p..q] with c[q..r] by moving nodes.
   * Each round takes one step of Merge.
   */
  method InplaceMerge(a0: ListElem, a1b0: ListElem, b1: ListElem, less: Less<ListElem>,
                      ghost c: seq<ListElem>, ghost p: nat, ghost q: nat, ghost r: nat, ghost nodes: set<ListElem>)
    returns (ghost d: seq<ListElem>, ghost cmps: nat)
    requires Chain(c) && Inside(c, nodes) && 1 <= p < q < r < |c| && a0 == c[p] && a1b0 == c[q] && b1 == c[r]
    modifies nodes
    ensures Chain(d) && Inside(d, nodes) && |d| == |c| && d[..p] == c[..p] && d[r..] == c[r..]
    ensures d[p..r] == Merge(less, c[p..q], c[q..r])
    ensures cmps <= r - p
  {
    hide Chain, Merge, Moved, Inside;
    var x, y := a0, a1b0;
    ghost var i, j := p, q;
    d, cmps := c, 0;
    while x != y && y != b1
      invariant Chain(d) && |d| == |c| && d[..p] == c[..p] && d[r..] == c[r..]
      invariant p <= i <= j <= r && x == d[i] && y == d[j] && b1 == d[r]
      invariant d[p..i] + Merge(less, d[i..j], d[j..r]) == Merge(less, c[p..q], c[q..r])
      invariant Inside(d, nodes)
      invariant cmps == i - p
      decreases r - i
    {
      cmps := cmps + 1;
      MergeRound(less, d, p, i, j, r);
      Neighbours(d, i);
      Neighbours(d, j);
      if !less(y, x) {
        x := x.next;
        i := i + 1;
      } else {
        MoveOne(d, p, i, j, r);
        y := MoveBefore(x, y, d, i, j, nodes);
        d := Moved(d, i, j, j + 1);
        i, j := i + 1, j + 1;
      }
    }
    Neighbours(d, i);
    Neighbours(d, j);
    MergeDone(less, d, p, i, j, r);
  }

  lemma SliceOfSlice<T>(c: seq<T>, k: nat, x: nat, y: nat, n: nat)
    requires k <= x <= y <= n <= |c|
    ensures c[k..n][x - k..y - k] == c[x..y]
    ensures c[k..n][x - k..] == c[x..n]
    ensures c[k..n][..x - k] == c[k..x]
  {
    var t := c[k..n];
    assert forall i {:trigger t[i]} :: 0 <= i < n - k ==> t[i] == c[k + i];
    assert forall i :: 0 <= i < y - x ==> t[x - k..y - k][i] == c[x..y][i];
    assert t[x - k..] == c[x..n];
    assert t[..x - k] == c[k..x];
  }

  lemma JoinSlices<T>(c: seq<T>, i: nat, k: nat, n: nat)
    requires i <= k <= n <= |c|
    ensures c[i..k] + c[k..n] == c[i..n]
  {
  }

  /** The rest of a pass from c[k..n] on, when a run ends at q. */
  lemma PassRound(less: Less<ListElem>, c: seq<ListElem>, k: nat, q: nat, n: nat)
    requires k < q <= n <= |c| && q - k == RunEnd(less, c[k..n])
    ensures q == n ==> Pass(less, c[k..n]) == (c[k..n], 1)
    ensures q < n ==>
              var r := q + RunEnd(less, c[q..n]);
              && Pass(less, c[k..n]).0 == Merge(less, c[k..q], c[q..r]) + Pass(less, c[r..n]).0
              && Pass(less, c[k..n]).1 == 1 + Pass(less, c[r..n]).1
  {
    hide Merge, RunEnd;
    if q < n {
      var r := q + RunEnd(less, c[q..n]);
      SliceOfSlice(c, k, q, r, n);
      SliceOfSlice(c, k, r, n, n);
    }
  }

  /** The chain after a pass has come to position k, and what is still to come. */
  ghost predicate PassState(less: Less<ListElem>, s: seq<ListElem>, c: seq<ListElem>, k: nat, outputRunCnt: nat) {
    && |c| == |s| + 2 && 1 <= k <= |s| + 1
    && Pass(less, s).0 == c[1..k] + Pass(less, c[k..|s| + 1]).0
    && Pass(less, s).1 == outputRunCnt + Pass(less, c[k..|s| + 1]).1
  }

  lemma PassStarts(less: Less<ListElem>, s: seq<ListElem>, c: seq<ListElem>)
    requires |c| == |s| + 2 && c[1..|s| + 1] == s
    ensures PassState(less, s, c, 1, 0)
  {
  }

  lemma PassAdvances(less: Less<ListElem>, s: seq<ListElem>, c: seq<ListElem>, d: seq<ListElem>,
                     k: nat, q: nat, r: nat, outputRunCnt: nat)
    requires PassState(less, s, c, k, outputRunCnt)
    requires k < q < r <= |s| + 1 && q - k == RunEnd(less, c[k..|s| + 1]) && r - q == RunEnd(less, c[q..|s| + 1])
    requires |d| == |c| && d[..k] == c[..k] && d[k..r] == Merge(less, c[k..q], c[q..r]) && d[r..] == c[r..]
    ensures PassState(less, s, d, r, outputRunCnt + 1)
    ensures d[0] == c[0] && d[r] == c[r] && d[|s| + 1] == c[|s| + 1]
  {
    hide Merge, RunEnd, Pass;
    var n := |s| + 1;
    PassRound(less, c, k, q, n);
    assert d[r..n] == c[r..n];
    assert d[1..k] == c[1..k];
    assert d[1..r] == c[1..k] + Merge(less, c[k..q], c[q..r]);
  }

  lemma PassEndsWithPair(less: Less<ListElem>, s: seq<ListElem>, c: seq<ListElem>, outputRunCnt: nat)
    requires PassState(less, s, c, |s| + 1, outputRunCnt)
    ensures Pass(less, s).0 == c[1..|s| + 1] && Pass(less, s).1 == outputRunCnt
  {
    assert c[|s| + 1..|s| + 1] == [];
    assert Pass<ListElem>(less, []) == ([], 0);
    hide Pass;
  }

  lemma PassEndsWithRun(less: Less<ListElem>, s: seq<ListElem>, c: seq<ListElem>, k: nat, outputRunCnt: nat)
    requires PassState(less, s, c, k, outputRunCnt)
    requires k <= |s| && RunEnd(less, c[k..|s| + 1]) == |s| + 1 - k
    ensures Pass(less, s).0 == c[1..|s| + 1] && Pass(less, s).1 == outputRunCnt + 1
  {
    hide Pass, RunEnd, Merge;
    var n := |s| + 1;
    var rest := c[k..n];
    assert Pass(less, rest) == (rest, 1) by {
      PassRound(less, c, k, n, n);
    }
    JoinSlices(c, 1, k, n);
  }

  /** Locates the second of two adjacent runs and merges them (list.c:362-365). */
  method MergeNextRun(a0: ListElem, a1b0: ListElem, end: ListElem, less: Less<ListElem>, ghost s: seq<ListElem>,
                      ghost c: seq<ListElem>, ghost k: nat, ghost q: nat, ghost outputRunCnt: nat,
                      ghost nodes: set<ListElem>)
    returns (b1: ListElem, ghost d: seq<ListElem>, ghost r: nat, ghost cmps: nat)
    requires Chain(c) && Inside(c, nodes) && PassState(less, s, c, k, outputRunCnt)
    requires k < q <= |s| && q - k == RunEnd(less, c[k..|s| + 1])
    requires a0 == c[k] && a1b0 == c[q] && end == c[|s| + 1]
    modifies nodes
    ensures Chain(d) && Inside(d, nodes) && PassState(less, s, d, r, outputRunCnt + 1)
    ensures q < r <= |s| + 1 && |d| == |c| && b1 == d[r] && d[0] == c[0] && d[|s| + 1] == end
    ensures cmps <= 2 * r - q - k
  {
    hide Chain, Merge, RunEnd, Pass, Inside;
    ghost var cmps2, cmps3;
    b1, r, cmps2 := FindEndOfRun(a1b0, end, less, c, q, |s| + 1);
    d, cmps3 := InplaceMerge(a0, a1b0, b1, less, c, k, q, r, nodes);
    PassAdvances(less, s, c, d, k, q, r, outputRunCnt);
    cmps := cmps2 + cmps3;
  }

  /** The loop of one pass of list_sort (list.c:352-366), from the first element to the tail. */
  method PassOverChain(begin: ListElem, end: ListElem, less: Less<ListElem>,
                       ghost s: seq<ListElem>, ghost c: seq<ListElem>, ghost nodes: set<ListElem>)
    returns (outputRunCnt: nat, ghost d: seq<ListElem>, ghost cmps: nat)
    requires Chain(c) && Inside(c, nodes) && |c| == |s| + 2 && c[1..|s| + 1] == s
    requires begin == c[1] && end == c[|s| + 1]
    modifies nodes
    ensures Chain(d) && Inside(d, nodes) && |d| == |c| && d[0] == c[0] && d[|s| + 1] == end
    ensures Pass(less, s).0 == d[1..|s| + 1] && Pass(less, s).1 == outputRunCnt
    ensures cmps <= 2 * |s|
  {
    hide Chain, Inside, Pass, RunEnd, PassState;
    PassStarts(less, s, c);
    var a0 := begin;
    ghost var k := 1;
    outputRunCnt, d, cmps := 0, c, 0;
    while a0 != end
      invariant Chain(d) && Inside(d, nodes) && |d| == |c| && d[0] == c[0] && d[|s| + 1] == end
      invariant 1 <= k <= |s| + 1 && a0 == d[k]
      invariant PassState(less, s, d, k, outputRunCnt)
      invariant cmps <= 2 * (k - 1)
      decreases |s| - k
    {
      Neighbours(d, k);
      outputRunCnt := outputRunCnt + 1;
      var a1b0, q, cmps1 := FindEndOfRun(a0, end, less, d, k, |s| + 1);
      cmps := cmps + cmps1;
      Neighbours(d, q);
      if a1b0 == end {
        PassEndsWithRun(less, s, d, k, outputRunCnt - 1);
        return;
      }
      var b1, e, r, cmps2 := MergeNextRun(a0, a1b0, end, less, s, d, k, q, outputRunCnt - 1, nodes);
      a0, d, k, cmps := b1, e, r, cmps + cmps2;
    }
    Neighbours(d, k);
    PassEndsWithPair(less, s, d, outputRunCnt);
  }

  /** One pass of list_sort, with at most two comparisons for each element. */
  method SortPass(list: List, less: Less<ListElem>, ghost nodes: set<ListElem>)
    returns (outputRunCnt: nat, ghost cmps: nat)
    requires list.Valid() && Inside(list.Nodes(), nodes)
    modifies list, nodes
    ensures list.Valid() && Inside(list.Nodes(), nodes)
    ensures list.elems == Pass(less, old(list.elems)).0 && outputRunCnt == Pass(less, old(list.elems)).1
    ensures cmps <= 2 * |old(list.elems)|
  {
    hide Chain, Pass, Inside;
    ghost var c, s := list.Nodes(), list.elems;
    assert c[1..|s| + 1] == s;
    Neighbours(c, 0);
    ghost var d;
    outputRunCnt, d, cmps := PassOverChain(list.head.next, list.tail, less, s, c, nodes);
    SameList(list, d);
    list.elems := d[1..|d| - 1];
  }

  lemma AllNodes(c: seq<ListElem>)
    ensures Inside(c, set x | x in c)
  {
  }

  lemma SameList(list: List, c: seq<ListElem>)
    requires |c| >= 2 && c[0] == list.head && c[|c| - 1] == list.tail
    ensures [list.head] + c[1..|c| - 1] + [list.tail] == c
  {
  }

  /** r halved and rounded up, so many times. */
  function Halved(r: nat, times: nat): (result: nat) {
    if times == 0 then r else Halved((r + 1) / 2, times - 1)
  }

  /** What the passes so far have kept: the same elements, in stable order, and the runs halved each time. */
  ghost predicate SortState(less: Less<ListElem>, dom: set<ListElem>, s: seq<ListElem>, t: seq<ListElem>,
                            outputRunCnt: nat, passes: nat)
  {
    && Among(t, dom) && multiset(t) == multiset(s)
    && (forall x :: x in dom ==> Class(less, x, t) == Class(less, x, s))
    && Runs(less, t) <= outputRunCnt
    && outputRunCnt <= Halved(Runs(less, s), passes)
  }

  lemma PassKeeps(less: Less<ListElem>, dom: set<ListElem>, s: seq<ListElem>)
    requires StrictWeakOrder(less, dom) && Among(s, dom)
    ensures var (t, n) := Pass(less, s);
            && Among(t, dom) && multiset(t) == multiset(s) && Runs(less, t) <= n
            && n == (Runs(less, s) + 1) / 2
            && (forall x :: x in dom ==> Class(less, x, t) == Class(less, x, s))
  {
    PassHalvesRuns(less, dom, s);
    PassPermutes(less, dom, s);
    forall x | x in dom
      ensures Class(less, x, Pass(less, s).0) == Class(less, x, s)
    {
      PassIsStable(less, dom, s, x);
    }
  }

  lemma FirstPass(less: Less<ListElem>, dom: set<ListElem>, s: seq<ListElem>)
    requires StrictWeakOrder(less, dom) && Among(s, dom)
    ensures SortState(less, dom, s, Pass(less, s).0, Pass(less, s).1, 1)
    ensures multiset(Pass(less, s).0) == multiset(s)
  {
    hide Pass, Class, Runs, StrictWeakOrder;
    PassKeeps(less, dom, s);
    HalvedOnceMore(Runs(less, s), 0);
  }

  /** While more than one run is put out, the next pass puts out fewer. */
  lemma NextPass(less: Less<ListElem>, dom: set<ListElem>, s: seq<ListElem>, t: seq<ListElem>, n: nat, passes: nat)
    requires StrictWeakOrder(less, dom) && SortState(less, dom, s, t, n, passes) && n > 1
    ensures SortState(less, dom, s, Pass(less, t).0, Pass(less, t).1, passes + 1)
    ensures multiset(Pass(less, t).0) == multiset(s) && Pass(less, t).1 < n
    ensures Pow2(passes) < Runs(less, s)
  {
    hide Pass, Class, Runs, StrictWeakOrder;
    PassKeeps(less, dom, t);
    HalvedOnceMore(Runs(less, s), passes);
    HalvingsAreLogarithmic(Runs(less, s), passes);
  }

  lemma {:induction false} HalvedOnceMore(r: nat, times: nat)
    ensures Halved(r, times + 1) == (Halved(r, times) + 1) / 2
  {
    if times > 0 {
      HalvedOnceMore((r + 1) / 2, times - 1);
    }
  }

  lemma {:induction false} HalvingsAreLogarithmic(r: nat, times: nat)
    ensures Halved(r, times) > 1 <==> r > Pow2(times)
  {
    if times > 0 {
      HalvingsAreLogarithmic((r + 1) / 2, times - 1);
    }
  }

  lemma SameLength(t: seq<ListElem>, s: seq<ListElem>)
    requires multiset(t) == multiset(s)
    ensures |t| == |s|
  {
    assert |multiset(t)| == |t| && |multiset(s)| == |s|;
  }

  lemma OneRunLeft(less: Less<ListElem>, dom: set<ListElem>, s: seq<ListElem>, t: seq<ListElem>, n: nat, passes: nat)
    requires StrictWeakOrder(less, dom) && Among(s, dom) && SortState(less, dom, s, t, n, passes) && n <= 1
    ensures Sorted(less, t) && t == InsertionSort(less, s)
  {
    SortedIsOneRun(less, dom, t);
    StableSortIsInsertionSort(less, dom, s, t);
  }

  /**
   * list_sort (list.c:336-370). The nodes end up sorted, the very elements of
   * before, in the one order that also keeps equivalent elements in order: as
   * if they had been inserted one by one. A list of r runs takes at most
   * max(1, ceil(log2 r)) passes of at most 2n comparisons.
   */
  method Sort(list: List, less: Less<ListElem>, ghost dom: set<ListElem>)
    returns (ghost passes: nat, ghost cmps: nat)
    requires list.Valid() && StrictWeakOrder(less, dom) && Among(list.elems, dom)
    modifies list, list.Nodes()
    ensures list.Valid() && multiset(list.elems) == multiset(old(list.elems))
    ensures Sorted(less, list.elems) && list.elems == InsertionSort(less, old(list.elems))
    ensures passes >= 1 && (passes > 1 ==> Pow2(passes - 1) < Runs(less, old(list.elems)))
    ensures cmps <= 2 * |old(list.elems)| * passes
  {
    hide Chain, Pass, Class, Runs, StrictWeakOrder, SortState, Among, Inside;
    ghost var s, nodes := list.elems, set x | x in list.Nodes();
    AllNodes(list.Nodes());
    var outputRunCnt;
    outputRunCnt, cmps := SortPass(list, less, nodes);
    passes := 1;
    FirstPass(less, dom, s);
    while outputRunCnt > 1
      invariant list.Valid() && Inside(list.Nodes(), nodes) && multiset(list.elems) == multiset(s)
      invariant SortState(less, dom, s, list.elems, outputRunCnt, passes)
      invariant passes >= 1 && (passes > 1 ==> Pow2(passes - 1) < Runs(less, s))
      invariant cmps <= 2 * |s| * passes
      decreases outputRunCnt
    {
      ghost var t, n := list.elems, outputRunCnt;
      SameLength(t, s);
      ghost var cmps1;
      outputRunCnt, cmps1 := SortPass(list, less, nodes);
      NextPass(less, dom, s, t, n, passes);
      passes, cmps := passes + 1, cmps + cmps1;
    }
    OneRunLeft(less, dom, s, list.elems, outputRunCnt, passes);
  }
}
