/**
 Stable sorting of sequences by a strict weak order: what kernel/lib/list.c
 promises of list_sort, and the sequence functions its passes compute.
 */
module SortSpec {

  type Less<!T> = (T, T) -> bool

  /** What list_less_func must be on the elements of a list. */
  ghost predicate StrictWeakOrder<T>(less: Less<T>, elems: set<T>) {
    && (forall a, b :: a in elems && b in elems && less(a, b) ==> !less(b, a))
    && (forall a, b, c :: a in elems && b in elems && c in elems && less(a, c) ==> less(a, b) || less(b, c))
  }

  ghost predicate Among<T>(s: seq<T>, elems: set<T>) {
    forall i :: 0 <= i < |s| ==> s[i] in elems
  }

  /** No later element is less than an earlier one. */
  ghost predicate Sorted<T>(less: Less<T>, s: seq<T>) {
    forall i, j :: 0 <= i < j < |s| ==> !less(s[j], s[i])
  }

  predicate Equivalent<T>(less: Less<T>, a: T, b: T) {
    !less(a, b) && !less(b, a)
  }

  /** The elements equivalent to x, in order. */
  function Class<T>(less: Less<T>, x: T, s: seq<T>): (r: seq<T>) {
    if s == [] then []
    else if Equivalent(less, x, s[0]) then [s[0]] + Class(less, x, s[1..])
    else Class(less, x, s[1..])
  }

  lemma {:induction false} ClassOfSum<T>(less: Less<T>, x: T, s: seq<T>, t: seq<T>)
    ensures Class(less, x, s + t) == Class(less, x, s) + Class(less, x, t)
  {
    if s == [] {
      assert s + t == t;
    } else {
      ClassOfSum(less, x, s[1..], t);
      assert (s + t)[1..] == s[1..] + t;
    }
  }

  /** Two runs become one; on a tie the first run goes first. */
  function Merge<T>(less: Less<T>, a: seq<T>, b: seq<T>): (r: seq<T>) {
    if a == [] then b
    else if b == [] then a
    else if !less(b[0], a[0]) then [a[0]] + Merge(less, a[1..], b)
    else [b[0]] + Merge(less, a, b[1..])
  }

  lemma OneMoreCounts<T>(x: T, s: seq<T>)
    ensures multiset([x] + s) == multiset{x} + multiset(s)
  {
  }

  lemma {:induction false} MergePermutes<T>(less: Less<T>, a: seq<T>, b: seq<T>)
    ensures multiset(Merge(less, a, b)) == multiset(a) + multiset(b)
    decreases |a| + |b|
  {
    if a != [] && b != [] {
      if !less(b[0], a[0]) {
        MergePermutes(less, a[1..], b);
        assert a == [a[0]] + a[1..];
        OneMoreCounts(a[0], a[1..]);
        OneMoreCounts(a[0], Merge(less, a[1..], b));
      } else {
        MergePermutes(less, a, b[1..]);
        assert b == [b[0]] + b[1..];
        OneMoreCounts(b[0], b[1..]);
        OneMoreCounts(b[0], Merge(less, a, b[1..]));
      }
    }
  }

  /** x is not above any element of s. */
  ghost predicate LowerBound<T>(less: Less<T>, x: T, s: seq<T>) {
    forall i :: 0 <= i < |s| ==> !less(s[i], x)
  }

  lemma BelowFirst<T>(less: Less<T>, elems: set<T>, x: T, s: seq<T>)
    requires StrictWeakOrder(less, elems) && x in elems && Among(s, elems) && Sorted(less, s)
    requires s != [] ==> !less(s[0], x)
    ensures LowerBound(less, x, s)
  {
  }

  lemma SortedCons<T>(less: Less<T>, x: T, s: seq<T>)
    requires Sorted(less, s) && LowerBound(less, x, s)
    ensures Sorted(less, [x] + s)
  {
  }

  lemma {:induction false} MergeSorts<T>(less: Less<T>, elems: set<T>, a: seq<T>, b: seq<T>)
    requires StrictWeakOrder(less, elems) && Among(a, elems) && Among(b, elems)
    requires Sorted(less, a) && Sorted(less, b)
    ensures Sorted(less, Merge(less, a, b)) && Among(Merge(less, a, b), elems)
    ensures forall x :: x in elems && LowerBound(less, x, a) && LowerBound(less, x, b)
                        ==> LowerBound(less, x, Merge(less, a, b))
    decreases |a| + |b|
  {
    if a != [] && b != [] {
      if !less(b[0], a[0]) {
        MergeSorts(less, elems, a[1..], b);
        BelowFirst(less, elems, a[0], b);
        assert LowerBound(less, a[0], a[1..]);
        SortedCons(less, a[0], Merge(less, a[1..], b));
      } else {
        MergeSorts(less, elems, a, b[1..]);
        BelowFirst(less, elems, b[0], a);
        assert LowerBound(less, b[0], b[1..]);
        SortedCons(less, b[0], Merge(less, a, b[1..]));
      }
    }
  }

  /** A sorted sequence that starts above y holds nothing equivalent to y. */
  lemma {:induction false} NoneAbove<T>(less: Less<T>, elems: set<T>, x: T, y: T, s: seq<T>)
    requires StrictWeakOrder(less, elems) && x in elems && y in elems && Among(s, elems) && Sorted(less, s)
    requires s != [] ==> less(y, s[0])
    requires Equivalent(less, x, y)
    ensures Class(less, x, s) == []
  {
    if s != [] {
      assert !less(s[0], x);
      NoneAbove(less, elems, x, y, s[1..]);
    }
  }

  lemma {:induction false} MergeIsStable<T>(less: Less<T>, elems: set<T>, a: seq<T>, b: seq<T>, x: T)
    requires StrictWeakOrder(less, elems) && Among(a, elems) && Among(b, elems) && x in elems
    requires Sorted(less, a)
    ensures Class(less, x, Merge(less, a, b)) == Class(less, x, a) + Class(less, x, b)
    decreases |a| + |b|
  {
    if a != [] && b != [] {
      if !less(b[0], a[0]) {
        MergeIsStable(less, elems, a[1..], b, x);
      } else {
        MergeIsStable(less, elems, a, b[1..], x);
        if Equivalent(less, x, b[0]) {
          NoneAbove(less, elems, x, b[0], a);
        }
      }
    }
  }

  /** The end of the run of nondecreasing elements that starts s (find_end_of_run, list.c:300-311). */
  function RunEnd<T>(less: Less<T>, s: seq<T>): (end: nat)
    requires s != []
    ensures 1 <= end <= |s|
  {
    if |s| == 1 || less(s[1], s[0]) then 1 else 1 + RunEnd(less, s[1..])
  }

  /** The maximal nondecreasing runs of s. */
  function Runs<T>(less: Less<T>, s: seq<T>): (r: nat) {
    if s == [] then 0
    else if |s| == 1 || less(s[1], s[0]) then 1 + Runs(less, s[1..])
    else Runs(less, s[1..])
  }

  /** A run ends at the first descent, or with the list. */
  lemma {:induction false} RunEndIsFirstDescent<T>(less: Less<T>, s: seq<T>)
    requires s != []
    ensures var end := RunEnd(less, s);
            && (forall i :: 0 <= i < end - 1 ==> !less(s[i + 1], s[i]))
            && (end < |s| ==> less(s[end], s[end - 1]))
  {
    if |s| > 1 && !less(s[1], s[0]) {
      RunEndIsFirstDescent(less, s[1..]);
      var end := RunEnd(less, s);
      forall i | 0 <= i < end - 1
        ensures !less(s[i + 1], s[i])
      {
        assert i > 0 ==> s[1..][i] == s[i + 1] && s[1..][i - 1] == s[i];
      }
      assert end < |s| ==> s[1..][end - 1] == s[end] && s[1..][end - 2] == s[end - 1];
    }
  }

  predicate IsDescent<T>(less: Less<T>, s: seq<T>, i: nat)
    requires 0 < i < |s|
  {
    less(s[i], s[i - 1])
  }

  /** Where an element is less than the one before it. */
  ghost function Descents<T>(less: Less<T>, s: seq<T>): (places: set<nat>) {
    set i: nat | 0 < i < |s| && IsDescent(less, s, i)
  }

  lemma DescentsOnTheRight<T>(less: Less<T>, s: seq<T>)
    requires |s| > 1
    ensures var n := |s| - 1;
            && n !in Descents(less, s[..n])
            && Descents(less, s) == Descents(less, s[..n]) + if less(s[n], s[n - 1]) then {n} else {}
  {
    var n := |s| - 1;
    forall i: nat | 0 < i < n
      ensures IsDescent(less, s[..n], i) <==> IsDescent(less, s, i)
    {
    }
  }

  lemma {:induction false} RunsOnTheRight<T>(less: Less<T>, s: seq<T>)
    requires |s| > 1
    ensures Runs(less, s) == Runs(less, s[..|s| - 1]) + if less(s[|s| - 1], s[|s| - 2]) then 1 else 0
  {
    var rest, n := s[1..], |s| - 1;
    assert s[..n][1..] == rest[..n - 1];
    if |s| > 2 {
      RunsOnTheRight(less, rest);
    } else {
      assert rest[1..] == [] && s[..n][1..] == [];
    }
  }

  /** A list has one run more than descents. */
  lemma {:induction false} RunsAreDescents<T>(less: Less<T>, s: seq<T>)
    requires s != []
    ensures Runs(less, s) == 1 + |Descents(less, s)|
  {
    hide IsDescent;
    if |s| == 1 {
      assert s[1..] == [];
      assert Descents(less, s) == {};
    } else {
      var n := |s| - 1;
      RunsAreDescents(less, s[..n]);
      RunsOnTheRight(less, s);
      DescentsOnTheRight(less, s);
    }
  }

  lemma {:induction false} RunIsSorted<T>(less: Less<T>, elems: set<T>, s: seq<T>)
    requires s != [] && StrictWeakOrder(less, elems) && Among(s, elems)
    ensures Sorted(less, s[..RunEnd(less, s)])
  {
    if |s| > 1 && !less(s[1], s[0]) {
      RunIsSorted(less, elems, s[1..]);
      var rest := s[1..][..RunEnd(less, s[1..])];
      BelowFirst(less, elems, s[0], rest);
      SortedCons(less, s[0], rest);
      assert s[..RunEnd(less, s)] == [s[0]] + rest;
    }
  }

  lemma {:induction false} RunsAfterFirst<T>(less: Less<T>, s: seq<T>)
    requires s != []
    ensures Runs(less, s) == 1 + Runs(less, s[RunEnd(less, s)..])
  {
    if |s| > 1 && !less(s[1], s[0]) {
      RunsAfterFirst(less, s[1..]);
      assert s[1..][RunEnd(less, s[1..])..] == s[RunEnd(less, s)..];
    }
  }

  lemma {:induction false} RunsOfSum<T>(less: Less<T>, s: seq<T>, t: seq<T>)
    ensures Runs(less, s + t) <= Runs(less, s) + Runs(less, t)
  {
    if s == [] {
      assert s + t == t;
    } else {
      RunsOfSum(less, s[1..], t);
      assert (s + t)[1..] == s[1..] + t;
      if |s| == 1 {
        assert s[1..] + t == t;
      }
    }
  }

  lemma {:induction false} SortedIsOneRun<T>(less: Less<T>, elems: set<T>, s: seq<T>)
    requires StrictWeakOrder(less, elems) && Among(s, elems)
    ensures Sorted(less, s) <==> Runs(less, s) <= 1
    ensures s != [] ==> Runs(less, s) >= 1
  {
    if |s| > 1 {
      SortedIsOneRun(less, elems, s[1..]);
      if Runs(less, s) <= 1 {
        BelowFirst(less, elems, s[0], s[1..]);
        SortedCons(less, s[0], s[1..]);
        assert s == [s[0]] + s[1..];
      }
    }
  }

  /** One pass of list_sort: neighbouring runs are merged two by two; also the runs put out. */
  function Pass<T>(less: Less<T>, s: seq<T>): (r: (seq<T>, nat)) {
    if s == [] then ([], 0)
    else
      var first := RunEnd(less, s);
      if first == |s| then (s, 1)
      else
        var second := first + RunEnd(less, s[first..]);
        var rest := Pass(less, s[second..]);
        (Merge(less, s[..first], s[first..second]) + rest.0, 1 + rest.1)
  }

  /** What a pass sees when there is more than one run left. */
  lemma TwoRunsOf<T>(less: Less<T>, elems: set<T>, s: seq<T>) returns (a: seq<T>, b: seq<T>, rest: seq<T>)
    requires StrictWeakOrder(less, elems) && Among(s, elems)
    requires s != [] && RunEnd(less, s) < |s|
    ensures s == a + b + rest && |rest| < |s|
    ensures Among(a, elems) && Among(b, elems) && Among(rest, elems)
    ensures Sorted(less, a) && Sorted(less, b)
    ensures Runs(less, s) == 2 + Runs(less, rest)
    ensures Pass(less, s) == (Merge(less, a, b) + Pass(less, rest).0, 1 + Pass(less, rest).1)
  {
    hide StrictWeakOrder, Sorted, Merge, RunEnd, Runs;
    var first := RunEnd(less, s);
    var tail := s[first..];
    var second := first + RunEnd(less, tail);
    RunsAfterFirst(less, s);
    RunIsSorted(less, elems, s);
    RunsAfterFirst(less, tail);
    RunIsSorted(less, elems, tail);
    a, b, rest := s[..first], s[first..second], s[second..];
    assert tail[..second - first] == b && tail[second - first..] == rest;
  }

  /** A pass puts out half the runs, rounded up, and these many runs at most are left. */
  lemma {:induction false} PassHalvesRuns<T>(less: Less<T>, elems: set<T>, s: seq<T>)
    requires StrictWeakOrder(less, elems) && Among(s, elems)
    ensures Pass(less, s).1 == (Runs(less, s) + 1) / 2
    ensures Runs(less, Pass(less, s).0) <= Pass(less, s).1
    decreases |s|
  {
    if s != [] {
      RunsAfterFirst(less, s);
      if RunEnd(less, s) < |s| {
        var a, b, rest := TwoRunsOf(less, elems, s);
        PassHalvesRuns(less, elems, rest);
        MergeSorts(less, elems, a, b);
        SortedIsOneRun(less, elems, Merge(less, a, b));
        RunsOfSum(less, Merge(less, a, b), Pass(less, rest).0);
      }
    }
  }

  lemma {:induction false} PassPermutes<T>(less: Less<T>, elems: set<T>, s: seq<T>)
    requires StrictWeakOrder(less, elems) && Among(s, elems)
    ensures Among(Pass(less, s).0, elems) && multiset(Pass(less, s).0) == multiset(s)
    decreases |s|
  {
    if s != [] && RunEnd(less, s) < |s| {
      var a, b, rest := TwoRunsOf(less, elems, s);
      PassPermutes(less, elems, rest);
      MergeSorts(less, elems, a, b);
      MergePermutes(less, a, b);
    }
  }

  lemma {:induction false} PassIsStable<T>(less: Less<T>, elems: set<T>, s: seq<T>, x: T)
    requires StrictWeakOrder(less, elems) && Among(s, elems) && x in elems
    ensures Class(less, x, Pass(less, s).0) == Class(less, x, s)
    decreases |s|
  {
    if s != [] && RunEnd(less, s) < |s| {
      var a, b, rest := TwoRunsOf(less, elems, s);
      PassIsStable(less, elems, rest, x);
      MergeIsStable(less, elems, a, b, x);
      ClassOfSum(less, x, Merge(less, a, b), Pass(less, rest).0);
      ClassOfSum(less, x, a, b);
      ClassOfSum(less, x, a + b, rest);
    }
  }

  /** Sorting stably has one answer: sorted sequences with the same classes are equal. */
  lemma {:induction false} StableSortIsUnique<T>(less: Less<T>, elems: set<T>, s: seq<T>, t: seq<T>)
    requires StrictWeakOrder(less, elems) && Among(s, elems) && Among(t, elems)
    requires Sorted(less, s) && Sorted(less, t) && multiset(s) == multiset(t)
    requires forall x :: x in elems ==> Class(less, x, s) == Class(less, x, t)
    ensures s == t
    decreases |s|
  {
    if s == [] {
      assert |multiset(t)| == |t|;
    } else {
      assert |multiset(s)| == |s| && |multiset(t)| == |t|;
      SameHead(less, elems, s, t);
      TailOf(less, elems, s);
      TailOf(less, elems, t);
      hide StrictWeakOrder, Class, Sorted, Among;
      forall y | y in elems
        ensures Class(less, y, s[1..]) == Class(less, y, t[1..])
      {
        SameTail(less, y, s[0], s[1..], t[1..]);
      }
      StableSortIsUnique(less, elems, s[1..], t[1..]);
    }
  }

  lemma TailOf<T>(less: Less<T>, elems: set<T>, s: seq<T>)
    requires s != [] && Among(s, elems) && Sorted(less, s)
    ensures s == [s[0]] + s[1..] && multiset(s[1..]) == multiset(s) - multiset{s[0]}
    ensures Among(s[1..], elems) && Sorted(less, s[1..])
  {
  }

  lemma SameHead<T>(less: Less<T>, elems: set<T>, s: seq<T>, t: seq<T>)
    requires StrictWeakOrder(less, elems) && Among(s, elems) && Among(t, elems)
    requires Sorted(less, s) && Sorted(less, t) && s != [] && t != [] && multiset(s) == multiset(t)
    requires Class(less, s[0], s) == Class(less, s[0], t)
    ensures s[0] == t[0]
  {
    FirstIsLeast(less, s, t);
    FirstIsLeast(less, t, s);
    assert Equivalent(less, s[0], t[0]) && Equivalent(less, s[0], s[0]);
    assert Class(less, s[0], s)[0] == s[0] && Class(less, s[0], t)[0] == t[0];
  }

  lemma SameTail<T>(less: Less<T>, y: T, x: T, s: seq<T>, t: seq<T>)
    requires Class(less, y, [x] + s) == Class(less, y, [x] + t)
    ensures Class(less, y, s) == Class(less, y, t)
  {
    var p := Class(less, y, [x]);
    ClassOfSum(less, y, [x], s);
    ClassOfSum(less, y, [x], t);
    assert (p + Class(less, y, s))[|p|..] == Class(less, y, s);
    assert (p + Class(less, y, t))[|p|..] == Class(less, y, t);
  }

  lemma FirstIsLeast<T>(less: Less<T>, s: seq<T>, t: seq<T>)
    requires Sorted(less, s) && s != [] && t != [] && multiset(s) == multiset(t)
    ensures t[0] == s[0] || !less(t[0], s[0])
  {
    assert t[0] in multiset(t);
    assert t[0] in s;
  }

  /** Inserts x before the first element it is less than (list_insert_ordered, list.c:372-387). */
  function Insert<T>(less: Less<T>, x: T, s: seq<T>): (r: seq<T>) {
    if s == [] || less(x, s[0]) then [x] + s else [s[0]] + Insert(less, x, s[1..])
  }

  /** Inserting the elements one after the other. */
  function InsertionSort<T>(less: Less<T>, s: seq<T>): (r: seq<T>) {
    if s == [] then [] else Insert(less, s[|s| - 1], InsertionSort(less, s[..|s| - 1]))
  }

  lemma {:induction false} InsertPermutes<T>(less: Less<T>, x: T, s: seq<T>)
    ensures multiset(Insert(less, x, s)) == multiset(s) + multiset{x}
  {
    if s != [] && !less(x, s[0]) {
      InsertPermutes(less, x, s[1..]);
      assert s == [s[0]] + s[1..];
    }
  }

  lemma {:induction false} InsertSorts<T>(less: Less<T>, elems: set<T>, x: T, s: seq<T>)
    requires StrictWeakOrder(less, elems) && x in elems && Among(s, elems) && Sorted(less, s)
    ensures Sorted(less, Insert(less, x, s)) && Among(Insert(less, x, s), elems)
    ensures forall y :: y in elems && LowerBound(less, y, s) && !less(x, y) ==> LowerBound(less, y, Insert(less, x, s))
  {
    if s == [] || less(x, s[0]) {
      BelowFirst(less, elems, x, s);
      SortedCons(less, x, s);
    } else {
      TailOf(less, elems, s);
      InsertSorts(less, elems, x, s[1..]);
      SortedCons(less, s[0], Insert(less, x, s[1..]));
    }
  }

  lemma {:induction false} InsertIsStable<T>(less: Less<T>, elems: set<T>, x: T, s: seq<T>, y: T)
    requires StrictWeakOrder(less, elems) && x in elems && y in elems && Among(s, elems) && Sorted(less, s)
    ensures Class(less, y, Insert(less, x, s)) == Class(less, y, s) + Class(less, y, [x])
  {
    if s == [] {
      assert [x] + s == [x];
    } else if less(x, s[0]) {
      ClassOfSum(less, y, [x], s);
      if Equivalent(less, y, x) {
        NoneAbove(less, elems, y, x, s);
      }
    } else {
      TailOf(less, elems, s);
      InsertIsStable(less, elems, x, s[1..], y);
    }
  }

  lemma {:induction false} InsertionSortSorts<T>(less: Less<T>, elems: set<T>, s: seq<T>)
    requires StrictWeakOrder(less, elems) && Among(s, elems)
    ensures Sorted(less, InsertionSort(less, s)) && Among(InsertionSort(less, s), elems)
    ensures multiset(InsertionSort(less, s)) == multiset(s)
    ensures forall y :: y in elems ==> Class(less, y, InsertionSort(less, s)) == Class(less, y, s)
  {
    if s != [] {
      var x, rest := s[|s| - 1], s[..|s| - 1];
      assert s == rest + [x];
      InsertionSortSorts(less, elems, rest);
      InsertPermutes(less, x, InsertionSort(less, rest));
      InsertSorts(less, elems, x, InsertionSort(less, rest));
      forall y | y in elems
        ensures Class(less, y, InsertionSort(less, s)) == Class(less, y, s)
      {
        InsertIsStable(less, elems, x, InsertionSort(less, rest), y);
        ClassOfSum(less, y, rest, [x]);
      }
    }
  }

  /** Any way of sorting stably gives what inserting the elements one by one gives. */
  lemma StableSortIsInsertionSort<T>(less: Less<T>, elems: set<T>, s: seq<T>, t: seq<T>)
    requires StrictWeakOrder(less, elems) && Among(s, elems) && Among(t, elems)
    requires Sorted(less, t) && multiset(t) == multiset(s)
    requires forall x :: x in elems ==> Class(less, x, t) == Class(less, x, s)
    ensures t == InsertionSort(less, s)
  {
    InsertionSortSorts(less, elems, s);
    StableSortIsUnique(less, elems, t, InsertionSort(less, s));
  }
}
