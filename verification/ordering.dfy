/**
 Comparison functions in the style of C (negative, zero, positive), the stable merge and merge
 sort they drive, and what it means for one sequence to be the stable sort of another.
 */
module Ordering {

  type Comparator<!X> = (X, X) -> int

  /** The comparison is a total preorder on `all`. */
  ghost predicate TotalOn<X>(all: set<X>, cmp: Comparator<X>) {
    && (forall x, y {:trigger cmp(x, y)} :: x in all && y in all ==> (cmp(x, y) < 0 <==> cmp(y, x) > 0))
    && (forall x, y, z {:trigger cmp(x, y), cmp(y, z)} ::
          x in all && y in all && z in all && cmp(x, y) <= 0 && cmp(y, z) <= 0 ==> cmp(x, z) <= 0)
  }

  ghost predicate Within<X>(s: seq<X>, all: set<X>) {
    forall i :: 0 <= i < |s| ==> s[i] in all
  }

  ghost function Members<X>(s: seq<X>): set<X> {
    set x | x in s
  }

  ghost predicate Distinct<X>(s: seq<X>) {
    forall i, j :: 0 <= i < j < |s| ==> s[i] != s[j]
  }

  ghost predicate Sorted<X>(s: seq<X>, cmp: Comparator<X>) {
    forall i, j :: 0 <= i < j < |s| ==> cmp(s[i], s[j]) <= 0
  }

  /** The elements of `s` that compare equal to `x`, in their order in `s`. */
  ghost function Ties<X>(s: seq<X>, x: X, cmp: Comparator<X>): seq<X> {
    if s == [] then []
    else if cmp(x, s[0]) == 0 then [s[0]] + Ties(s[1..], x, cmp)
    else Ties(s[1..], x, cmp)
  }

  /** `r` holds the elements of `s`, in order, with ties left in the order they had in `s`. */
  ghost predicate StableSortOf<X>(r: seq<X>, s: seq<X>, cmp: Comparator<X>) {
    && multiset(r) == multiset(s)
    && Sorted(r, cmp)
    && (forall x :: x in s ==> Ties(r, x, cmp) == Ties(s, x, cmp))
  }

  ghost function Merge<X>(a: seq<X>, b: seq<X>, cmp: Comparator<X>): (m: seq<X>)
    ensures |m| == |a| + |b|
  {
    if a == [] then b
    else if b == [] then a
    else if cmp(a[0], b[0]) <= 0 then [a[0]] + Merge(a[1..], b, cmp)
    else [b[0]] + Merge(a, b[1..], cmp)
  }

  ghost function MergeSort<X>(s: seq<X>, cmp: Comparator<X>): (r: seq<X>)
    ensures |r| == |s|
  {
    if |s| <= 1 then s
    else Merge(MergeSort(s[..|s| / 2], cmp), MergeSort(s[|s| / 2..], cmp), cmp)
  }

  lemma {:induction false} MergePermutes<X>(a: seq<X>, b: seq<X>, cmp: Comparator<X>)
    ensures multiset(Merge(a, b, cmp)) == multiset(a) + multiset(b)
  {
    if a == [] || b == [] {
    } else if cmp(a[0], b[0]) <= 0 {
      MergePermutes(a[1..], b, cmp);
      MultisetCons(a[0], Merge(a[1..], b, cmp));
      MultisetHead(a);
    } else {
      MergePermutes(a, b[1..], cmp);
      MultisetCons(b[0], Merge(a, b[1..], cmp));
      MultisetHead(b);
    }
  }

  lemma MultisetCons<X>(x: X, s: seq<X>)
    ensures multiset([x] + s) == multiset{x} + multiset(s)
  {
  }

  lemma MultisetHead<X>(s: seq<X>)
    requires s != []
    ensures multiset(s) == multiset{s[0]} + multiset(s[1..])
  {
    assert s == [s[0]] + s[1..];
  }

  lemma MultisetSplit<X>(s: seq<X>, k: nat)
    requires k <= |s|
    ensures multiset(s) == multiset(s[..k]) + multiset(s[k..])
  {
    assert s == s[..k] + s[k..];
  }

  lemma {:induction false} MergeWithin<X>(a: seq<X>, b: seq<X>, all: set<X>, cmp: Comparator<X>)
    requires Within(a, all) && Within(b, all)
    ensures Within(Merge(a, b, cmp), all)
  {
    if a == [] || b == [] {
    } else if cmp(a[0], b[0]) <= 0 {
      MergeWithin(a[1..], b, all, cmp);
    } else {
      MergeWithin(a, b[1..], all, cmp);
    }
  }

  ghost predicate AtMost<X>(x: X, s: seq<X>, cmp: Comparator<X>) {
    forall i :: 0 <= i < |s| ==> cmp(x, s[i]) <= 0
  }

  lemma {:induction false} MergeAtMost<X>(x: X, a: seq<X>, b: seq<X>, cmp: Comparator<X>)
    requires AtMost(x, a, cmp) && AtMost(x, b, cmp)
    ensures AtMost(x, Merge(a, b, cmp), cmp)
  {
    if a == [] || b == [] {
    } else if cmp(a[0], b[0]) <= 0 {
      MergeAtMost(x, a[1..], b, cmp);
    } else {
      MergeAtMost(x, a, b[1..], cmp);
    }
  }

  /** What lies at or below the head of a sorted sequence lies at or below all of it. */
  lemma AtMostHead<X>(x: X, s: seq<X>, all: set<X>, cmp: Comparator<X>)
    requires TotalOn(all, cmp) && x in all && Within(s, all) && Sorted(s, cmp)
    requires s != [] && cmp(x, s[0]) <= 0
    ensures AtMost(x, s, cmp)
  {
    forall i | 0 <= i < |s| ensures cmp(x, s[i]) <= 0 {
      if i > 0 { assert cmp(s[0], s[i]) <= 0; }
    }
  }

  lemma SortedCons<X>(x: X, s: seq<X>, cmp: Comparator<X>)
    requires Sorted(s, cmp) && AtMost(x, s, cmp)
    ensures Sorted([x] + s, cmp)
  {
  }

  lemma {:induction false} MergeSorted<X>(a: seq<X>, b: seq<X>, all: set<X>, cmp: Comparator<X>)
    requires TotalOn(all, cmp) && Within(a, all) && Within(b, all)
    requires Sorted(a, cmp) && Sorted(b, cmp)
    ensures Sorted(Merge(a, b, cmp), cmp)
  {
    if a == [] || b == [] {
    } else if cmp(a[0], b[0]) <= 0 {
      MergeSorted(a[1..], b, all, cmp);
      AtMostHead(a[0], b, all, cmp);
      MergeAtMost(a[0], a[1..], b, cmp);
      SortedCons(a[0], Merge(a[1..], b, cmp), cmp);
    } else {
      MergeSorted(a, b[1..], all, cmp);
      AtMostHead(b[0], a, all, cmp);
      MergeAtMost(b[0], a, b[1..], cmp);
      SortedCons(b[0], Merge(a, b[1..], cmp), cmp);
    }
  }

  lemma {:induction false} TiesConcat<X>(a: seq<X>, b: seq<X>, x: X, cmp: Comparator<X>)
    ensures Ties(a + b, x, cmp) == Ties(a, x, cmp) + Ties(b, x, cmp)
  {
    if a == [] {
      assert a + b == b;
    } else {
      TiesConcat(a[1..], b, x, cmp);
      assert (a + b)[1..] == a[1..] + b;
    }
  }

  lemma {:induction false} TiesEmpty<X>(s: seq<X>, x: X, cmp: Comparator<X>)
    requires forall i :: 0 <= i < |s| ==> cmp(x, s[i]) != 0
    ensures Ties(s, x, cmp) == []
  {
    if s != [] { TiesEmpty(s[1..], x, cmp); }
  }

  /** Merging keeps the ties of `a` before the ties of `b`. */
  lemma {:induction false} MergeTies<X>(a: seq<X>, b: seq<X>, x: X, all: set<X>, cmp: Comparator<X>)
    requires TotalOn(all, cmp) && x in all && Within(a, all) && Within(b, all)
    requires Sorted(a, cmp)
    ensures Ties(Merge(a, b, cmp), x, cmp) == Ties(a, x, cmp) + Ties(b, x, cmp)
  {
    if a == [] || b == [] {
    } else if cmp(a[0], b[0]) <= 0 {
      MergeTies(a[1..], b, x, all, cmp);
      assert Merge(a, b, cmp)[1..] == Merge(a[1..], b, cmp);
    } else {
      MergeTies(a, b[1..], x, all, cmp);
      assert Merge(a, b, cmp)[1..] == Merge(a, b[1..], cmp);
      if cmp(x, b[0]) == 0 {
        TiedAbove(x, b[0], a, all, cmp);
        TiesEmpty(a, x, cmp);
      }
    }
  }

  lemma TiedAbove<X>(x: X, low: X, a: seq<X>, all: set<X>, cmp: Comparator<X>)
    requires TotalOn(all, cmp) && x in all && low in all && Within(a, all)
    requires a != [] && Sorted(a, cmp)
    requires cmp(x, low) == 0 && cmp(a[0], low) > 0
    ensures forall i :: 0 <= i < |a| ==> cmp(x, a[i]) != 0
  {
    var h := a[0];
    assert cmp(h, x) <= 0 ==> cmp(h, low) <= 0;
    forall i | 0 <= i < |a| ensures cmp(x, a[i]) != 0 {
      var y := a[i];
      assert i > 0 ==> cmp(h, y) <= 0;
      assert cmp(y, x) <= 0 ==> cmp(h, x) <= 0;
    }
  }

  ghost function Last<X>(s: seq<X>): X
    requires s != []
  {
    s[|s| - 1]
  }

  ghost function LargerLast<X>(a: seq<X>, b: seq<X>, cmp: Comparator<X>): X
    requires a != [] && b != []
  {
    if cmp(Last(a), Last(b)) > 0 then Last(a) else Last(b)
  }

  /** The last element of a merge is the larger of the two last elements, the second one on ties. */
  lemma {:induction false} MergeLast<X>(a: seq<X>, b: seq<X>, all: set<X>, cmp: Comparator<X>)
    requires a != [] && b != []
    requires TotalOn(all, cmp) && Within(a, all) && Within(b, all)
    requires Sorted(a, cmp) && Sorted(b, cmp)
    ensures Last(Merge(a, b, cmp)) == LargerLast(a, b, cmp)
    decreases |a| + |b|, 1
  {
    if cmp(a[0], b[0]) <= 0 {
      MergeLastFirst(a, b, all, cmp);
    } else {
      MergeLastSecond(a, b, all, cmp);
    }
  }

  lemma {:induction false} MergeLastFirst<X>(a: seq<X>, b: seq<X>, all: set<X>, cmp: Comparator<X>)
    requires a != [] && b != [] && cmp(a[0], b[0]) <= 0
    requires TotalOn(all, cmp) && Within(a, all) && Within(b, all)
    requires Sorted(a, cmp) && Sorted(b, cmp)
    ensures Last(Merge(a, b, cmp)) == LargerLast(a, b, cmp)
    decreases |a| + |b|, 0
  {
    assert Merge(a, b, cmp) == [a[0]] + Merge(a[1..], b, cmp);
    if |a| == 1 {
      LastAtLeast(a[0], b, all, cmp);
    } else {
      TailSorted(a, all, cmp);
      MergeLast(a[1..], b, all, cmp);
      assert Last(a[1..]) == Last(a);
    }
  }

  lemma {:induction false} MergeLastSecond<X>(a: seq<X>, b: seq<X>, all: set<X>, cmp: Comparator<X>)
    requires a != [] && b != [] && cmp(a[0], b[0]) > 0
    requires TotalOn(all, cmp) && Within(a, all) && Within(b, all)
    requires Sorted(a, cmp) && Sorted(b, cmp)
    ensures Last(Merge(a, b, cmp)) == LargerLast(a, b, cmp)
    decreases |a| + |b|, 0
  {
    assert Merge(a, b, cmp) == [b[0]] + Merge(a, b[1..], cmp);
    if |b| == 1 {
      LastAbove(a, b[0], all, cmp);
    } else {
      TailSorted(b, all, cmp);
      MergeLast(a, b[1..], all, cmp);
      assert Last(b[1..]) == Last(b);
    }
  }

  lemma TailSorted<X>(s: seq<X>, all: set<X>, cmp: Comparator<X>)
    requires s != [] && Within(s, all) && Sorted(s, cmp)
    ensures Within(s[1..], all) && Sorted(s[1..], cmp)
  {
  }

  lemma LastAtLeast<X>(x: X, s: seq<X>, all: set<X>, cmp: Comparator<X>)
    requires s != [] && TotalOn(all, cmp) && Within(s, all) && x in all && Sorted(s, cmp)
    requires cmp(x, s[0]) <= 0
    ensures cmp(x, Last(s)) <= 0
  {
    var h, l := s[0], Last(s);
    assert |s| > 1 ==> cmp(h, l) <= 0;
  }

  lemma LastAbove<X>(a: seq<X>, low: X, all: set<X>, cmp: Comparator<X>)
    requires a != [] && TotalOn(all, cmp) && Within(a, all) && low in all && Sorted(a, cmp)
    requires cmp(a[0], low) > 0
    ensures cmp(Last(a), low) > 0
  {
    var h, l := a[0], Last(a);
    assert |a| > 1 ==> cmp(h, l) <= 0;
    assert cmp(l, low) <= 0 ==> cmp(h, low) <= 0;
  }

  lemma {:induction false} MergeSortPermutes<X>(s: seq<X>, cmp: Comparator<X>)
    ensures multiset(MergeSort(s, cmp)) == multiset(s)
  {
    if |s| > 1 {
      var a, b := s[..|s| / 2], s[|s| / 2..];
      MergeSortPermutes(a, cmp);
      MergeSortPermutes(b, cmp);
      MergePermutes(MergeSort(a, cmp), MergeSort(b, cmp), cmp);
      MultisetSplit(s, |s| / 2);
    }
  }

  lemma {:induction false} MergeSortSorted<X>(s: seq<X>, all: set<X>, cmp: Comparator<X>)
    requires TotalOn(all, cmp) && Within(s, all)
    ensures Sorted(MergeSort(s, cmp), cmp) && Within(MergeSort(s, cmp), all)
  {
    if |s| > 1 {
      var a, b := s[..|s| / 2], s[|s| / 2..];
      MergeSortSorted(a, all, cmp);
      MergeSortSorted(b, all, cmp);
      MergeSorted(MergeSort(a, cmp), MergeSort(b, cmp), all, cmp);
      MergeWithin(MergeSort(a, cmp), MergeSort(b, cmp), all, cmp);
    }
  }

  lemma {:induction false} MergeSortTies<X>(s: seq<X>, x: X, all: set<X>, cmp: Comparator<X>)
    requires TotalOn(all, cmp) && x in all && Within(s, all)
    ensures Ties(MergeSort(s, cmp), x, cmp) == Ties(s, x, cmp)
  {
    if |s| > 1 {
      var a, b := s[..|s| / 2], s[|s| / 2..];
      assert Ties(s, x, cmp) == Ties(a, x, cmp) + Ties(b, x, cmp) by {
        assert s == a + b;
        TiesConcat(a, b, x, cmp);
      }
      MergeSortTies(a, x, all, cmp);
      MergeSortTies(b, x, all, cmp);
      MergeSortTiesStep(a, b, x, all, cmp);
    }
  }

  lemma MergeSortTiesStep<X>(a: seq<X>, b: seq<X>, x: X, all: set<X>, cmp: Comparator<X>)
    requires TotalOn(all, cmp) && x in all && Within(a, all) && Within(b, all)
    ensures Ties(Merge(MergeSort(a, cmp), MergeSort(b, cmp), cmp), x, cmp)
         == Ties(MergeSort(a, cmp), x, cmp) + Ties(MergeSort(b, cmp), x, cmp)
  {
    MergeSortSorted(a, all, cmp);
    MergeSortSorted(b, all, cmp);
    MergeTies(MergeSort(a, cmp), MergeSort(b, cmp), x, all, cmp);
  }

  /** Merge sort with a total preorder is a stable sort. */
  lemma MergeSortIsStableSort<X>(s: seq<X>, all: set<X>, cmp: Comparator<X>)
    requires TotalOn(all, cmp) && Within(s, all)
    ensures StableSortOf(MergeSort(s, cmp), s, cmp)
  {
    MergeSortPermutes(s, cmp);
    MergeSortSorted(s, all, cmp);
    forall x | x in s ensures Ties(MergeSort(s, cmp), x, cmp) == Ties(s, x, cmp) {
      MergeSortTies(s, x, all, cmp);
    }
  }

  /** A sequence has only one stable sort, so `StableSortOf` pins the result down. */
  lemma StableSortUnique<X>(r: seq<X>, q: seq<X>, s: seq<X>, all: set<X>, cmp: Comparator<X>)
    requires TotalOn(all, cmp) && Within(s, all)
    requires StableSortOf(r, s, cmp) && StableSortOf(q, s, cmp)
    ensures r == q
  {
    var members := Members(s);
    SameMembers(r, s);
    SameMembers(q, s);
    assert members <= all;
    SortedTiesDetermine(r, q, members, cmp);
  }

  lemma SameMembers<X>(r: seq<X>, s: seq<X>)
    requires multiset(r) == multiset(s)
    ensures Within(r, Members(s))
  {
    forall i | 0 <= i < |r| ensures r[i] in s {
      assert r[i] in multiset(r);
      assert r[i] in multiset(s);
    }
  }

  ghost predicate SameTies<X>(r: seq<X>, q: seq<X>, all: set<X>, cmp: Comparator<X>) {
    forall x {:trigger x in all} :: x in all ==> Ties(r, x, cmp) == Ties(q, x, cmp)
  }

  lemma {:induction false} SortedTiesDetermine<X>(r: seq<X>, q: seq<X>, all: set<X>, cmp: Comparator<X>)
    requires TotalOn(all, cmp) && Sorted(r, cmp) && Sorted(q, cmp)
    requires Within(r, all) && Within(q, all)
    requires SameTies(r, q, all, cmp)
    ensures r == q
  {
    if r != [] { HeadTies(r, q, all, cmp); }
    if q != [] { HeadTies(q, r, all, cmp); }
    if r != [] && q != [] {
      SameTiesTail(r, q, all, cmp);
      TailSorted(r, all, cmp);
      TailSorted(q, all, cmp);
      SortedTiesDetermine(r[1..], q[1..], all, cmp);
      assert r == [r[0]] + r[1..] && q == [q[0]] + q[1..];
    }
  }

  lemma SameTiesTail<X>(r: seq<X>, q: seq<X>, all: set<X>, cmp: Comparator<X>)
    requires TotalOn(all, cmp) && r != [] && q != [] && r[0] in all && q[0] in all
    requires cmp(r[0], q[0]) <= 0 && cmp(q[0], r[0]) <= 0
    requires SameTies(r, q, all, cmp)
    ensures r[0] == q[0] && SameTies(r[1..], q[1..], all, cmp)
  {
    var u := r[0];
    assert cmp(u, u) == 0 && cmp(u, q[0]) == 0;
    assert Ties(r, u, cmp)[0] == u && Ties(q, u, cmp)[0] == q[0];
    forall x | x in all ensures Ties(r[1..], x, cmp) == Ties(q[1..], x, cmp) {
      if cmp(x, u) == 0 {
        assert Ties(r[1..], x, cmp) == Ties(r, x, cmp)[1..];
        assert Ties(q[1..], x, cmp) == Ties(q, x, cmp)[1..];
      }
    }
  }

  /** The head of `r` also occurs in `q`, so the head of `q` lies at or below it. */
  lemma HeadTies<X>(r: seq<X>, q: seq<X>, all: set<X>, cmp: Comparator<X>)
    requires TotalOn(all, cmp) && r != [] && r[0] in all && Sorted(q, cmp)
    requires Ties(r, r[0], cmp) == Ties(q, r[0], cmp)
    ensures q != [] && cmp(q[0], r[0]) <= 0
  {
    var u := r[0];
    assert cmp(u, u) == 0;
    assert Ties(r, u, cmp)[0] == u;
    TiesSubset(q, u, cmp);
    assert u in q;
    var k :| 0 <= k < |q| && q[k] == u;
    assert k > 0 ==> cmp(q[0], q[k]) <= 0;
  }

  lemma {:induction false} TiesSubset<X>(s: seq<X>, x: X, cmp: Comparator<X>)
    ensures forall y :: y in Ties(s, x, cmp) ==> y in s
  {
    if s != [] { TiesSubset(s[1..], x, cmp); }
  }

  lemma {:induction false} DistinctCounts<X>(s: seq<X>)
    requires Distinct(s)
    ensures forall x :: multiset(s)[x] <= 1
  {
    if s != [] {
      MultisetHead(s);
      DistinctCounts(s[1..]);
      assert s[0] !in s[1..];
      assert multiset(s[1..])[s[0]] == 0;
    }
  }

  lemma CountsDistinct<X>(s: seq<X>)
    requires forall x :: multiset(s)[x] <= 1
    ensures Distinct(s)
  {
    forall i, j | 0 <= i < j < |s| ensures s[i] != s[j] {
      MultisetSplit(s, j);
      assert s[j..][0] == s[j];
      assert s[j] in multiset(s[j..]);
      assert multiset(s)[s[j]] == multiset(s[..j])[s[j]] + multiset(s[j..])[s[j]];
      assert s[j] !in multiset(s[..j]);
      assert s[i] in s[..j];
    }
  }

  lemma PermutationDistinct<X>(r: seq<X>, s: seq<X>)
    requires multiset(r) == multiset(s) && Distinct(s)
    ensures Distinct(r)
  {
    DistinctCounts(s);
    CountsDistinct(r);
  }

  /** No two elements at different places compare equal. */
  ghost predicate NoTies<X>(s: seq<X>, cmp: Comparator<X>) {
    Distinct(s) && forall x, y :: x in s && y in s && cmp(x, y) == 0 ==> x == y
  }

  lemma {:induction false} TiesAlone<X>(s: seq<X>, x: X, cmp: Comparator<X>)
    requires x in s && cmp(x, x) == 0 && Distinct(s)
    requires forall y :: y in s && cmp(x, y) == 0 ==> x == y
    ensures Ties(s, x, cmp) == [x]
  {
    if s[0] == x {
      TiesEmpty(s[1..], x, cmp);
    } else {
      TiesAlone(s[1..], x, cmp);
    }
  }

  /** Without ties, sorting forgets the order it started from. */
  lemma SortForgetsOrder<X>(s: seq<X>, r: seq<X>, all: set<X>, cmp: Comparator<X>)
    requires TotalOn(all, cmp) && Within(s, all) && NoTies(s, cmp) && multiset(s) == multiset(r)
    ensures MergeSort(r, cmp) == MergeSort(s, cmp)
  {
    PermutationDistinct(r, s);
    SameMembers(r, s);
    SameMembers(s, r);
    assert Within(r, all);
    MergeSortIsStableSort(s, all, cmp);
    MergeSortIsStableSort(r, all, cmp);
    forall x | x in s ensures Ties(MergeSort(r, cmp), x, cmp) == Ties(s, x, cmp) {
      TiesSame(s, r, x, all, cmp);
    }
    StableSortUnique(MergeSort(r, cmp), MergeSort(s, cmp), s, all, cmp);
  }

  lemma TiesSame<X>(s: seq<X>, r: seq<X>, x: X, all: set<X>, cmp: Comparator<X>)
    requires TotalOn(all, cmp) && Within(s, all) && NoTies(s, cmp) && NoTies(r, cmp) && multiset(s) == multiset(r) && x in s
    requires Ties(MergeSort(r, cmp), x, cmp) == Ties(r, x, cmp)
    ensures Ties(MergeSort(r, cmp), x, cmp) == Ties(s, x, cmp)
  {
    SameMembers(s, r);
    assert x in r && x in all && cmp(x, x) == 0;
    TiesAlone(s, x, cmp);
    TiesAlone(r, x, cmp);
  }

  /** Sorting leaves a sorted sequence without ties as it is. */
  lemma SortedStays<X>(s: seq<X>, all: set<X>, cmp: Comparator<X>)
    requires TotalOn(all, cmp) && Within(s, all) && Sorted(s, cmp)
    ensures MergeSort(s, cmp) == s
  {
    MergeSortIsStableSort(s, all, cmp);
    StableSortUnique(MergeSort(s, cmp), s, s, all, cmp);
  }
}
