/**
 The doubly linked list of the post-processor: `head` is the last node, `tail` the first one.
 The list is sorted in place by merging segments whose outer links are stale.
 */
module DList {
  import opened Ordering

  class Node<T> {
    var next: Node?<T>
    var prev: Node?<T>
    const item: T

    constructor (item: T)
      ensures this.item == item && next == null && prev == null
    {
      this.item := item;
      next := null;
      prev := null;
    }
  }

  /** Neighbours in `s` point at each other; the links leaving `s` at its ends may be anything. */
  ghost predicate Linked<T>(s: seq<Node<T>>)
    reads s
  {
    && (forall i {:trigger s[i].next} :: 0 <= i < |s| - 1 ==> s[i].next == s[i + 1])
    && (forall i {:trigger s[i].prev} :: 0 < i < |s| ==> s[i].prev == s[i - 1])
  }

  lemma MoveSecond<X>(m: seq<X>, a: seq<X>, b: seq<X>)
    requires b != [] && Distinct(m + a + b)
    ensures Distinct(m + [b[0]] + a + b[1..])
  {
    var s, r := m + a + b, m + [b[0]] + a + b[1..];
    forall i, j | 0 <= i < j < |r| ensures r[i] != r[j] {
      var p := if i < |m| then i else if i == |m| then |m| + |a| else if i <= |m| + |a| then i - 1 else i;
      var q := if j < |m| then j else if j == |m| then |m| + |a| else if j <= |m| + |a| then j - 1 else j;
      assert s[p] == r[i] && s[q] == r[j] && p != q;
    }
  }

  /** Makes `x` and `y` neighbours, which joins the chain that ends in `x` to the one that starts at `y`. */
  method Join<T>(x: Node<T>, y: Node<T>, ghost m: seq<Node<T>>, ghost r: seq<Node<T>>)
    requires m != [] && r != [] && x == Last(m) && y == r[0]
    requires Distinct(m + r) && Linked(m) && Linked(r)
    modifies x`next, y`prev
    ensures Linked(m + r)
  {
    EndsApart(m, r);
    x.next := y;
    y.prev := x;
    JoinedAreLinked(m, r);
  }

  lemma EndsApart<X>(m: seq<X>, r: seq<X>)
    requires m != [] && r != [] && Distinct(m + r)
    ensures forall i :: 0 <= i < |m| - 1 ==> m[i] != Last(m)
    ensures forall i :: 0 <= i < |m| ==> m[i] != r[0]
    ensures forall i :: 0 < i < |r| ==> r[i] != r[0]
    ensures forall i :: 0 <= i < |r| ==> r[i] != Last(m)
  {
    var s := m + r;
    assert s[|m| - 1] == Last(m) && s[|m|] == r[0];
    forall i | 0 <= i < |m| ensures m[i] == s[i] {}
    forall i | 0 <= i < |r| ensures r[i] == s[|m| + i] {}
  }

  lemma JoinedAreLinked<T>(m: seq<Node<T>>, r: seq<Node<T>>)
    requires m != [] && r != [] && Linked(m) && Linked(r)
    requires Last(m).next == r[0] && r[0].prev == Last(m)
    ensures Linked(m + r)
  {
  }

  lemma DistinctParts<X>(m: seq<X>, a: seq<X>, b: seq<X>)
    requires Distinct(m + a + b)
    ensures Distinct(m + a) && Distinct(m + b) && Distinct(a + b)
  {
    var s := m + a + b;
    forall i, j | 0 <= i < j < |m + b| ensures (m + b)[i] != (m + b)[j] {
      var p := if i < |m| then i else i + |a|;
      var q := if j < |m| then j else j + |a|;
      assert s[p] == (m + b)[i] && s[q] == (m + b)[j];
    }
    forall i, j | 0 <= i < j < |a + b| ensures (a + b)[i] != (a + b)[j] {
      assert s[i + |m|] == (a + b)[i] && s[j + |m|] == (a + b)[j];
    }
    forall i, j | 0 <= i < j < |m + a| ensures (m + a)[i] != (m + a)[j] {
      assert s[i] == (m + a)[i] && s[j] == (m + a)[j];
    }
  }

  lemma LinkedParts<T>(m: seq<Node<T>>, a: seq<Node<T>>)
    requires Linked(m + a)
    ensures Linked(m) && Linked(a)
    ensures m != [] && a != [] ==> a[0].prev == Last(m) && Last(m).next == a[0]
  {
    var s := m + a;
    forall i | 0 <= i < |a| - 1 ensures a[i].next == a[i + 1] && a[i + 1].prev == a[i] {
      assert s[|m| + i] == a[i] && s[|m| + i + 1] == a[i + 1];
    }
    forall i | 0 <= i < |m| - 1 ensures m[i].next == m[i + 1] && m[i + 1].prev == m[i] {
      assert s[i] == m[i] && s[i + 1] == m[i + 1];
    }
    if m != [] && a != [] {
      assert s[|m| - 1] == Last(m) && s[|m|] == a[0];
    }
  }

  /** The comparison of an element of `s1` with one of `s2` does not depend on the argument order. */
  ghost predicate Antisymmetric<X>(s1: seq<X>, s2: seq<X>, cmp: Comparator<X>) {
    forall x, y {:trigger cmp(x, y)} :: x in s1 && y in s2 ==> (cmp(x, y) > 0 <==> cmp(y, x) < 0)
  }

  /** What is left to merge: the merged part `m`, then `a` and `b`, the rests of the two segments. */
  ghost predicate Rests<T>(m: seq<Node<T>>, a: seq<Node<T>>, b: seq<Node<T>>,
                           s1: seq<Node<T>>, s2: seq<Node<T>>, nodes: set<Node<T>>, cmp: Comparator<Node<T>>)
  {
    && a != [] && b != []
    && |m| + |a| + |b| == |s1| + |s2|
    && |a| <= |s1| && a == s1[|s1| - |a|..]
    && |b| <= |s2| && b == s2[|s2| - |b|..]
    && Distinct(m + a + b)
    && Within(m, nodes) && Within(a, nodes) && Within(b, nodes)
    && m + Merge(a, b, cmp) == Merge(s1, s2, cmp)
  }

  lemma FrontsCompare<T>(m: seq<Node<T>>, a: seq<Node<T>>, b: seq<Node<T>>,
                         s1: seq<Node<T>>, s2: seq<Node<T>>, nodes: set<Node<T>>, cmp: Comparator<Node<T>>)
    requires Rests(m, a, b, s1, s2, nodes, cmp) && Antisymmetric(s1, s2, cmp)
    ensures cmp(b[0], a[0]) < 0 <==> cmp(a[0], b[0]) > 0
    ensures a[0] in nodes && b[0] in nodes
  {
    assert a[0] == s1[|s1| - |a|] && b[0] == s2[|s2| - |b|];
  }

  lemma TakeFirst<T>(m: seq<Node<T>>, a: seq<Node<T>>, b: seq<Node<T>>,
                     s1: seq<Node<T>>, s2: seq<Node<T>>, nodes: set<Node<T>>, cmp: Comparator<Node<T>>)
    requires Rests(m, a, b, s1, s2, nodes, cmp) && cmp(a[0], b[0]) <= 0
    ensures m + [a[0]] + a[1..] == m + a
    ensures |a| > 1 ==> Rests(m + [a[0]], a[1..], b, s1, s2, nodes, cmp)
    ensures |a| == 1 ==> m + [a[0]] + b == Merge(s1, s2, cmp) && Distinct(m + [a[0]] + b)
  {
    assert m + [a[0]] + a[1..] == m + a;
    assert m + [a[0]] + a[1..] + b == m + a + b;
    assert m + [a[0]] + Merge(a[1..], b, cmp) == m + Merge(a, b, cmp);
    assert |a| == 1 ==> m + [a[0]] + b == m + a + b;
  }

  lemma TakeSecond<T>(m: seq<Node<T>>, a: seq<Node<T>>, b: seq<Node<T>>,
                      s1: seq<Node<T>>, s2: seq<Node<T>>, nodes: set<Node<T>>, cmp: Comparator<Node<T>>)
    requires Rests(m, a, b, s1, s2, nodes, cmp) && cmp(a[0], b[0]) > 0
    ensures m + [b[0]] + b[1..] == m + b
    ensures |b| > 1 ==> Rests(m + [b[0]], a, b[1..], s1, s2, nodes, cmp)
    ensures |b| == 1 ==> m + [b[0]] + a == Merge(s1, s2, cmp) && Distinct(m + [b[0]] + a)
  {
    MoveSecond(m, a, b);
    assert m + [b[0]] + b[1..] == m + b;
    assert m + [b[0]] + Merge(a, b[1..], cmp) == m + Merge(a, b, cmp);
    assert |b| == 1 ==> m + [b[0]] + a + b[1..] == m + [b[0]] + a;
  }

  /**
   Passes the nodes of the first segment that do not exceed `node2`. When the segment runs out, the
   rest of the second one is appended and the merge is complete.
   */
  method PassFirst<T>(start: Node<T>, node2: Node<T>, head1: Node<T>,
                      ghost m0: seq<Node<T>>, ghost a0: seq<Node<T>>, ghost b: seq<Node<T>>,
                      ghost s1: seq<Node<T>>, ghost s2: seq<Node<T>>, ghost nodes: set<Node<T>>,
                      cmp: Comparator<Node<T>>)
    returns (node1: Node<T>, complete: bool, ghost m: seq<Node<T>>, ghost a: seq<Node<T>>)
    requires Rests(m0, a0, b, s1, s2, nodes, cmp) && start == a0[0] && node2 == b[0] && head1 == Last(s1)
    requires Distinct(s1) && Linked(m0 + a0) && Linked(b)
    modifies nodes
    ensures complete ==> Linked(Merge(s1, s2, cmp))
    ensures !complete ==>
              && Rests(m, a, b, s1, s2, nodes, cmp) && node1 == a[0] && cmp(node1, node2) > 0
              && Linked(m + a) && Linked(b)
              && |a| <= |a0| && (|a| == |a0| ==> m == m0 && node1 == start)
  {
    node1, complete, m, a := start, false, m0, a0;
    while cmp(node1, node2) <= 0
      invariant Rests(m, a, b, s1, s2, nodes, cmp) && node1 == a[0]
      invariant Linked(m + a) && Linked(b)
      invariant |a| <= |a0| && (|a| == |a0| ==> m == m0 && node1 == start)
      decreases |a|
    {
      TakeFirst(m, a, b, s1, s2, nodes, cmp);
      LinkedParts(m + [a[0]], a[1..]);
      if node1 == head1 {
        Join(node1, node2, m + [a[0]], b);
        return node1, true, m, a;
      }
      node1 := node1.next;
      m, a := m + [a[0]], a[1..];
    }
  }

  /**
   Passes the nodes of the second segment that lie below `node1`. When the segment runs out, the
   rest of the first one is appended and the merge is complete.
   */
  method PassSecond<T>(node1: Node<T>, start: Node<T>, head2: Node<T>,
                       ghost m0: seq<Node<T>>, ghost a: seq<Node<T>>, ghost b0: seq<Node<T>>,
                       ghost s1: seq<Node<T>>, ghost s2: seq<Node<T>>, ghost nodes: set<Node<T>>,
                      cmp: Comparator<Node<T>>)
    returns (node2: Node<T>, complete: bool, ghost m: seq<Node<T>>, ghost b: seq<Node<T>>)
    requires Rests(m0, a, b0, s1, s2, nodes, cmp) && node1 == a[0] && start == b0[0] && head2 == Last(s2)
    requires Distinct(s2) && Linked(m0 + b0) && Linked(a) && Antisymmetric(s1, s2, cmp)
    modifies nodes
    ensures complete ==> Linked(Merge(s1, s2, cmp))
    ensures !complete ==>
              && Rests(m, a, b, s1, s2, nodes, cmp) && node2 == b[0] && cmp(node2, node1) >= 0
              && Linked(m + b) && Linked(a)
              && |b| <= |b0| && (|b| == |b0| ==> m == m0 && node2 == start)
  {
    node2, complete, m, b := start, false, m0, b0;
    while cmp(node2, node1) < 0
      invariant Rests(m, a, b, s1, s2, nodes, cmp) && node2 == b[0]
      invariant Linked(m + b) && Linked(a)
      invariant |b| <= |b0| && (|b| == |b0| ==> m == m0 && node2 == start)
      decreases |b|
    {
      FrontsCompare(m, a, b, s1, s2, nodes, cmp);
      TakeSecond(m, a, b, s1, s2, nodes, cmp);
      LinkedParts(m + [b[0]], b[1..]);
      if node2 == head2 {
        Join(node2, node1, m + [b[0]], a);
        return node2, true, m, b;
      }
      node2 := node2.next;
      m, b := m + [b[0]], b[1..];
    }
  }

  lemma Apart<X>(a: seq<X>, b: seq<X>)
    requires Distinct(a + b)
    ensures forall i, j :: 0 <= i < |a| && 0 <= j < |b| ==> a[i] != b[j]
  {
    forall i, j | 0 <= i < |a| && 0 <= j < |b| ensures a[i] != b[j] {
      assert (a + b)[i] == a[i] && (a + b)[|a| + j] == b[j];
    }
  }

  /** Puts the second segment's current node before the first one's; `m` now runs on into `b`. */
  method EnterSecond<T>(node1: Node<T>, node2: Node<T>, tail1: Node<T>,
                        ghost m: seq<Node<T>>, ghost a: seq<Node<T>>, ghost b: seq<Node<T>>, ghost nodes: set<Node<T>>)
    requires a != [] && b != [] && node1 == a[0] && node2 == b[0]
    requires Distinct(m + a + b) && Linked(m + a) && Linked(b)
    requires node1 == tail1 <==> m == []
    requires Within(m, nodes) && node2 in nodes
    modifies nodes
    ensures Linked(m + b) && Linked(a)
  {
    DistinctParts(m, a, b);
    LinkedParts(m, a);
    EndsApart(a, b);
    if node1 != tail1 {
      assert node1.prev == Last(m);
      EndsApart(m, a);
      Join(node1.prev, node2, m, b);
    } else {
      node2.prev := node1.prev;
      assert m + b == b;
    }
  }

  /** Puts the first segment's current node after what was taken from the second one. */
  method EnterFirst<T>(node1: Node<T>, node2: Node<T>,
                       ghost m: seq<Node<T>>, ghost a: seq<Node<T>>, ghost b: seq<Node<T>>, ghost nodes: set<Node<T>>)
    requires m != [] && a != [] && b != [] && node1 == a[0] && node2 == b[0]
    requires Distinct(m + a + b) && Linked(m + b) && Linked(a)
    requires Within(m, nodes) && node1 in nodes
    modifies nodes
    ensures Linked(m + a) && Linked(b)
  {
    DistinctParts(m, a, b);
    LinkedParts(m, b);
    Apart(a, b);
    Apart(m, b);
    Join(node2.prev, node1, m, a);
  }

  /** Between rounds the merged part runs on into the first segment, whose node goes next. */
  ghost predicate BetweenRounds<T>(node1: Node<T>, node2: Node<T>,
                                   m: seq<Node<T>>, a: seq<Node<T>>, b: seq<Node<T>>,
                                   s1: seq<Node<T>>, s2: seq<Node<T>>, nodes: set<Node<T>>, cmp: Comparator<Node<T>>)
    reads m, a, b
  {
    && Rests(m, a, b, s1, s2, nodes, cmp) && node1 == a[0] && node2 == b[0]
    && Linked(m + a) && Linked(b)
    && (m != [] ==> cmp(node1, node2) <= 0)
  }

  lemma StartOfMerge<T>(s1: seq<Node<T>>, s2: seq<Node<T>>, nodes: set<Node<T>>, cmp: Comparator<Node<T>>)
    requires s1 != [] && s2 != [] && Distinct(s1 + s2) && Linked(s1 + s2) && Within(s1, nodes) && Within(s2, nodes)
    ensures BetweenRounds(s1[0], s2[0], [], s1, s2, s1, s2, nodes, cmp)
    ensures Distinct(s1) && Distinct(s2)
  {
    LinkedParts(s1, s2);
    RestsAtStart(s1, s2, nodes, cmp);
    assert [] + s1 == s1;
  }

  lemma RestsAtStart<T>(s1: seq<Node<T>>, s2: seq<Node<T>>, nodes: set<Node<T>>, cmp: Comparator<Node<T>>)
    requires s1 != [] && s2 != [] && Distinct(s1 + s2) && Within(s1, nodes) && Within(s2, nodes)
    ensures Rests([], s1, s2, s1, s2, nodes, cmp) && Distinct(s1) && Distinct(s2)
  {
    assert [] + s1 == s1 && [] + s1 + s2 == s1 + s2;
    DistinctParts([], s1, s2);
    assert [] + s2 == s2;
    assert [] + Merge(s1, s2, cmp) == Merge(s1, s2, cmp);
  }

  lemma AtSegmentStart<T>(m: seq<Node<T>>, a: seq<Node<T>>, b: seq<Node<T>>,
                          s1: seq<Node<T>>, s2: seq<Node<T>>, nodes: set<Node<T>>, cmp: Comparator<Node<T>>)
    requires Rests(m, a, b, s1, s2, nodes, cmp) && Distinct(s1)
    requires m != [] ==> |a| < |s1|
    ensures a[0] == s1[0] <==> m == []
  {
    assert a[0] == s1[|s1| - |a|];
  }

  /** One round: a run of the first segment, then a run of the second one. */
  method MergeRound<T>(tail1: Node<T>, head1: Node<T>, head2: Node<T>, start1: Node<T>, start2: Node<T>,
                       ghost m0: seq<Node<T>>, ghost a0: seq<Node<T>>, ghost b0: seq<Node<T>>,
                       ghost s1: seq<Node<T>>, ghost s2: seq<Node<T>>, ghost nodes: set<Node<T>>,
                          cmp: Comparator<Node<T>>)
    returns (node1: Node<T>, node2: Node<T>, complete: bool,
             ghost m: seq<Node<T>>, ghost a: seq<Node<T>>, ghost b: seq<Node<T>>)
    requires s1 != [] && s2 != [] && tail1 == s1[0] && head1 == Last(s1) && head2 == Last(s2)
    requires Distinct(s1) && Distinct(s2) && Antisymmetric(s1, s2, cmp)
    requires BetweenRounds(start1, start2, m0, a0, b0, s1, s2, nodes, cmp)
    requires Within(s1, nodes) && Within(s2, nodes)
    modifies nodes
    ensures complete ==> Linked(Merge(s1, s2, cmp))
    ensures !complete ==> BetweenRounds(node1, node2, m, a, b, s1, s2, nodes, cmp) && |a| + |b| < |a0| + |b0|
  {
    node2, b := start2, b0;
    node1, complete, m, a := PassFirst(start1, node2, head1, m0, a0, b0, s1, s2, nodes, cmp);
    if complete { return; }
    AtSegmentStart(m, a, b, s1, s2, nodes, cmp);
    EnterSecond(node1, node2, tail1, m, a, b, nodes);
    node2, complete, m, b := PassSecond(node1, start2, head2, m, a, b, s1, s2, nodes, cmp);
    if complete { return; }
    FrontsCompare(m, a, b, s1, s2, nodes, cmp);
    EnterFirst(node1, node2, m, a, b, nodes);
  }

  /**
   Merges two sorted segments in place; `s1` runs from `tail1` to `head1` and `s2` from `tail2` to `head2`.
   */
  method MergeSegments<T>(tail1: Node<T>, head1: Node<T>, tail2: Node<T>, head2: Node<T>,
                          ghost s1: seq<Node<T>>, ghost s2: seq<Node<T>>, ghost nodes: set<Node<T>>,
                          cmp: Comparator<Node<T>>)
    requires s1 != [] && tail1 == s1[0] && head1 == Last(s1)
    requires s2 != [] && tail2 == s2[0] && head2 == Last(s2)
    requires Distinct(s1 + s2) && Linked(s1) && Linked(s2) && Antisymmetric(s1, s2, cmp)
    requires Within(s1, nodes) && Within(s2, nodes)
    modifies nodes
    ensures Linked(Merge(s1, s2, cmp))
  {
    var node1, node2, complete := tail1, tail2, false;
    Join(head1, tail2, s1, s2);
    StartOfMerge(s1, s2, nodes, cmp);
    ghost var m: seq<Node<T>>, a, b := [], s1, s2;
    while !complete
      invariant if complete then Linked(Merge(s1, s2, cmp)) else BetweenRounds(node1, node2, m, a, b, s1, s2, nodes, cmp)
      decreases !complete, |a| + |b|
    {
      node1, node2, complete, m, a, b := MergeRound(tail1, head1, head2, node1, node2, m, a, b, s1, s2, nodes, cmp);
    }
  }

  /** What a sort of `s` leaves behind: its chain in sorted order, found at `tail` and `head`. */
  ghost predicate SortedChain<T>(tail: Node<T>, head: Node<T>, s: seq<Node<T>>, cmp: Comparator<Node<T>>)
    requires s != []
    reads MergeSort(s, cmp)
  {
    var r := MergeSort(s, cmp);
    tail == r[0] && head == Last(r) && Linked(r)
  }

  /** Finds the node in the middle of a segment of three or more nodes. */
  method FindMiddle<T>(tail: Node<T>, head: Node<T>, ghost s: seq<Node<T>>) returns (node1: Node<T>)
    requires |s| > 2 && tail == s[0] && head == Last(s) && Distinct(s) && Linked(s)
    ensures node1 == s[|s| / 2] && node1.prev == s[|s| / 2 - 1]
  {
    node1 := tail;
    var node2 := tail;
    ghost var k := 0;
    while node2 != head
      invariant 0 <= k && (2 * k < |s| || k == |s| / 2) && node1 == s[k]
      invariant 2 * k < |s| ==> node2 == s[2 * k]
      invariant 2 * k >= |s| ==> node2 == head
      decreases |s| - k
    {
      node1 := node1.next;
      node2 := node2.next;
      k := k + 1;
      if node2 == head { break; }
      node2 := node2.next;
    }
  }

  /** Facts about the two sorted halves that the merge relies on. */
  lemma SortedHalves<T>(s: seq<Node<T>>, all: set<Node<T>>, cmp: Comparator<Node<T>>)
    requires |s| > 1 && TotalOn(all, cmp) && Within(s, all) && Distinct(s)
    ensures var r1, r2 := MergeSort(s[..|s| / 2], cmp), MergeSort(s[|s| / 2..], cmp);
            && Distinct(r1 + r2) && Antisymmetric(r1, r2, cmp)
            && r1 != [] && r2 != []
            && Merge(r1, r2, cmp)[0] == (if cmp(r1[0], r2[0]) <= 0 then r1[0] else r2[0])
            && Last(Merge(r1, r2, cmp)) == LargerLast(r1, r2, cmp)
            && Within(r1, all) && Within(r2, all)
  {
    var r1, r2 := MergeSort(s[..|s| / 2], cmp), MergeSort(s[|s| / 2..], cmp);
    MergeSortPermutes(s[..|s| / 2], cmp);
    MergeSortPermutes(s[|s| / 2..], cmp);
    MultisetSplit(s, |s| / 2);
    assert multiset(r1 + r2) == multiset(s);
    PermutationDistinct(r1 + r2, s);
    MergeSortSorted(s[..|s| / 2], all, cmp);
    MergeSortSorted(s[|s| / 2..], all, cmp);
    MergeLast(r1, r2, all, cmp);
  }

  /** Sorts a segment in place; `s` runs from `tail` to `head`, whose outer links may be stale. */
  method SortSegment<T>(tail: Node<T>, head: Node<T>, ghost s: seq<Node<T>>, ghost nodes: set<Node<T>>,
                        cmp: Comparator<Node<T>>)
    returns (newTail: Node<T>, newHead: Node<T>)
    requires s != [] && tail == s[0] && head == Last(s) && Distinct(s) && Linked(s)
    requires TotalOn(nodes, cmp) && Within(s, nodes)
    modifies nodes
    ensures SortedChain(newTail, newHead, s, cmp)
    decreases |s|, 1
  {
    if tail == head {
      return tail, head;
    }
    if tail.next == head {
      newTail, newHead := SortPair(tail, head, s, cmp);
      return;
    }
    var tail1, head1, tail2, head2 := SortHalves(tail, head, s, nodes, cmp);
    newTail := if cmp(tail1, tail2) <= 0 then tail1 else tail2;
    newHead := if cmp(head1, head2) > 0 then head1 else head2;
    ghost var r1, r2 := MergeSort(s[..|s| / 2], cmp), MergeSort(s[|s| / 2..], cmp);
    SortedHalves(s, nodes, cmp);
    MergeSegments(tail1, head1, tail2, head2, r1, r2, nodes, cmp);
    assert MergeSort(s, cmp) == Merge(r1, r2, cmp);
  }

  method SortPair<T>(tail: Node<T>, head: Node<T>, ghost s: seq<Node<T>>, cmp: Comparator<Node<T>>)
    returns (newTail: Node<T>, newHead: Node<T>)
    requires |s| == 2 && tail == s[0] && head == s[1] && Distinct(s) && Linked(s)
    modifies {tail, head}
    ensures SortedChain(newTail, newHead, s, cmp)
  {
    newTail, newHead := tail, head;
    PairSorted(s, cmp);
    if cmp(tail, head) > 0 {
      newHead := tail;
      newTail := newHead.next;
      newTail.next := newHead;
      newHead.prev := newTail;
    }
  }

  /** Sorts a segment that lies beside another chain, which stays as it is. */
  method SortBeside<T>(tail: Node<T>, head: Node<T>, ghost s: seq<Node<T>>, ghost nodes: set<Node<T>>,
                       ghost beside: seq<Node<T>>, ghost others: set<Node<T>>, cmp: Comparator<Node<T>>)
    returns (newTail: Node<T>, newHead: Node<T>)
    requires s != [] && tail == s[0] && head == Last(s) && Distinct(s) && Linked(s)
    requires TotalOn(nodes, cmp) && Within(s, nodes)
    requires Linked(beside) && Within(beside, others) && others !! nodes
    modifies nodes
    ensures SortedChain(newTail, newHead, s, cmp) && Linked(beside)
    decreases |s|, 2
  {
    newTail, newHead := SortSegment(tail, head, s, nodes, cmp);
  }

  method SortHalves<T>(tail: Node<T>, head: Node<T>, ghost s: seq<Node<T>>, ghost nodes: set<Node<T>>,
                       cmp: Comparator<Node<T>>)
    returns (tail1: Node<T>, head1: Node<T>, tail2: Node<T>, head2: Node<T>)
    requires |s| > 2 && tail == s[0] && head == Last(s) && Distinct(s) && Linked(s)
    requires TotalOn(nodes, cmp) && Within(s, nodes)
    modifies nodes
    ensures SortedChain(tail1, head1, s[..|s| / 2], cmp)
    ensures SortedChain(tail2, head2, s[|s| / 2..], cmp)
    decreases |s|, 0
  {
    var node1 := FindMiddle(tail, head, s);
    ghost var s1, s2 := s[..|s| / 2], s[|s| / 2..];
    HalvesOfChain(s);
    ghost var nodes1, nodes2 := Members(s1), Members(s2);
    HalvesWithin(s1, s2, s, nodes);
    MergeSortSorted(s1, nodes1, cmp);
    tail1, head1 := SortBeside(tail, node1.prev, s1, nodes1, s2, nodes2, cmp);
    tail2, head2 := SortBeside(node1, head, s2, nodes2, MergeSort(s1, cmp), nodes1, cmp);
  }

  lemma HalvesWithin<X>(s1: seq<X>, s2: seq<X>, s: seq<X>, nodes: set<X>)
    requires s1 == s[..|s| / 2] && s2 == s[|s| / 2..] && Within(s, nodes) && forall x :: x in s1 ==> x !in s2
    ensures Members(s1) !! Members(s2) && Members(s1) <= nodes && Members(s2) <= nodes
  {
  }

  lemma PairSorted<X>(s: seq<X>, cmp: Comparator<X>)
    requires |s| == 2
    ensures MergeSort(s, cmp) == if cmp(s[0], s[1]) > 0 then [s[1], s[0]] else s
  {
    assert MergeSort(s[..1], cmp) == [s[0]] && MergeSort(s[1..], cmp) == [s[1]];
    assert Merge([s[0]], [s[1]], cmp) == if cmp(s[0], s[1]) <= 0 then [s[0]] + [s[1]] else [s[1]] + [s[0]];
  }

  lemma HalvesOfChain<T>(s: seq<Node<T>>)
    requires |s| > 1 && Distinct(s) && Linked(s)
    ensures var s1, s2 := s[..|s| / 2], s[|s| / 2..];
            && Distinct(s1) && Distinct(s2) && Linked(s1) && Linked(s2)
            && (forall x :: x in s1 ==> x !in s2)
            && Last(s1) == s[|s| / 2 - 1] && s2[0] == s[|s| / 2] && Last(s2) == Last(s)
  {
    var s1, s2 := s[..|s| / 2], s[|s| / 2..];
    assert s == s1 + s2;
    LinkedParts(s1, s2);
    Apart(s1, s2);
  }

  /** The sequence `s` without the element at `k`. */
  ghost function Without<X>(s: seq<X>, k: nat): seq<X>
    requires k < |s|
  {
    s[..k] + s[k + 1..]
  }

  /** The parts before and after a node are chains, and the node links to their ends. */
  lemma AroundNode<T>(s: seq<Node<T>>, k: nat)
    requires k < |s| && Linked(s) && Distinct(s)
    ensures var p, q := s[..k], s[k + 1..];
            && Linked(p) && Linked(q) && Distinct(p + q)
            && (p != [] ==> s[k].prev == Last(p)) && (q != [] ==> s[k].next == q[0])
            && (forall i :: 0 <= i < |p| - 1 ==> p[i] != Last(p))
            && (forall i :: 0 < i < |q| ==> q[i] != q[0])
            && (forall i, j :: 0 <= i < |p| && 0 <= j < |q| ==> p[i] != q[j])
  {
    var p, q := s[..k], s[k + 1..];
    assert s == p + [s[k]] + q;
    LinkedParts(p + [s[k]], q);
    LinkedParts(p, [s[k]]);
    DistinctParts(p, [s[k]], q);
    Apart(p, q);
  }

  /** A chain with no links leaving it. */
  ghost predicate Closed<T>(s: seq<Node<T>>)
    reads s
  {
    Linked(s) && (s != [] ==> s[0].prev == null && Last(s).next == null)
  }

  /** Closes the gap between `p`, which ends in `x`, and `q`, which starts at `y`. */
  method Bridge<T>(x: Node?<T>, y: Node?<T>, ghost p: seq<Node<T>>, ghost q: seq<Node<T>>)
    requires Distinct(p + q) && Linked(p) && Linked(q)
    requires x == if p == [] then null else Last(p)
    requires y == if q == [] then null else q[0]
    requires (p != [] ==> p[0].prev == null) && (q != [] ==> Last(q).next == null)
    modifies x, y
    ensures Closed(p + q)
  {
    if x != null && y != null {
      EndsApart(p, q);
      Join(x, y, p, q);
      assert p + q != [] && (p + q)[0] == p[0] && Last(p + q) == Last(q);
    } else if x != null {
      assert p + q == p;
      CloseHead(x, p);
    } else if y != null {
      assert p + q == q;
      CloseTail(y, q);
    }
  }

  method CloseHead<T>(head: Node<T>, ghost s: seq<Node<T>>)
    requires s != [] && head == Last(s) && Distinct(s) && Linked(s) && s[0].prev == null
    modifies head`next
    ensures Closed(s)
  {
    head.next := null;
  }

  method CloseTail<T>(tail: Node<T>, ghost s: seq<Node<T>>)
    requires s != [] && tail == s[0] && Distinct(s) && Linked(s) && Last(s).next == null
    modifies tail`prev
    ensures Closed(s)
  {
    tail.prev := null;
  }

  /** Cuts the stale outer links of a chain. */
  method CloseEnds<T>(tail: Node<T>, head: Node<T>, ghost s: seq<Node<T>>)
    requires s != [] && tail == s[0] && head == Last(s) && Distinct(s) && Linked(s)
    modifies tail, head
    ensures Closed(s)
  {
    head.next := null;
    tail.prev := null;
  }

  /** Sorts a whole chain and closes its ends. */
  method SortChain<T>(tail: Node<T>, head: Node<T>, ghost s: seq<Node<T>>, cmp: Comparator<Node<T>>)
    returns (newTail: Node<T>, newHead: Node<T>)
    requires s != [] && tail == s[0] && head == Last(s) && Distinct(s) && Linked(s) && TotalOn(Members(s), cmp)
    modifies s
    ensures var r := MergeSort(s, cmp);
            r != [] && newTail == r[0] && newHead == Last(r) && Distinct(r) && Closed(r)
  {
    ghost var all, r := Members(s), MergeSort(s, cmp);
    MergeSortPermutes(s, cmp);
    newTail, newHead := SortSegment(tail, head, s, all, cmp);
    PermutationDistinct(r, s);
    SameMembers(r, s);
    CloseEnds(newTail, newHead, r);
  }

  lemma AlreadySorted<X>(s: seq<X>, cmp: Comparator<X>)
    requires Distinct(s) && (s != [] ==> s[0] == Last(s))
    ensures MergeSort(s, cmp) == s
  {
  }

  class List<T> {
    var head: Node?<T>
    var tail: Node?<T>
    ghost var nodes: seq<Node<T>>

    ghost predicate Valid()
      reads this, nodes
    {
      && Distinct(nodes) && Closed(nodes)
      && tail == (if nodes == [] then null else nodes[0])
      && head == (if nodes == [] then null else Last(nodes))
    }

    constructor ()
      ensures Valid() && nodes == []
    {
      head := null;
      tail := null;
      nodes := [];
    }

    /** Appends a node. */
    method Add(node: Node<T>)
      requires Valid() && node !in nodes
      modifies this, node, head
      ensures Valid() && nodes == old(nodes) + [node]
    {
      if head != null {
        head.next := node;
      } else {
        tail := node;
      }
      node.prev := head;
      node.next := null;
      head := node;
      nodes := nodes + [node];
    }

    /** Unlinks the node at position `k`; the node itself keeps its links. */
    method Remove(node: Node<T>, ghost k: nat)
      requires Valid() && k < |nodes| && nodes[k] == node
      modifies this, node.prev, node.next
      ensures Valid() && nodes == Without(old(nodes), k)
    {
      ghost var p, q := nodes[..k], nodes[k + 1..];
      AroundNode(nodes, k);
      if node.prev == null {
        tail := node.next;
      }
      if node.next == null {
        head := node.prev;
      }
      Bridge(node.prev, node.next, p, q);
      nodes := Without(nodes, k);
    }

    /** Sorts the list in place: same nodes, in order, ties as they were. */
    method Sort(cmp: Comparator<Node<T>>)
      requires Valid() && TotalOn(Members(nodes), cmp)
      modifies this, nodes
      ensures Valid() && StableSortOf(nodes, old(nodes), cmp)
    {
      MergeSortIsStableSort(nodes, Members(nodes), cmp);
      if head == tail {
        AlreadySorted(nodes, cmp);
        return;
      }
      ghost var r := MergeSort(nodes, cmp);
      tail, head := SortChain(tail, head, nodes, cmp);
      nodes := r;
    }
  }
}
