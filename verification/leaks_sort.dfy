/**
 Summing up the leaks of each backtrace and sorting the backtraces by the sums; and summing up the
 leaks of each resource type over the call list. Both count every call once.
 */
module LeaksSort {
  import opened TraceTypes
  import opened Ordering
  import opened DList
  import opened HTable
  import opened TraceStore

  // ---------------------------------------------------------------- sums over sequences

  ghost function Sum<X>(s: seq<X>, f: X -> int): int {
    if s == [] then 0 else f(s[0]) + Sum(s[1..], f)
  }

  lemma {:induction false} SumConcat<X>(a: seq<X>, b: seq<X>, f: X -> int)
    ensures Sum(a + b, f) == Sum(a, f) + Sum(b, f)
  {
    if a == [] {
      assert a + b == b;
    } else {
      SumConcat(a[1..], b, f);
      assert (a + b)[1..] == a[1..] + b;
    }
  }

  /** The head of `a` stands somewhere in its permutation `b`; without it they are permutations still. */
  lemma FindHead<X>(a: seq<X>, b: seq<X>) returns (k: nat)
    requires a != [] && multiset(a) == multiset(b)
    ensures k < |b| && b[k] == a[0] && multiset(a[1..]) == multiset(b[..k] + b[k + 1..])
  {
    MultisetHead(a);
    assert a[0] in multiset(b);
    k :| 0 <= k < |b| && b[k] == a[0];
    SplitAt(b, k);
    assert multiset(a[1..]) == multiset(a) - multiset{a[0]};
    assert multiset(b[..k] + b[k + 1..]) == multiset(b) - multiset{b[k]};
  }

  /** A sum does not depend on the order. */
  lemma {:induction false} SumPermutation<X>(a: seq<X>, b: seq<X>, f: X -> int)
    requires multiset(a) == multiset(b)
    ensures Sum(a, f) == Sum(b, f)
    decreases |a|
  {
    assert |a| == |multiset(a)| && |b| == |multiset(b)|;
    if a != [] {
      var k := FindHead(a, b);
      SumPermutation(a[1..], b[..k] + b[k + 1..], f);
      SumConcat(b[..k], [b[k]] + b[k + 1..], f);
      SumConcat(b[..k], b[k + 1..], f);
      assert b == b[..k] + ([b[k]] + b[k + 1..]);
    }
  }

  lemma SplitAt<X>(s: seq<X>, k: nat)
    requires k < |s|
    ensures multiset(s) == multiset{s[k]} + multiset(s[..k] + s[k + 1..])
  {
    assert s == s[..k] + [s[k]] + s[k + 1..];
  }

  lemma SameSetSameMultiset<X>(a: seq<X>, b: seq<X>)
    requires Distinct(a) && Distinct(b)
    requires forall x :: x in a <==> x in b
    ensures multiset(a) == multiset(b)
  {
    DistinctCounts(a);
    DistinctCounts(b);
    forall x ensures multiset(a)[x] == multiset(b)[x] {
      assert x in a <==> x in multiset(a);
      assert x in b <==> x in multiset(b);
    }
  }

  // ---------------------------------------------------------------- the calls of the backtraces

  /** The calls of the backtraces `ts`, backtrace by backtrace. */
  ghost function GroupedCalls(ts: seq<FTrace>): seq<FCall>
    reads ts
  {
    if ts == [] then [] else CallsBehind(ts[0].value.calls) + GroupedCalls(ts[1..])
  }

  /** `ts` lists the stored backtraces, each once. */
  ghost predicate Lists(ts: seq<FTrace>, store: Store)
    reads store.table
  {
    && Distinct(ts)
    && (forall t :: t in ts ==> t.key in store.table.index && store.table.index[t.key] == t)
    && (forall k :: k in store.table.index ==> store.table.index[k] in ts)
  }

  ghost predicate AllTracedIn(store: Store)
    reads store, store.calls
  {
    forall c :: c in store.calls ==> c.trace != null
  }

  lemma {:induction false} GroupedMembers(ts: seq<FTrace>, c: FCall)
    ensures c in GroupedCalls(ts) <==> exists i :: 0 <= i < |ts| && c in CallsBehind(ts[i].value.calls)
  {
    if ts != [] {
      GroupedMembers(ts[1..], c);
      if exists i :: 0 <= i < |ts| && c in CallsBehind(ts[i].value.calls) {
        var i :| 0 <= i < |ts| && c in CallsBehind(ts[i].value.calls);
        if i > 0 { assert ts[i] == ts[1..][i - 1]; }
      }
      if i :| 0 <= i < |ts[1..]| && c in CallsBehind(ts[1..][i].value.calls) {
        assert ts[1..][i] == ts[i + 1];
      }
    }
  }

  lemma {:induction false} GroupedDistinct(ts: seq<FTrace>, store: Store)
    requires Distinct(ts) && forall i :: 0 <= i < |ts| ==> store.TraceSound(ts[i])
    ensures Distinct(GroupedCalls(ts))
  {
    if ts != [] {
      GroupedDistinct(ts[1..], store);
      var head, rest := CallsBehind(ts[0].value.calls), GroupedCalls(ts[1..]);
      assert store.TraceSound(ts[0]);
      HeadDistinct(ts[0].value.calls, ts[0], store);
      forall i, j | 0 <= i < |head| && 0 <= j < |rest| ensures head[i] != rest[j] {
        GroupedMembers(ts[1..], rest[j]);
        var k :| 0 <= k < |ts[1..]| && rest[j] in CallsBehind(ts[1..][k].value.calls);
        assert ts[1..][k] == ts[k + 1] && store.TraceSound(ts[k + 1]);
        assert head[i].trace == ts[0] && rest[j].trace == ts[k + 1];
      }
      DistinctConcat(head, rest);
    }
  }

  lemma DistinctConcat<X>(a: seq<X>, b: seq<X>)
    requires Distinct(a) && Distinct(b)
    requires forall i, j :: 0 <= i < |a| && 0 <= j < |b| ==> a[i] != b[j]
    ensures Distinct(a + b)
  {
  }

  /** The backtraces partition the calls: grouping by backtrace loses and repeats none. */
  lemma GroupsPartitionCalls(store: Store, ts: seq<FTrace>)
    requires store.Valid() && Lists(ts, store) && AllTracedIn(store)
    ensures multiset(GroupedCalls(ts)) == multiset(store.calls)
  {
    forall i | 0 <= i < |ts| ensures store.TraceSound(ts[i]) {
      assert ts[i] in ts;
    }
    GroupedDistinct(ts, store);
    forall c ensures c in GroupedCalls(ts) <==> c in store.calls {
      GroupedMembers(ts, c);
      if c in store.calls {
        assert store.CallSound(c) && c.trace in ts;
        var i :| 0 <= i < |ts| && ts[i] == c.trace;
        var j :| 0 <= j < |ts[i].value.calls| && ts[i].value.calls[j] == c.ref;
        assert CallsBehind(ts[i].value.calls)[j] == c;
      }
      if i :| 0 <= i < |ts| && c in CallsBehind(ts[i].value.calls) {
        var j :| 0 <= j < |ts[i].value.calls| && CallsBehind(ts[i].value.calls)[j] == c;
        assert ts[i].value.calls[j] in ts[i].value.calls;
      }
    }
    SameSetSameMultiset(GroupedCalls(ts), store.calls);
  }

  // ---------------------------------------------------------------- sums per backtrace

  function ResSize(c: FCall): int {
    c.data.resSize
  }

  /** A backtrace with the number and the total size of its calls. */
  datatype LeakRef = LeakRef(trace: FTrace, count: int, size: int)

  function CountOf(l: LeakRef): int { l.count }
  function SizeOf(l: LeakRef): int { l.size }

  /** The number and the total size of the calls behind a backtrace, in full. */
  ghost function FullCount(t: FTrace): nat
    reads t
  {
    |t.value.calls|
  }

  ghost function FullSize(t: FTrace): int
    reads t
  {
    Sum(CallsBehind(t.value.calls), ResSize)
  }

  /** What 32-bit integers keep of them. */
  ghost function Summary(t: FTrace): LeakRef
    reads t
  {
    LeakRef(t, Signed32(FullCount(t)), Signed32(FullSize(t)))
  }

  ghost function Summaries(ts: seq<FTrace>): (r: seq<LeakRef>)
    reads ts
    ensures |r| == |ts| && forall i :: 0 <= i < |ts| ==> r[i] == Summary(ts[i])
  {
    if ts == [] then [] else [Summary(ts[0])] + Summaries(ts[1..])
  }

  /** It does not matter when a sum is cut. */
  lemma Signed32Add(x: int, y: int)
    ensures Signed32(Signed32(x) + y) == Signed32(x + y)
  {
  }

  /** A number that is not negative is cut to at most itself, and to itself only below 2^31. */
  lemma Signed32AtMost(x: nat)
    ensures Signed32(x) <= x && (Signed32(x) == x <==> x < 0x8000_0000)
  {
  }

  /** Adds up the calls of one backtrace in 32-bit integers. */
  method CountLeaks(t: FTrace) returns (l: LeakRef)
    ensures l == Summary(t)
  {
    var calls, count, size := t.value.calls, 0, 0;
    for i := 0 to |calls|
      invariant count == Signed32(i) && size == Signed32(Sum(CallsBehind(calls[..i]), ResSize))
    {
      assert CallsBehind(calls[..i + 1]) == CallsBehind(calls[..i]) + [calls[i].call];
      SumConcat(CallsBehind(calls[..i]), [calls[i].call], ResSize);
      Signed32Add(i, 1);
      Signed32Add(Sum(CallsBehind(calls[..i]), ResSize), calls[i].call.data.resSize);
      count := Signed32(count + 1);
      size := Signed32(size + calls[i].call.data.resSize);
    }
    assert calls[..|calls|] == calls;
    l := LeakRef(t, count, size);
  }

  ghost predicate NoneNegative(calls: seq<FCall>) {
    forall i :: 0 <= i < |calls| ==> calls[i].data.resSize >= 0
  }

  lemma {:induction false} SumNotNegative(calls: seq<FCall>)
    requires NoneNegative(calls)
    ensures Sum(calls, ResSize) >= 0
  {
    if calls != [] { SumNotNegative(calls[1..]); }
  }

  ghost predicate CountsFit(ts: seq<FTrace>)
    reads ts
  {
    forall i :: 0 <= i < |ts| ==> FullCount(ts[i]) < 0x8000_0000
  }

  ghost predicate SizesFit(ts: seq<FTrace>)
    reads ts
  {
    forall i :: 0 <= i < |ts| ==> FullSize(ts[i]) < 0x8000_0000
  }

  /** The counts of the backtraces add up to the number of calls if and only if each is below 2^31. */
  lemma {:induction false} CountsAddUp(ts: seq<FTrace>)
    ensures Sum(Summaries(ts), CountOf) <= |GroupedCalls(ts)|
    ensures Sum(Summaries(ts), CountOf) == |GroupedCalls(ts)| <==> CountsFit(ts)
  {
    if ts != [] {
      CountsAddUp(ts[1..]);
      Signed32AtMost(FullCount(ts[0]));
      assert Summaries(ts)[1..] == Summaries(ts[1..]);
      assert CountsFit(ts) <==> FullCount(ts[0]) < 0x8000_0000 && CountsFit(ts[1..]);
    }
  }

  /** The sizes of the backtraces add up to the size of all calls if and only if each is below 2^31. */
  lemma {:induction false} SizesAddUp(ts: seq<FTrace>)
    requires NoneNegative(GroupedCalls(ts))
    ensures Sum(Summaries(ts), SizeOf) <= Sum(GroupedCalls(ts), ResSize)
    ensures Sum(Summaries(ts), SizeOf) == Sum(GroupedCalls(ts), ResSize) <==> SizesFit(ts)
  {
    if ts != [] {
      var a, b := CallsBehind(ts[0].value.calls), GroupedCalls(ts[1..]);
      SplitNotNegative(a, b);
      SizesAddUp(ts[1..]);
      SumNotNegative(a);
      Signed32AtMost(FullSize(ts[0]));
      SumConcat(a, b, ResSize);
      assert Summaries(ts)[1..] == Summaries(ts[1..]);
      assert SizesFit(ts) <==> FullSize(ts[0]) < 0x8000_0000 && SizesFit(ts[1..]);
    }
  }

  lemma SplitNotNegative(a: seq<FCall>, b: seq<FCall>)
    requires NoneNegative(a + b)
    ensures NoneNegative(a) && NoneNegative(b)
  {
    forall i | 0 <= i < |a| ensures a[i].data.resSize >= 0 { assert (a + b)[i] == a[i]; }
    forall i | 0 <= i < |b| ensures b[i].data.resSize >= 0 { assert (a + b)[|a| + i] == b[i]; }
  }

  /** Two leaks of almost 2^31 bytes behind one backtrace: their sum reads as -2. */
  lemma TwoLargeLeaks(t: FTrace)
    requires |t.value.calls| == 2 && forall i :: 0 <= i < 2 ==> t.value.calls[i].call.data.resSize == 0x7fff_ffff
    ensures FullSize(t) == 0xffff_fffe && Summary(t) == LeakRef(t, 2, -2)
  {
    var c := CallsBehind(t.value.calls);
    assert c[1..][1..] == [] && c[1..][0] == c[1];
    assert Sum(c, ResSize) == ResSize(c[0]) + (ResSize(c[1]) + Sum(c[1..][1..], ResSize));
  }

  // ---------------------------------------------------------------- sums per resource type

  datatype LeakData = LeakData(count: int, size: int)

  /** The slot of a call: the resource type id less one, or the first slot without a resource type. */
  function SlotOf(c: Call): int {
    if c.resource.Some? then c.resource.value.id - 1 else 0
  }

  /** The type ids count from one; an allocation without a type goes with the first. */
  ghost predicate IsOfSlot(c: Call, i: int) {
    c.kind.Alloc? && match c.resource case None => i == 0 case Some(r) => r.id == i + 1
  }

  ghost function InSlot(i: int): FCall -> int {
    (c: FCall) => if IsOfSlot(c.data, i) then 1 else 0
  }

  ghost function SizeInSlot(i: int): FCall -> int {
    (c: FCall) => if IsOfSlot(c.data, i) then c.data.resSize else 0
  }

  const SLOTS: nat := 32

  /** What a 64-bit unsigned size keeps of a number. */
  function Size64(x: int): nat {
    x % 0x1_0000_0000_0000_0000
  }

  /** A slot counts in a 32-bit integer and adds up in a 64-bit size. */
  function AddToSlot(d: LeakData, count: int, size: int): LeakData {
    LeakData(Signed32(d.count + count), Size64(d.size + size))
  }

  ghost function SlotData(calls: seq<FCall>, i: int): LeakData {
    LeakData(Signed32(Sum(calls, InSlot(i))), Size64(Sum(calls, SizeInSlot(i))))
  }

  lemma Size64Add(x: int, y: int)
    ensures Size64(Size64(x) + y) == Size64(x + y)
  {
  }

  lemma SlotGrows(calls: seq<FCall>, c: FCall, i: int)
    ensures SlotData(calls + [c], i) == AddToSlot(SlotData(calls, i), InSlot(i)(c), SizeInSlot(i)(c))
  {
    SumConcat(calls, [c], InSlot(i));
    SumConcat(calls, [c], SizeInSlot(i));
    Signed32Add(Sum(calls, InSlot(i)), InSlot(i)(c));
    Size64Add(Sum(calls, SizeInSlot(i)), SizeInSlot(i)(c));
  }

  /** Adds up the allocations of each resource type over the call list. */
  method SumLeaks(calls: seq<FCall>) returns (slots: seq<LeakData>)
    requires forall i :: 0 <= i < |calls| && calls[i].data.kind.Alloc? ==> 0 <= SlotOf(calls[i].data) < SLOTS
    ensures |slots| == SLOTS && forall i :: 0 <= i < SLOTS ==> slots[i] == SlotData(calls, i)
  {
    slots := seq(SLOTS, i => LeakData(0, 0));
    for n := 0 to |calls|
      invariant |slots| == SLOTS && forall i :: 0 <= i < SLOTS ==> slots[i] == SlotData(calls[..n], i)
    {
      var c := calls[n].data;
      forall i | 0 <= i < SLOTS
        ensures SlotData(calls[..n + 1], i)
             == AddToSlot(SlotData(calls[..n], i), InSlot(i)(calls[n]), SizeInSlot(i)(calls[n]))
      {
        assert calls[..n + 1] == calls[..n] + [calls[n]];
        SlotGrows(calls[..n], calls[n], i);
      }
      if c.kind.Alloc? {
        var s := SlotOf(c);
        slots := slots[s := AddToSlot(slots[s], 1, c.resSize)];
      }
    }
    assert calls[..|calls|] == calls;
  }

  ghost predicate AllLeaks(calls: seq<FCall>) {
    forall i :: 0 <= i < |calls| ==> calls[i].data.kind.Alloc? && 0 <= SlotOf(calls[i].data) < SLOTS
  }

  ghost function SlotCounts(calls: seq<FCall>, n: nat): int {
    if n == 0 then 0 else SlotCounts(calls, n - 1) + Sum(calls, InSlot(n - 1))
  }

  ghost function SlotSizes(calls: seq<FCall>, n: nat): int {
    if n == 0 then 0 else SlotSizes(calls, n - 1) + Sum(calls, SizeInSlot(n - 1))
  }

  lemma {:induction false} SlotsOfHead(calls: seq<FCall>, n: nat)
    requires calls != [] && AllLeaks(calls)
    ensures SlotCounts(calls, n) == SlotCounts(calls[1..], n) + if SlotOf(calls[0].data) < n then 1 else 0
    ensures SlotSizes(calls, n)
         == SlotSizes(calls[1..], n) + if SlotOf(calls[0].data) < n then calls[0].data.resSize else 0
  {
    if n > 0 { SlotsOfHead(calls, n - 1); }
  }

  lemma {:induction false} SlotsEmpty(n: nat)
    ensures SlotCounts([], n) == 0 && SlotSizes([], n) == 0
  {
    if n > 0 { SlotsEmpty(n - 1); }
  }

  /** When all calls are allocations, the slots account for every call and its size. */
  lemma {:induction false} SlotsAddUp(calls: seq<FCall>)
    requires AllLeaks(calls)
    ensures SlotCounts(calls, SLOTS) == |calls| && SlotSizes(calls, SLOTS) == Sum(calls, ResSize)
  {
    if calls == [] {
      SlotsEmpty(SLOTS);
    } else {
      SlotsAddUp(calls[1..]);
      SlotsOfHead(calls, SLOTS);
    }
  }

  /** The figures of the first `n` slots, as they are stored. */
  ghost function StoredCounts(calls: seq<FCall>, n: nat): int {
    if n == 0 then 0 else StoredCounts(calls, n - 1) + SlotData(calls, n - 1).count
  }

  ghost function StoredSizes(calls: seq<FCall>, n: nat): int {
    if n == 0 then 0 else StoredSizes(calls, n - 1) + SlotData(calls, n - 1).size
  }

  /** No slot has more calls, or more bytes, than its figures can hold. */
  ghost predicate CountsFitSlots(calls: seq<FCall>, n: nat) {
    forall i :: 0 <= i < n ==> Sum(calls, InSlot(i)) < 0x8000_0000
  }

  ghost predicate SizesFitSlots(calls: seq<FCall>, n: nat) {
    forall i :: 0 <= i < n ==> Sum(calls, SizeInSlot(i)) < 0x1_0000_0000_0000_0000
  }

  lemma {:induction false} SlotNotNegative(calls: seq<FCall>, i: int)
    requires NoneNegative(calls)
    ensures Sum(calls, InSlot(i)) >= 0 && Sum(calls, SizeInSlot(i)) >= 0
  {
    if calls != [] { SlotNotNegative(calls[1..], i); }
  }

  lemma Size64AtMost(x: nat)
    ensures Size64(x) <= x && (Size64(x) == x <==> x < 0x1_0000_0000_0000_0000)
  {
  }

  /** The stored figures add up to the full ones if and only if each slot can hold its own. */
  lemma {:induction false} SlotsStored(calls: seq<FCall>, n: nat)
    requires NoneNegative(calls)
    ensures StoredCounts(calls, n) <= SlotCounts(calls, n) && StoredSizes(calls, n) <= SlotSizes(calls, n)
    ensures StoredCounts(calls, n) == SlotCounts(calls, n) <==> CountsFitSlots(calls, n)
    ensures StoredSizes(calls, n) == SlotSizes(calls, n) <==> SizesFitSlots(calls, n)
  {
    if n > 0 {
      SlotsStored(calls, n - 1);
      SlotNotNegative(calls, n - 1);
      Signed32AtMost(Sum(calls, InSlot(n - 1)));
      Size64AtMost(Sum(calls, SizeInSlot(n - 1)));
      assert CountsFitSlots(calls, n) <==> Sum(calls, InSlot(n - 1)) < 0x8000_0000 && CountsFitSlots(calls, n - 1);
      assert SizesFitSlots(calls, n)
        <==> Sum(calls, SizeInSlot(n - 1)) < 0x1_0000_0000_0000_0000 && SizesFitSlots(calls, n - 1);
    }
  }

  /** The backtraces of a store of traced leaks stand for all its calls. */
  lemma GroupsStandForCalls(store: Store, ts: seq<FTrace>)
    requires store.Valid() && Lists(ts, store) && AllTracedIn(store)
    ensures |GroupedCalls(ts)| == |store.calls| && Sum(GroupedCalls(ts), ResSize) == Sum(store.calls, ResSize)
    ensures NoneNegative(store.calls) ==> NoneNegative(GroupedCalls(ts))
  {
    GroupsPartitionCalls(store, ts);
    SumPermutation(GroupedCalls(ts), store.calls, ResSize);
    assert |GroupedCalls(ts)| == |multiset(GroupedCalls(ts))| == |multiset(store.calls)| == |store.calls|;
    SameMembers(GroupedCalls(ts), store.calls);
    if NoneNegative(store.calls) {
      forall i | 0 <= i < |GroupedCalls(ts)| ensures GroupedCalls(ts)[i].data.resSize >= 0 {
        assert GroupedCalls(ts)[i] in store.calls;
      }
    }
  }

  /**
   Conservation: when only traced allocations remain, the figures of the backtraces, in any order, add up
   to the number of leaks and their total size if and only if no backtrace has 2^31 of either.
   */
  lemma LeaksConserved(store: Store, ts: seq<FTrace>, listed: seq<LeakRef>)
    requires store.Valid() && Lists(ts, store) && AllTracedIn(store) && NoneNegative(store.calls)
    requires multiset(listed) == multiset(Summaries(ts))
    ensures Sum(listed, CountOf) == |store.calls| <==> CountsFit(ts)
    ensures Sum(listed, SizeOf) == Sum(store.calls, ResSize) <==> SizesFit(ts)
  {
    SumPermutation(listed, Summaries(ts), CountOf);
    SumPermutation(listed, Summaries(ts), SizeOf);
    GroupsStandForCalls(store, ts);
    CountsAddUp(ts);
    SizesAddUp(ts);
  }

  /** The figures of the resource types add up to the same if and only if every slot holds its own. */
  lemma SlotsConserved(calls: seq<FCall>)
    requires AllLeaks(calls) && NoneNegative(calls)
    ensures StoredCounts(calls, SLOTS) == |calls| <==> CountsFitSlots(calls, SLOTS)
    ensures StoredSizes(calls, SLOTS) == Sum(calls, ResSize) <==> SizesFitSlots(calls, SLOTS)
  {
    SlotsAddUp(calls);
    SlotsStored(calls, SLOTS);
  }

  /** Where the resource types are counted right, the backtraces agree with them just when they are too. */
  lemma LeaksAgree(store: Store, ts: seq<FTrace>, listed: seq<LeakRef>)
    requires store.Valid() && Lists(ts, store) && AllTracedIn(store) && AllLeaks(store.calls) && NoneNegative(store.calls)
    requires multiset(listed) == multiset(Summaries(ts))
    ensures CountsFitSlots(store.calls, SLOTS) ==>
      (Sum(listed, CountOf) == StoredCounts(store.calls, SLOTS) <==> CountsFit(ts))
    ensures SizesFitSlots(store.calls, SLOTS) ==>
      (Sum(listed, SizeOf) == StoredSizes(store.calls, SLOTS) <==> SizesFit(ts))
  {
    LeaksConserved(store, ts, listed);
    SlotsConserved(store.calls);
  }

  // ---------------------------------------------------------------- sorting the backtraces

  datatype LeakOrder = SizeAscending | SizeDescending | CountAscending | CountDescending

  /** How far the figures of one backtrace come behind those of another. */
  function Distance(order: LeakOrder, a: LeakRef, b: LeakRef): int {
    match order
    case SizeAscending => a.size - b.size
    case SizeDescending => b.size - a.size
    case CountAscending => a.count - b.count
    case CountDescending => b.count - a.count
  }

  /** The comparison subtracts in 32-bit integers. */
  function CompareLeaks(order: LeakOrder): Comparator<LeakRef> {
    (a: LeakRef, b: LeakRef) => Signed32(Distance(order, a, b))
  }

  function CompareNodes(order: LeakOrder): Comparator<Node<LeakRef>> {
    (x: Node<LeakRef>, y: Node<LeakRef>) => CompareLeaks(order)(x.item, y.item)
  }

  /** How far the leaks of one backtrace come behind those of another, in full. */
  ghost function FullDistance(order: LeakOrder, s: FTrace, t: FTrace): int
    reads s, t
  {
    match order
    case SizeAscending => FullSize(s) - FullSize(t)
    case SizeDescending => FullSize(t) - FullSize(s)
    case CountAscending => FullCount(s) - FullCount(t)
    case CountDescending => FullCount(t) - FullCount(s)
  }

  /** Comparing two cut figures is cutting the difference of the leaks. */
  lemma CompareSummaries(order: LeakOrder, s: FTrace, t: FTrace)
    ensures CompareLeaks(order)(Summary(s), Summary(t)) == Signed32(FullDistance(order, s, t))
  {
    match order
    case SizeAscending => Signed32Difference(FullSize(s), FullSize(t));
    case SizeDescending => Signed32Difference(FullSize(t), FullSize(s));
    case CountAscending => Signed32Difference(FullCount(s), FullCount(t));
    case CountDescending => Signed32Difference(FullCount(t), FullCount(s));
  }

  /** The comparison of two backtraces says what their leaks say. */
  ghost predicate RightSign(order: LeakOrder, s: FTrace, t: FTrace)
    reads s, t
  {
    SameSign(CompareLeaks(order)(Summary(s), Summary(t)), FullDistance(order, s, t))
  }

  /** Fewer than 2^32 leaks and bytes. */
  ghost predicate Below32(t: FTrace)
    reads t
  {
    FullCount(t) < 0x1_0000_0000 && 0 <= FullSize(t) < 0x1_0000_0000
  }

  /**
   A comparison has the right sign if and only if the low bits of the difference of the leaks agree with
   it; below 2^32 that is if and only if the difference is a 32-bit integer.
   */
  lemma CompareLeaksSign(order: LeakOrder, s: FTrace, t: FTrace)
    ensures RightSign(order, s, t) <==> LowBitsAgree(FullDistance(order, s, t))
    ensures Below32(s) && Below32(t) ==> (RightSign(order, s, t) <==> IsInt32(FullDistance(order, s, t)))
  {
    CompareSummaries(order, s, t);
    SignKeptExactly(FullDistance(order, s, t));
    if Below32(s) && Below32(t) { SignKept(FullDistance(order, s, t)); }
  }

  ghost predicate AllRight(order: LeakOrder, ts: seq<FTrace>)
    reads ts
  {
    forall i, j :: 0 <= i < |ts| && 0 <= j < |ts| ==> RightSign(order, ts[i], ts[j])
  }

  ghost predicate AllAgree(order: LeakOrder, ts: seq<FTrace>)
    reads ts
  {
    forall i, j :: 0 <= i < |ts| && 0 <= j < |ts| ==> LowBitsAgree(FullDistance(order, ts[i], ts[j]))
  }

  ghost predicate AllFit(order: LeakOrder, ts: seq<FTrace>)
    reads ts
  {
    forall i, j :: 0 <= i < |ts| && 0 <= j < |ts| ==> IsInt32(FullDistance(order, ts[i], ts[j]))
  }

  /** Figures that did not overflow are always compared right. */
  lemma ExactFiguresRight(order: LeakOrder, s: FTrace, t: FTrace)
    requires FullCount(s) < 0x8000_0000 && 0 <= FullSize(s) < 0x8000_0000
    requires FullCount(t) < 0x8000_0000 && 0 <= FullSize(t) < 0x8000_0000
    ensures RightSign(order, s, t)
  {
    CompareLeaksSign(order, s, t);
  }

  /** All comparisons are right if and only if all differences agree; below 2^32, if and only if all fit. */
  lemma CompareLeaksExact(order: LeakOrder, ts: seq<FTrace>)
    ensures AllRight(order, ts) <==> AllAgree(order, ts)
    ensures (forall i :: 0 <= i < |ts| ==> Below32(ts[i])) ==> (AllRight(order, ts) <==> AllFit(order, ts))
  {
    forall i, j | 0 <= i < |ts| && 0 <= j < |ts|
      ensures RightSign(order, ts[i], ts[j]) <==> LowBitsAgree(FullDistance(order, ts[i], ts[j]))
      ensures Below32(ts[i]) && Below32(ts[j]) ==>
        (RightSign(order, ts[i], ts[j]) <==> IsInt32(FullDistance(order, ts[i], ts[j])))
    {
      CompareLeaksSign(order, ts[i], ts[j]);
    }
  }

  /** Where all comparisons are right they are a total preorder. */
  lemma CompareLeaksTotal(order: LeakOrder, ts: seq<FTrace>)
    requires AllRight(order, ts)
    ensures TotalOn(Members(Summaries(ts)), CompareLeaks(order))
  {
    var all, cmp := Members(Summaries(ts)), CompareLeaks(order);
    forall a, b {:trigger cmp(a, b)} | a in all && b in all ensures cmp(a, b) < 0 <==> cmp(b, a) > 0 {
      RightPair(order, ts, a, b);
      RightPair(order, ts, b, a);
    }
    forall a, b, c {:trigger cmp(a, b), cmp(b, c)}
      | a in all && b in all && c in all && cmp(a, b) <= 0 && cmp(b, c) <= 0
      ensures cmp(a, c) <= 0
    {
      RightPair(order, ts, a, b);
      RightPair(order, ts, b, c);
      RightPair(order, ts, a, c);
    }
  }

  /** How far the leaks behind one figure come behind those behind another. */
  ghost function LeakDistance(order: LeakOrder, ts: seq<FTrace>, a: LeakRef, b: LeakRef): int
    requires a in Summaries(ts) && b in Summaries(ts)
    reads ts
  {
    FullDistance(order, ts[TraceOf(ts, a)], ts[TraceOf(ts, b)])
  }

  lemma RightPair(order: LeakOrder, ts: seq<FTrace>, a: LeakRef, b: LeakRef)
    requires AllRight(order, ts) && a in Summaries(ts) && b in Summaries(ts)
    ensures SameSign(CompareLeaks(order)(a, b), LeakDistance(order, ts, a, b))
    ensures forall c :: c in Summaries(ts) ==>
              LeakDistance(order, ts, a, c) == LeakDistance(order, ts, a, b) + LeakDistance(order, ts, b, c)
    ensures LeakDistance(order, ts, b, a) == -LeakDistance(order, ts, a, b)
  {
    assert RightSign(order, ts[TraceOf(ts, a)], ts[TraceOf(ts, b)]);
  }

  /** The backtrace that a figure is about. */
  ghost function TraceOf(ts: seq<FTrace>, a: LeakRef): (i: nat)
    requires a in Summaries(ts)
    reads ts
    ensures i < |ts| && a == Summary(ts[i])
  {
    var i :| 0 <= i < |ts| && Summaries(ts)[i] == a;
    i
  }

  /** One byte and almost 2^32 bytes: the larger leak reads as -2 and comes first. */
  lemma LargeLeakMisplaced(s: FTrace, t: FTrace)
    requires FullSize(s) == 1 && FullSize(t) == 0xffff_fffe
    ensures CompareLeaks(SizeAscending)(Summary(s), Summary(t)) > 0 && FullDistance(SizeAscending, s, t) < 0
  {
    CompareSummaries(SizeAscending, s, t);
  }

  ghost function ItemsOf<T>(nodes: seq<Node<T>>): (r: seq<T>)
    ensures |r| == |nodes| && forall i :: 0 <= i < |r| ==> r[i] == nodes[i].item
  {
    seq(|nodes|, i requires 0 <= i < |nodes| => nodes[i].item)
  }

  /** The nodes of the first `n` buckets. */
  ghost function Bucketed<K, V>(buckets: seq<seq<HNode<K, V>>>, n: nat): seq<HNode<K, V>>
    requires n <= |buckets|
  {
    if n == 0 then [] else Bucketed(buckets, n - 1) + buckets[n - 1]
  }

  lemma {:induction false} BucketedMembers<K, V>(table: Table<K, V>, n: nat)
    requires table.Valid() && n <= table.buckets.Length
    ensures Distinct(Bucketed(table.buckets[..], n))
    ensures forall t :: t in Bucketed(table.buckets[..], n) ==>
              t.key in table.index && table.index[t.key] == t && table.Slot(t.key) < n
    ensures forall k :: k in table.index && table.Slot(k) < n ==> table.index[k] in Bucketed(table.buckets[..], n)
  {
    if n > 0 {
      BucketedMembers(table, n - 1);
      assert table.BucketValid(n - 1);
      var a, b := Bucketed(table.buckets[..], n - 1), table.buckets[n - 1];
      forall i, j | 0 <= i < |a| && 0 <= j < |b| ensures a[i] != b[j] {
        assert a[i] in a;
      }
      DistinctConcat(a, b);
    }
  }

  /** Visits the buckets one after the other. */
  method ListTraces(table: Table<Frames, TraceData>) returns (ts: seq<FTrace>)
    requires table.Valid()
    ensures ts == Bucketed(table.buckets[..], table.buckets.Length)
  {
    ts := [];
    for b := 0 to table.buckets.Length
      invariant ts == Bucketed(table.buckets[..], b)
    {
      ts := ts + table.buckets[b];
    }
  }

  lemma SummaryNext(ts: seq<FTrace>, i: nat)
    requires i < |ts|
    ensures Summaries(ts)[..i + 1] == Summaries(ts)[..i] + [Summary(ts[i])]
  {
    OneMore(Summaries(ts), i);
  }

  lemma OneMore<X>(s: seq<X>, i: nat)
    requires i < |s|
    ensures s[..i + 1] == s[..i] + [s[i]]
  {
  }

  /** Adds up the calls of each backtrace. */
  method SummarizeAll(ts: seq<FTrace>) returns (ls: seq<LeakRef>)
    ensures ls == Summaries(ts)
  {
    ls := [];
    for i := 0 to |ts|
      invariant ls == Summaries(ts)[..i]
    {
      var l := CountLeaks(ts[i]);
      SummaryNext(ts, i);
      ls := ls + [l];
    }
  }

  method ListOf<T>(items: seq<T>) returns (list: List<T>)
    ensures list.Valid() && fresh(list) && fresh(list.nodes) && ItemsOf(list.nodes) == items
  {
    list := new List();
    for i := 0 to |items|
      invariant list.Valid() && fresh(list) && fresh(list.nodes)
      invariant ItemsOf(list.nodes) == items[..i]
    {
      var _ := AddItem(list, items[i]);
    }
  }

  method AddItem<T>(list: List<T>, item: T) returns (node: Node<T>)
    requires list.Valid()
    modifies list, list.nodes
    ensures list.Valid() && fresh(node) && node.item == item && list.nodes == old(list.nodes) + [node]
  {
    node := new Node(item);
    list.Add(node);
  }

  /** Lists the stored backtraces with their sums, bucket by bucket. */
  method CollectLeaks(store: Store) returns (leaks: seq<LeakRef>)
    requires store.Valid()
    ensures Lists(StoredTraces(store), store) && leaks == Summaries(StoredTraces(store))
  {
    var listed := ListTraces(store.table);
    BucketedMembers(store.table, store.table.buckets.Length);
    leaks := SummarizeAll(listed);
  }

  lemma NodesTotal(order: LeakOrder, nodes: seq<Node<LeakRef>>)
    requires TotalOn(Members(ItemsOf(nodes)), CompareLeaks(order))
    ensures TotalOn(Members(nodes), CompareNodes(order))
  {
    forall x | x in nodes ensures x.item in ItemsOf(nodes) {
      var i :| 0 <= i < |nodes| && nodes[i] == x;
      assert ItemsOf(nodes)[i] == x.item;
    }
  }

  lemma {:induction false} ItemsPermute<T>(a: seq<Node<T>>, b: seq<Node<T>>)
    requires multiset(a) == multiset(b)
    ensures multiset(ItemsOf(a)) == multiset(ItemsOf(b))
    decreases |a|
  {
    assert |a| == |multiset(a)| && |b| == |multiset(b)|;
    if a == [] {
      assert ItemsOf(a) == [] && ItemsOf(b) == [];
    } else {
      var k := FindHead(a, b);
      ItemsPermute(a[1..], b[..k] + b[k + 1..]);
      ItemsWithout(b, k);
      MultisetHead(ItemsOf(a));
      assert ItemsOf(a)[1..] == ItemsOf(a[1..]);
    }
  }

  lemma ItemsWithout<T>(s: seq<Node<T>>, k: nat)
    requires k < |s|
    ensures multiset(ItemsOf(s)) == multiset{s[k].item} + multiset(ItemsOf(s[..k] + s[k + 1..]))
  {
    SplitAt(ItemsOf(s), k);
    assert ItemsOf(s)[..k] + ItemsOf(s)[k + 1..] == ItemsOf(s[..k] + s[k + 1..]);
  }

  /** Sorts the figures in a linked list. */
  method SortLeaks(leaks: seq<LeakRef>, order: LeakOrder)
    returns (sorted: List<LeakRef>, ghost added: seq<Node<LeakRef>>)
    requires TotalOn(Members(leaks), CompareLeaks(order))
    ensures sorted.Valid() && ItemsOf(added) == leaks && StableSortOf(sorted.nodes, added, CompareNodes(order))
  {
    sorted := ListOf(leaks);
    added := sorted.nodes;
    NodesTotal(order, added);
    sorted.Sort(CompareNodes(order));
  }

  /** The stored backtraces, bucket by bucket. */
  ghost function StoredTraces(store: Store): seq<FTrace>
    reads store.table, store.table.buckets
  {
    Bucketed(store.table.buckets[..], store.table.buckets.Length)
  }

  /** In order by the leaks themselves. */
  ghost predicate InLeakOrder(order: LeakOrder, ls: seq<LeakRef>)
    reads set i | 0 <= i < |ls| :: ls[i].trace
  {
    forall i, j :: 0 <= i < j < |ls| ==> MayPrecede(order, ls[i].trace, ls[j].trace)
  }

  ghost predicate MayPrecede(order: LeakOrder, s: FTrace, t: FTrace)
    reads s, t
  {
    match order
    case SizeAscending => FullSize(s) <= FullSize(t)
    case SizeDescending => FullSize(s) >= FullSize(t)
    case CountAscending => FullCount(s) <= FullCount(t)
    case CountDescending => FullCount(s) >= FullCount(t)
  }

  lemma SortedByLeaks(order: LeakOrder, ts: seq<FTrace>, ls: seq<LeakRef>)
    requires AllRight(order, ts) && Sorted(ls, CompareLeaks(order)) && multiset(ls) == multiset(Summaries(ts))
    ensures InLeakOrder(order, ls)
  {
    SameMembers(ls, Summaries(ts));
    forall i, j | 0 <= i < j < |ls| ensures MayPrecede(order, ls[i].trace, ls[j].trace) {
      var k, m := TraceOf(ts, ls[i]), TraceOf(ts, ls[j]);
      assert RightSign(order, ts[k], ts[m]);
    }
  }

  /**
   One figure for every stored backtrace, sorted by comparing figures; where all comparisons are right, in
   the order of the leaks themselves.
   */
  method SortStoreLeaks(store: Store, order: LeakOrder) returns (sorted: List<LeakRef>)
    requires store.Valid() && TotalOn(Members(Summaries(StoredTraces(store))), CompareLeaks(order))
    ensures sorted.Valid() && Lists(StoredTraces(store), store)
    ensures multiset(ItemsOf(sorted.nodes)) == multiset(Summaries(StoredTraces(store)))
    ensures Sorted(ItemsOf(sorted.nodes), CompareLeaks(order))
    ensures AllRight(order, StoredTraces(store)) ==> InLeakOrder(order, ItemsOf(sorted.nodes))
  {
    ghost var ts := StoredTraces(store);
    ghost var all := Summaries(ts);
    var leaks := CollectLeaks(store);
    assert leaks == all;
    ghost var added;
    sorted, added := SortLeaks(leaks, order);
    assert StoredTraces(store) == ts && Summaries(ts) == all;
    ListingSorted(order, leaks, added, sorted.nodes);
    if AllRight(order, ts) { SortedByLeaks(order, ts, ItemsOf(sorted.nodes)); }
  }

  lemma ListingSorted(order: LeakOrder, leaks: seq<LeakRef>, added: seq<Node<LeakRef>>, nodes: seq<Node<LeakRef>>)
    requires ItemsOf(added) == leaks && StableSortOf(nodes, added, CompareNodes(order))
    ensures multiset(ItemsOf(nodes)) == multiset(leaks) && Sorted(ItemsOf(nodes), CompareLeaks(order))
  {
    ItemsPermute(nodes, added);
    forall i, j | 0 <= i < j < |nodes| ensures CompareLeaks(order)(ItemsOf(nodes)[i], ItemsOf(nodes)[j]) <= 0 {
      assert CompareNodes(order)(nodes[i], nodes[j]) <= 0;
    }
  }
}
