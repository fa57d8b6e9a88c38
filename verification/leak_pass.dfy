/**
 The leak filter on the linked list of calls: one walk that removes the current call or calls it has
 already passed, with a hash table from resources to the allocations that hold them.
 */
module LeakPass {
  import opened TraceTypes
  import opened Ordering
  import opened DList
  import opened HTable
  import opened LeakFilter

  /** What the index records for a resource: the holding call and its reference count. */
  datatype Holding<!T> = Holding(call: Node<T>, count: int)

  type ResourceTable<!T> = Table<Key, Holding<T>>

  /** Folds a value into a 16-bit hash, three bits at a time. */
  function FoldHash(hash: bv16, value: nat): bv16
    decreases value
  {
    if value == 0 then hash else FoldHash(hash ^ ((value % 0x10000) as bv16), value / 8)
  }

  function ResHash(k: Key): nat {
    var h := FoldHash(0, k.1);
    (if k.0.Some? then FoldHash(h, k.0.value.id) else h) as nat
  }

  const HASH_SIZE: nat := 0x10000

  ghost function CallsOf<T>(all: seq<Node<T>>, info: T -> Call): (s: seq<Call>)
    ensures |s| == |all|
  {
    seq(|all|, i requires 0 <= i < |all| => info(all[i].item))
  }

  ghost predicate Ascending(kept: seq<nat>, n: nat) {
    && (forall i :: 0 <= i < |kept| ==> kept[i] < n)
    && (forall i, j :: 0 <= i < j < |kept| ==> kept[i] < kept[j])
  }

  ghost function NodesAt<X>(all: seq<X>, kept: seq<nat>): (r: seq<X>)
    requires Ascending(kept, |all|)
    ensures |r| == |kept|
  {
    seq(|kept|, i requires 0 <= i < |kept| => all[kept[i]])
  }

  /** The list after the first `n` of the calls `all`: the kept ones, then those still to come. */
  ghost predicate ListHolds<X>(nodes: seq<X>, all: seq<X>, n: nat, kept: seq<nat>) {
    && n <= |all| && Ascending(kept, n)
    && nodes == NodesAt(all, kept) + all[n..]
  }

  /** The table holds the entries of `index`. */
  ghost predicate TableHolds<T>(table: ResourceTable<T>, all: seq<Node<T>>, index: map<Key, Entry>)
    reads table, table.repr
  {
    && table.index.Keys == index.Keys
    && (forall k :: k in index ==>
          table.index[k] in table.repr && index[k].pos < |all| && table.index[k].value == Holding(all[index[k].pos], index[k].count))
  }

  lemma {:induction false} DropIsWithout(kept: seq<nat>, n: nat, i: nat)
    requires Ascending(kept, n) && i < |kept|
    ensures Drop(kept, kept[i]) == Without(kept, i)
  {
    if i == 0 {
      DropNothing(kept[1..], kept[0]);
      assert Without(kept, 0) == kept[1..];
    } else {
      var rest := kept[1..];
      assert Ascending(rest, n) && kept[i] == rest[i - 1] && kept[0] != kept[i];
      DropIsWithout(rest, n, i - 1);
      WithoutFirst(kept, i);
    }
  }

  lemma WithoutFirst(kept: seq<nat>, i: nat)
    requires 0 < i < |kept|
    ensures Without(kept, i) == [kept[0]] + Without(kept[1..], i - 1)
  {
  }

  lemma WithoutAscends(kept: seq<nat>, n: nat, i: nat)
    requires Ascending(kept, n) && i < |kept|
    ensures Ascending(Without(kept, i), n)
  {
  }

  lemma {:induction false} DropNothing(kept: seq<nat>, p: nat)
    requires forall i :: 0 <= i < |kept| ==> kept[i] != p
    ensures Drop(kept, p) == kept
  {
    if kept != [] { DropNothing(kept[1..], p); }
  }

  /** Takes the call at position `i` of the kept ones out of the list. */
  method RemoveKept<T>(calls: List<T>, node: Node<T>, ghost all: seq<Node<T>>, ghost n: nat, ghost kept: seq<nat>, ghost i: nat)
    requires calls.Valid() && ListHolds(calls.nodes, all, n, kept) && i < |kept| && node == all[kept[i]]
    modifies calls, all
    ensures calls.Valid() && ListHolds(calls.nodes, all, n, Drop(kept, kept[i]))
  {
    WithoutKept(all, n, kept, i);
    Neighbours(calls.nodes, i, all, n, kept);
    calls.Remove(node, i);
  }

  lemma WithoutKept<X>(all: seq<X>, n: nat, kept: seq<nat>, i: nat)
    requires n <= |all| && Ascending(kept, n) && i < |kept|
    ensures (NodesAt(all, kept) + all[n..])[i] == all[kept[i]]
    ensures ListHolds(Without(NodesAt(all, kept) + all[n..], i), all, n, Drop(kept, kept[i]))
  {
    DropIsWithout(kept, n, i);
    WithoutAscends(kept, n, i);
    WithoutConcat(NodesAt(all, kept), all[n..], i);
    NodesWithout(all, kept, i);
  }

  lemma NodesWithout<X>(all: seq<X>, kept: seq<nat>, i: nat)
    requires Ascending(kept, |all|) && i < |kept| && Ascending(Without(kept, i), |all|)
    ensures NodesAt(all, Without(kept, i)) == Without(NodesAt(all, kept), i)
  {
  }

  lemma WithoutConcat<X>(a: seq<X>, b: seq<X>, i: nat)
    requires i < |a|
    ensures Without(a + b, i) == Without(a, i) + b
  {
  }

  lemma Neighbours<T>(s: seq<Node<T>>, i: nat, all: seq<Node<T>>, n: nat, kept: seq<nat>)
    requires Closed(s) && i < |s| && ListHolds(s, all, n, kept)
    ensures s[i].prev != null ==> s[i].prev in all
    ensures s[i].next != null ==> s[i].next in all
  {
    forall j | 0 <= j < |s| ensures s[j] in all {
      if j >= |kept| { assert s[j] == all[n..][j - |kept|]; }
    }
  }

  /** Takes the current call, which follows the kept ones, out of the list. */
  method RemoveCurrent<T>(calls: List<T>, current: Node<T>, ghost all: seq<Node<T>>, ghost n: nat, ghost kept: seq<nat>)
    requires calls.Valid() && ListHolds(calls.nodes, all, n, kept) && n < |all| && current == all[n]
    modifies calls, all
    ensures calls.Valid() && ListHolds(calls.nodes, all, n + 1, kept)
  {
    WithoutCurrent(calls.nodes, all, n, kept);
    Neighbours(calls.nodes, |kept|, all, n, kept);
    calls.Remove(current, |kept|);
  }

  lemma WithoutCurrent<X>(nodes: seq<X>, all: seq<X>, n: nat, kept: seq<nat>)
    requires ListHolds(nodes, all, n, kept) && n < |all|
    ensures |nodes| > |kept| && nodes[|kept|] == all[n] && ListHolds(Without(nodes, |kept|), all, n + 1, kept)
  {
    assert Without(nodes, |kept|) == NodesAt(all, kept) + all[n + 1..];
  }

  lemma KeepCurrent<X>(nodes: seq<X>, all: seq<X>, n: nat, kept: seq<nat>)
    requires ListHolds(nodes, all, n, kept) && n < |all|
    ensures ListHolds(nodes, all, n + 1, kept + [n])
  {
    assert NodesAt(all, kept + [n]) == NodesAt(all, kept) + [all[n]];
    assert all[n..] == [all[n]] + all[n + 1..];
  }

  /** Changes the reference count of an indexed resource. */
  method SetCount<T>(table: ResourceTable<T>, res: HNode<Key, Holding<T>>, count: int,
                     ghost all: seq<Node<T>>, ghost index: map<Key, Entry>)
    requires table.Valid() && TableHolds(table, all, index)
    requires res.key in table.index && table.index[res.key] == res
    modifies res`value
    ensures table.Valid() && TableHolds(table, all, index[res.key := index[res.key].(count := count)])
  {
    res.value := res.value.(count := count);
  }

  /** Makes the current call the holder of its resource. */
  method Hold<T>(table: ResourceTable<T>, key: Key, current: Node<T>,
                 ghost all: seq<Node<T>>, ghost n: nat, ghost index: map<Key, Entry>)
    requires table.Valid() && TableHolds(table, all, index) && n < |all| && current == all[n]
    modifies table, table.buckets
    ensures table.Valid() && TableHolds(table, all, index[key := Entry(n, 1)])
    ensures fresh(table.repr - old(table.repr))
  {
    var node := new HNode(key, Holding(current, 1));
    var _ := table.Store(node);
  }

  /** Takes a resource out of the index. */
  method Release<T>(table: ResourceTable<T>, res: HNode<Key, Holding<T>>,
                    ghost all: seq<Node<T>>, ghost index: map<Key, Entry>)
    requires table.Valid() && TableHolds(table, all, index)
    requires res.key in table.index && table.index[res.key] == res
    modifies table, table.buckets
    ensures table.Valid() && TableHolds(table, all, index - {res.key})
    ensures table.repr == old(table.repr)
  {
    table.RemoveNode(res);
  }

  /** Every indexed call is still in the list, and a plain resource is counted once. */
  ghost predicate IndexedKept(st: State) {
    forall k :: k in st.index ==> st.index[k].pos in st.kept && (!IsCounted(k) ==> st.index[k].count == 1)
  }

  /** The source reads the resource type of an allocation whose resource is indexed already. */
  ghost predicate TypeKnown(c: Call, st: State) {
    c.kind.Alloc? && KeyOf(c) in st.index ==> c.resource.Some?
  }

  /** What the call does to the list: the earlier call that goes, and whether the call itself stays. */
  datatype Verdict<!T> = Verdict(gone: Option<Node<T>>, stays: bool)

  ghost predicate Judges<T>(v: Verdict<T>, c: Call, all: seq<Node<T>>, st: State) {
    && (v.gone.Some? <==> Releases(c, st.index))
    && (v.gone.Some? ==> st.index[KeyOf(c)].pos < |all| && v.gone.value == all[st.index[KeyOf(c)].pos])
    && (v.stays <==> c.kind.Other? || (c.kind.Alloc? && !(KeyOf(c) in st.index && IsCounted(KeyOf(c)))))
  }

  /** The deallocation of an indexed resource: count it down, and let its allocation go at zero. */
  method CountDown<T>(table: ResourceTable<T>, c: Call, res: HNode<Key, Holding<T>>,
                      ghost all: seq<Node<T>>, ghost n: nat, ghost st: State)
    returns (gone: Option<Node<T>>)
    requires table.Valid() && IndexedKept(st) && c.kind.Free? && TableHolds(table, all, st.index)
    requires KeyOf(c) in table.index && table.index[KeyOf(c)] == res
    modifies table, table.buckets, res
    ensures table.Valid() && table.repr == old(table.repr)
    ensures TableHolds(table, all, Step(st, c, n).index) && Judges(Verdict(gone, false), c, all, st)
  {
    var call, count := res.value.call, res.value.count - 1;
    CountsDown(table, c, res, all, n, st);
    SetCount(table, res, count, all, st.index);
    if count == 0 || !c.resource.value.refCounted {
      Release(table, res, all, Counted(st, KeyOf(c)));
      gone := Some(call);
    } else {
      gone := None;
    }
  }

  /** The index with one count of a resource taken away. */
  ghost function Counted(st: State, k: Key): map<Key, Entry>
    requires k in st.index
  {
    st.index[k := st.index[k].(count := st.index[k].count - 1)]
  }

  lemma CountsDown<T>(table: ResourceTable<T>, c: Call, res: HNode<Key, Holding<T>>, all: seq<Node<T>>, n: nat, st: State)
    requires IndexedKept(st) && c.kind.Free? && TableHolds(table, all, st.index)
    requires KeyOf(c) in table.index && table.index[KeyOf(c)] == res
    ensures KeyOf(c) in st.index && res.value.count == st.index[KeyOf(c)].count
    ensures st.index[KeyOf(c)].pos < |all| && res.value.call == all[st.index[KeyOf(c)].pos]
    ensures res.value.count - 1 != 0 ==> c.resource.Some?
    ensures Releases(c, st.index) <==> res.value.count - 1 == 0 || !IsCounted(KeyOf(c))
    ensures Step(st, c, n).index == if Releases(c, st.index) then Counted(st, KeyOf(c)) - {KeyOf(c)} else Counted(st, KeyOf(c))
  {
    var k := KeyOf(c);
    assert k in st.index;
    assert Counted(st, k) - {k} == st.index - {k};
  }

  /** The allocation of a resource: count it up if it is counted and held already, else hold it. */
  method CountUp<T>(table: ResourceTable<T>, current: Node<T>, c: Call, res: Option<HNode<Key, Holding<T>>>,
                    ghost all: seq<Node<T>>, ghost n: nat, ghost st: State)
    returns (stays: bool)
    requires table.Valid() && c.kind.Alloc? && TypeKnown(c, st) && TableHolds(table, all, st.index)
    requires res == if KeyOf(c) in table.index then Some(table.index[KeyOf(c)]) else None
    requires n < |all| && current == all[n]
    modifies table, table.buckets, table.repr
    ensures table.Valid() && fresh(table.repr - old(table.repr))
    ensures TableHolds(table, all, Step(st, c, n).index) && Judges(Verdict(None, stays), c, all, st)
  {
    if res.Some? && c.resource.value.refCounted {
      SetCount(table, res.value, res.value.value.count + 1, all, st.index);
      stays := false;
    } else {
      Hold(table, KeyOf(c), current, all, n, st.index);
      stays := true;
    }
  }

  /**
   Updates the index for one call. An allocation without a resource type that finds its resource indexed
   is read through a null pointer.
   */
  method UpdateIndex<T>(table: ResourceTable<T>, current: Node<T>, c: Call,
                        ghost all: seq<Node<T>>, ghost n: nat, ghost st: State)
    returns (crash: bool, v: Verdict<T>)
    requires table.Valid() && IndexedKept(st) && TableHolds(table, all, st.index)
    requires n < |all| && current == all[n]
    modifies table, table.buckets, table.repr
    ensures table.Valid() && fresh(table.repr - old(table.repr)) && (crash <==> !TypeKnown(c, st))
    ensures !crash ==> TableHolds(table, all, Step(st, c, n).index) && Judges(v, c, all, st)
  {
    var res := table.Find(KeyOf(c));
    crash := false;
    if c.kind.Alloc? {
      if res.Some? && c.resource.None? {
        return true, Verdict(None, false);
      }
      var stays := CountUp(table, current, c, res, all, n, st);
      v := Verdict(None, stays);
    } else if c.kind.Free? && res.Some? {
      var gone := CountDown(table, c, res.value, all, n, st);
      v := Verdict(gone, false);
    } else {
      v := Verdict(None, c.kind.Other?);
    }
  }

  /** Updates the list for one call. */
  method UpdateList<T>(calls: List<T>, current: Node<T>, c: Call, v: Verdict<T>,
                       ghost all: seq<Node<T>>, ghost n: nat, ghost st: State)
    requires calls.Valid() && IndexedKept(st) && Judges(v, c, all, st)
    requires ListHolds(calls.nodes, all, n, st.kept) && n < |all| && current == all[n]
    modifies calls, all
    ensures calls.Valid() && ListHolds(calls.nodes, all, n + 1, Step(st, c, n).kept)
  {
    ghost var kept := st.kept;
    if v.gone.Some? {
      ghost var i :| 0 <= i < |kept| && kept[i] == st.index[KeyOf(c)].pos;
      RemoveKept(calls, v.gone.value, all, n, kept, i);
      kept := Drop(kept, kept[i]);
    }
    if v.stays {
      KeepCurrent(calls.nodes, all, n, kept);
    } else {
      RemoveCurrent(calls, current, all, n, kept);
    }
  }

  /** What the callback does with one call. */
  method RemoveFreed<T>(calls: List<T>, table: ResourceTable<T>, current: Node<T>, c: Call,
                        ghost all: seq<Node<T>>, ghost n: nat, ghost st: State)
    returns (crash: bool)
    requires calls.Valid() && table.Valid() && IndexedKept(st)
    requires ListHolds(calls.nodes, all, n, st.kept) && TableHolds(table, all, st.index)
    requires n < |all| && current == all[n]
    modifies calls, all, table, table.buckets, table.repr
    ensures calls.Valid() && table.Valid() && fresh(table.repr - old(table.repr)) && (crash <==> !TypeKnown(c, st))
    ensures !crash ==> ListHolds(calls.nodes, all, n + 1, Step(st, c, n).kept)
    ensures !crash ==> TableHolds(table, all, Step(st, c, n).index)
  {
    var v;
    crash, v := UpdateIndex(table, current, c, all, n, st);
    if !crash {
      UpdateList(calls, current, c, v, all, n, st);
    }
  }

  lemma {:induction false} SurvivorListed(s: seq<Call>, p: nat, n: nat)
    requires p < n <= |s| && Survives(s, p)
    ensures p in Survivors(s, n)
  {
    if p < n - 1 { SurvivorListed(s, p, n - 1); }
  }

  /** The index never points at a call that has left the list. */
  lemma RunKeepsIndexed(s: seq<Call>)
    ensures IndexedKept(Run(s)) && Ascending(Run(s).kept, |s|)
  {
    RunExact(s);
    SurvivorsAscend(s, |s|);
    forall k | k in Run(s).index
      ensures Run(s).index[k].pos in Run(s).kept && (!IsCounted(k) ==> Run(s).index[k].count == 1)
    {
      assert ExactFor(s, Run(s).index, k);
      assert Holds(s, k, Run(s).index[k].pos);
      SurvivorListed(s, Run(s).index[k].pos, |s|);
    }
  }

  /** No allocation without a resource type meets a resource that is still held. */
  ghost predicate TypesSuffice(s: seq<Call>) {
    forall n :: 0 <= n < |s| && s[n].kind.Alloc? && s[n].resource.None? ==> !IsHeld(s[..n], (None, s[n].resId))
  }

  lemma HeldIsIndexed(s: seq<Call>, k: Key)
    ensures k in Run(s).index <==> IsHeld(s, k)
  {
    RunExact(s);
    var index := Run(s).index;
    assert ExactFor(s, index, k);
    if k in index { HolderIsHeld(s, k, index[k].pos); }
  }

  /** Each of the first `n` calls finds a resource type where the callback reads one. */
  ghost predicate KnownUpTo(s: seq<Call>, n: nat)
    requires n <= |s|
  {
    forall m :: 0 <= m < n ==> TypeKnown(s[m], Run(s[..m]))
  }

  lemma Unknown(s: seq<Call>, n: nat)
    requires n < |s|
    ensures !TypeKnown(s[n], Run(s[..n])) ==> !KnownUpTo(s, |s|)
    ensures TypeKnown(s[n], Run(s[..n])) && KnownUpTo(s, n) ==> KnownUpTo(s, n + 1)
  {
  }

  /** The condition on the list is the one that the callback meets at each call. */
  lemma TypesSufficeExactly(s: seq<Call>)
    ensures TypesSuffice(s) <==> KnownUpTo(s, |s|)
  {
    forall n | 0 <= n < |s|
      ensures TypeKnown(s[n], Run(s[..n]))
         <==> (s[n].kind.Alloc? && s[n].resource.None? ==> !IsHeld(s[..n], KeyOf(s[n])))
    {
      HeldIsIndexed(s[..n], KeyOf(s[n]));
    }
  }

  /** Two allocations of one id without a resource type do not suffice. */
  lemma UntypedTwice(c: Call, d: Call)
    requires c.kind.Alloc? && d.kind.Alloc? && c.resource == d.resource == None && c.resId == d.resId
    ensures !TypesSuffice([c, d])
  {
    assert [c, d][..1] == [c];
    assert LastTouch([c], KeyOf(d)) == 0;
    assert IsHeld([c, d][..1], KeyOf([c, d][1]));
  }

  lemma RunStep(s: seq<Call>, n: nat)
    requires n < |s|
    ensures Run(s[..n + 1]) == Step(Run(s[..n]), s[n], n)
  {
    assert s[..n + 1][..n] == s[..n];
  }

  lemma NextToVisit<T>(nodes: seq<Node<T>>, all: seq<Node<T>>, n: nat, kept: seq<nat>)
    requires Closed(nodes) && ListHolds(nodes, all, n, kept) && n < |all|
    ensures all[n].next == if n + 1 < |all| then all[n + 1] else null
  {
    assert nodes[|kept|] == all[n];
    if n + 1 < |all| { assert nodes[|kept| + 1] == all[n + 1]; }
  }

  /** List and table are as the first `n` calls of `s` leave them. */
  ghost predicate Reached<T>(nodes: seq<Node<T>>, table: ResourceTable<T>, all: seq<Node<T>>, s: seq<Call>, n: nat)
    reads table, table.repr
  {
    && n <= |s| && KnownUpTo(s, n)
    && ListHolds(nodes, all, n, Run(s[..n]).kept) && TableHolds(table, all, Run(s[..n]).index)
  }

  /**
   Removes freed allocations and all deallocations. The walk reads the next node before each callback,
   and visits every call of the original list once although the list shrinks under it. It reads through
   a null pointer if and only if an allocation without a resource type meets a resource still held.
   */
  method FilterLeaks<T>(calls: List<T>, info: T -> Call) returns (crash: bool)
    requires calls.Valid()
    modifies calls, calls.nodes
    ensures calls.Valid() && (crash <==> !TypesSuffice(CallsOf(old(calls.nodes), info)))
    ensures Ascending(Survivors(CallsOf(old(calls.nodes), info), |old(calls.nodes)|), |old(calls.nodes)|)
    ensures !crash ==>
      calls.nodes == NodesAt(old(calls.nodes), Survivors(CallsOf(old(calls.nodes), info), |old(calls.nodes)|))
  {
    ghost var all := calls.nodes;
    ghost var s := CallsOf(all, info);
    var table := new Table<Key, Holding<T>>(HASH_SIZE, ResHash);
    assert NodesAt(all, []) + all[0..] == all;
    crash := WalkCalls(calls, table, info, all, s);
    TypesSufficeExactly(s);
    SurvivorsAscend(s, |s|);
    if !crash { ListAtEnd(calls.nodes, all, s); }
  }

  lemma ListAtEnd<X>(nodes: seq<X>, all: seq<X>, s: seq<Call>)
    requires |all| == |s| && ListHolds(nodes, all, |s|, Run(s[..|s|]).kept)
    ensures Ascending(Survivors(s, |s|), |all|) && nodes == NodesAt(all, Survivors(s, |s|))
  {
    assert s[..|s|] == s && all[|s|..] == [];
    RunExact(s);
  }

  lemma CallAt<T>(all: seq<Node<T>>, info: T -> Call, n: nat)
    requires n < |all|
    ensures CallsOf(all, info)[n] == info(all[n].item)
  {
  }

  /** Hands every call of the list to the callback. */
  method WalkCalls<T>(calls: List<T>, table: ResourceTable<T>, info: T -> Call, ghost all: seq<Node<T>>, ghost s: seq<Call>)
    returns (crash: bool)
    requires calls.Valid() && table.Valid() && calls.nodes == all && s == CallsOf(all, info)
    requires Reached(all, table, all, s, 0)
    modifies calls, all, table, table.buckets, table.repr
    ensures calls.Valid() && (crash <==> !KnownUpTo(s, |s|)) && (!crash ==> Reached(calls.nodes, table, all, s, |s|))
  {
    var node := calls.tail;
    ghost var n := 0;
    crash := false;
    while node != null
      invariant n <= |all| == |s| && node == if n < |all| then all[n] else null
      invariant calls.Valid() && table.Valid() && forall o :: o in table.repr ==> o in old(table.repr) || fresh(o)
      invariant Reached(calls.nodes, table, all, s, n)
      decreases |all| - n
    {
      var c := info(node.item);
      CallAt(all, info, n);
      crash, node := Visit(calls, table, node, c, all, n, s);
      if crash {
        return;
      }
      n := n + 1;
    }
    assert n == |s|;
  }

  /** Reads the next node, then lets the callback have the current one. */
  method Visit<T>(calls: List<T>, table: ResourceTable<T>, current: Node<T>, c: Call,
                  ghost all: seq<Node<T>>, ghost n: nat, ghost s: seq<Call>)
    returns (crash: bool, next: Node?<T>)
    requires calls.Valid() && table.Valid() && n < |all| == |s| && current == all[n] && c == s[n]
    requires Reached(calls.nodes, table, all, s, n)
    modifies calls, all, table, table.buckets, table.repr
    ensures next == if n + 1 < |all| then all[n + 1] else null
    ensures calls.Valid() && table.Valid() && forall o :: o in table.repr ==> o in old(table.repr) || fresh(o)
    ensures if crash then !KnownUpTo(s, |s|) else Reached(calls.nodes, table, all, s, n + 1)
  {
    NextToVisit(calls.nodes, all, n, Run(s[..n]).kept);
    next := current.next;
    RunKeepsIndexed(s[..n]);
    RunStep(s, n);
    Unknown(s, n);
    crash := RemoveFreed(calls, table, current, c, all, n, Run(s[..n]));
  }
}
