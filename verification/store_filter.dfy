/**
 The leak filter on the whole store: the calls that go take their references with them, and the
 backtraces that nobody uses any more.
 */
module StoreFilter {
  import opened TraceTypes
  import opened Ordering
  import opened DList
  import opened HTable
  import opened LeakFilter
  import opened LeakPass
  import opened TraceStore

  ghost function DataOf(calls: seq<FCall>): (s: seq<Call>)
    ensures |s| == |calls| && forall i :: 0 <= i < |s| ==> s[i] == calls[i].data
  {
    seq(|calls|, i requires 0 <= i < |calls| => calls[i].data)
  }

  /** The call that holds a resource and its reference count. */
  datatype Held = Held(call: FCall, count: int)

  ghost predicate IndexHolds(index: map<Key, Held>, all: seq<FCall>, entries: map<Key, Entry>) {
    && index.Keys == entries.Keys
    && forall k :: k in entries ==> entries[k].pos < |all| && index[k] == Held(all[entries[k].pos], entries[k].count)
  }

  /** The backtraces of a valid store are those of its calls. */
  lemma BacktracesInUse(store: Store)
    requires store.Valid()
    ensures forall k :: k in store.table.index <==> exists c :: c in store.calls && c.trace != null && c.trace.key == k
  {
    forall k | k in store.table.index ensures exists c :: c in store.calls && c.trace != null && c.trace.key == k {
      var t := store.table.index[k];
      assert store.TraceSound(t) && t.value.calls[0] in t.value.calls;
    }
    forall c | c in store.calls && c.trace != null ensures c.trace.key in store.table.index {
      assert store.CallSound(c);
    }
  }

  /** Takes the call at position `k` out of the store. */
  method Remove(store: Store, c: FCall, ghost k: nat)
    requires store.Valid() && k < |store.calls| && store.calls[k] == c
    modifies store, store.table, store.table.buckets, store.table.repr
    ensures store.Valid() && store.calls == Without(old(store.calls), k) && store.table.repr == old(store.table.repr)
  {
    var i := 0;
    while store.calls[i] != c
      invariant i <= k && forall j :: 0 <= j < i ==> store.calls[j] != c
      decreases k - i
    {
      i := i + 1;
    }
    store.FcallRemove(c, i);
  }

  /** Takes a kept call out. */
  method RemoveHeld(store: Store, c: FCall, ghost all: seq<FCall>, ghost n: nat, ghost kept: seq<nat>, ghost pos: nat)
    requires store.Valid() && ListHolds(store.calls, all, n, kept) && pos in kept && c == all[pos]
    modifies store, store.table, store.table.buckets, store.table.repr
    ensures store.Valid() && store.table.repr == old(store.table.repr) && ListHolds(store.calls, all, n, Drop(kept, pos))
  {
    ghost var i :| 0 <= i < |kept| && kept[i] == pos;
    WithoutKept(all, n, kept, i);
    Remove(store, c, i);
  }

  /** Takes the current call out. */
  method RemoveCurrentCall(store: Store, c: FCall, ghost all: seq<FCall>, ghost n: nat, ghost kept: seq<nat>)
    requires store.Valid() && ListHolds(store.calls, all, n, kept) && n < |all| && c == all[n]
    modifies store, store.table, store.table.buckets, store.table.repr
    ensures store.Valid() && store.table.repr == old(store.table.repr) && ListHolds(store.calls, all, n + 1, kept)
  {
    WithoutCurrent(store.calls, all, n, kept);
    Remove(store, c, |kept|);
  }

  /** The index after one more call; only a call whose resource is counted reads the count. */
  function NextIndex(index: map<Key, Held>, c: FCall): map<Key, Held> {
    var key := KeyOf(c.data);
    match c.data.kind
    case Other => index
    case Alloc =>
      if key in index && IsCounted(key) then index[key := index[key].(count := index[key].count + 1)]
      else index[key := Held(c, 1)]
    case Free =>
      if key !in index then index
      else if Lets(index, c) then index - {key}
      else index[key := index[key].(count := index[key].count - 1)]
  }

  /** The call frees its resource for good. */
  predicate Lets(index: map<Key, Held>, c: FCall) {
    var key := KeyOf(c.data);
    c.data.kind.Free? && key in index && (index[key].count - 1 == 0 || !IsCounted(key))
  }

  lemma NextIndexHolds(index: map<Key, Held>, all: seq<FCall>, st: State, n: nat)
    requires n < |all| && IndexHolds(index, all, st.index)
    ensures IndexHolds(NextIndex(index, all[n]), all, Step(st, all[n].data, n).index)
    ensures Lets(index, all[n]) <==> Releases(all[n].data, st.index)
  {
  }

  /** An allocation stays unless it counts up a resource that is held. */
  predicate Goes(index: map<Key, Held>, c: FCall) {
    c.data.kind.Free? || (c.data.kind.Alloc? && KeyOf(c.data) in index && IsCounted(KeyOf(c.data)))
  }

  /** What the callback does with one call. */
  method FilterCall(store: Store, index: map<Key, Held>, c: FCall, ghost all: seq<FCall>, ghost n: nat, ghost st: State)
    returns (crash: bool, next: map<Key, Held>)
    requires store.Valid() && IndexedKept(st) && ListHolds(store.calls, all, n, st.kept) && IndexHolds(index, all, st.index)
    requires n < |all| && c == all[n]
    modifies store, store.table, store.table.buckets, store.table.repr
    ensures store.Valid() && store.table.repr == old(store.table.repr) && (crash <==> !TypeKnown(c.data, st))
    ensures !crash ==> IndexHolds(next, all, Step(st, c.data, n).index)
    ensures !crash ==> ListHolds(store.calls, all, n + 1, Step(st, c.data, n).kept)
  {
    var key := KeyOf(c.data);
    if c.data.kind.Alloc? && key in index && c.data.resource.None? {
      return true, index;
    }
    NextIndexHolds(index, all, st, n);
    crash, next := false, NextIndex(index, c);
    FilterList(store, index, c, all, n, st);
  }

  /** Takes out the call that is freed, and the current one unless it stays. */
  method FilterList(store: Store, index: map<Key, Held>, c: FCall, ghost all: seq<FCall>, ghost n: nat, ghost st: State)
    requires store.Valid() && IndexedKept(st) && ListHolds(store.calls, all, n, st.kept) && IndexHolds(index, all, st.index)
    requires n < |all| && c == all[n]
    modifies store, store.table, store.table.buckets, store.table.repr
    ensures store.Valid() && store.table.repr == old(store.table.repr)
    ensures ListHolds(store.calls, all, n + 1, Step(st, c.data, n).kept)
  {
    ghost var kept := st.kept;
    if Lets(index, c) {
      RemoveHeld(store, index[KeyOf(c.data)].call, all, n, kept, st.index[KeyOf(c.data)].pos);
      kept := Drop(kept, st.index[KeyOf(c.data)].pos);
    }
    if Goes(index, c) {
      RemoveCurrentCall(store, c, all, n, kept);
    } else {
      KeepCurrent(store.calls, all, n, kept);
    }
  }

  /** Store and index are as the first `n` calls of `s` leave them. */
  ghost predicate StoreReached(calls: seq<FCall>, index: map<Key, Held>, all: seq<FCall>, s: seq<Call>, n: nat) {
    && n <= |s| && KnownUpTo(s, n)
    && ListHolds(calls, all, n, Run(s[..n]).kept) && IndexHolds(index, all, Run(s[..n]).index)
  }

  /** One turn of the walk. */
  method VisitCall(store: Store, index: map<Key, Held>, c: FCall, ghost all: seq<FCall>, ghost s: seq<Call>, ghost n: nat)
    returns (crash: bool, next: map<Key, Held>)
    requires store.Valid() && s == DataOf(all) && n < |all| && c == all[n] && StoreReached(store.calls, index, all, s, n)
    modifies store, store.table, store.table.buckets, store.table.repr
    ensures store.Valid() && store.table.repr == old(store.table.repr)
    ensures if crash then !KnownUpTo(s, |s|) else StoreReached(store.calls, next, all, s, n + 1)
  {
    RunKeepsIndexed(s[..n]);
    RunStep(s, n);
    Unknown(s, n);
    crash, next := FilterCall(store, index, c, all, n, Run(s[..n]));
  }

  /** Hands every call of the store to the callback. */
  method WalkStore(store: Store, ghost s: seq<Call>) returns (crash: bool)
    requires store.Valid() && s == DataOf(store.calls)
    modifies store, store.table, store.table.buckets, store.table.repr
    ensures store.Valid() && (crash <==> !KnownUpTo(s, |s|))
    ensures !crash ==> ListHolds(store.calls, old(store.calls), |s|, Run(s[..|s|]).kept)
  {
    var all := store.calls;
    var index: map<Key, Held> := map[];
    crash := false;
    assert NodesAt(all, []) + all[0..] == all;
    for n := 0 to |all|
      invariant store.Valid() && store.table.repr == old(store.table.repr) && StoreReached(store.calls, index, all, s, n)
    {
      crash, index := VisitCall(store, index, all[n], all, s, n);
      if crash {
        return;
      }
    }
  }

  /**
   Filters the store: it stays valid, its calls are the survivors in their order, and its backtraces are
   just those that its calls use.
   */
  method FilterStore(store: Store) returns (crash: bool)
    requires store.Valid()
    modifies store, store.table, store.table.buckets, store.table.repr
    ensures store.Valid() && (crash <==> !TypesSuffice(DataOf(old(store.calls))))
    ensures Ascending(Survivors(DataOf(old(store.calls)), |old(store.calls)|), |old(store.calls)|)
    ensures !crash ==> store.calls == NodesAt(old(store.calls), Survivors(DataOf(old(store.calls)), |old(store.calls)|))
    ensures forall k :: k in store.table.index <==> exists c :: c in store.calls && c.trace != null && c.trace.key == k
  {
    ghost var all, s := store.calls, DataOf(store.calls);
    crash := WalkStore(store, s);
    TypesSufficeExactly(s);
    SurvivorsAscend(s, |s|);
    if !crash { ListAtEnd(store.calls, all, s); }
    BacktracesInUse(store);
  }
}
