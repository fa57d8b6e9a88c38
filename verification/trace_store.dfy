/**
 The store of the post-processor: calls share reference-counted backtraces, which a hash table keeps
 unique. A call points at its backtrace and at the reference node through which the backtrace points back.
 */
module TraceStore {
  import opened TraceTypes
  import opened Ordering
  import opened DList
  import opened HTable

  type Frames = seq<nat>

  class FCall {
    const data: Call
    const args: seq<Arg>
    var trace: FTrace?
    var ref: RefNode?

    constructor (data: Call, args: seq<Arg>)
      ensures this.data == data && this.args == args && trace == null && ref == null
    {
      this.data := data;
      this.args := args;
      trace := null;
      ref := null;
    }
  }

  class RefNode {
    const call: FCall

    constructor (call: FCall)
      ensures this.call == call
    {
      this.call := call;
    }
  }

  datatype TraceData = TraceData(refCount: int, calls: seq<RefNode>)

  /** A backtrace: its frames are the key it is stored under. */
  type FTrace = HNode<Frames, TraceData>
  type FTrace? = HNode?<Frames, TraceData>

  class Store {
    var calls: seq<FCall>
    const table: Table<Frames, TraceData>

    /** Each reference of a stored backtrace leads to a live call that leads back to it. */
    ghost predicate TraceSound(t: FTrace)
      reads this, calls, t
    {
      && t.value.refCount == |t.value.calls|
      && Distinct(t.value.calls)
      && (forall r :: r in t.value.calls ==> r.call in calls && r.call.trace == t && r.call.ref == r)
    }

    /** A call with a backtrace points at a stored one, which has a reference to the call. */
    ghost predicate CallSound(c: FCall)
      reads this, table, table.repr, c
    {
      c.trace != null ==>
        && c.trace in table.repr && c.trace.key in table.index && table.index[c.trace.key] == c.trace
        && c.ref != null && c.ref.call == c && c.ref in c.trace.value.calls
    }

    ghost predicate Sound()
      reads this, table, table.buckets, table.repr, calls
    {
      && table.Valid() && Distinct(calls)
      && (forall k :: k in table.index ==> TraceSound(table.index[k]))
      && (forall c :: c in calls ==> CallSound(c))
    }

    /** Sound, and every stored backtrace is in use. */
    ghost predicate Valid()
      reads this, table, table.buckets, table.repr, calls
    {
      Sound() && forall k :: k in table.index ==> table.index[k].value.refCount > 0
    }

    constructor (size: nat, hash: Frames -> nat)
      requires size > 0
      ensures Valid() && calls == [] && table.index == map[]
    {
      calls := [];
      table := new Table(size, hash);
    }

    /**
     Makes the call behind `r` a user of the stored backtrace `t`. A call that has a backtrace already
     leaves a reference behind there that no longer leads back; one `r0` left behind by another call stays.
     */
    method Attach(r: RefNode, t: FTrace, ghost t0: FTrace?, ghost r0: RefNode?)
      requires t.key in table.index && table.index[t.key] == t && r.call in calls
      modifies r.call, t`value
      ensures old(Sound()) && old(r.call.trace) == null ==> Sound()
      ensures old(Sound()) && old(r.call.trace) != null ==> Stale(old(r.call.trace), old(r.call.ref))
      ensures old(Stale(t0, r0)) && r0.call != r.call ==> Stale(t0, r0)
      ensures r.call.trace == t && r.call.ref == r && t.value == TraceData(old(t.value.refCount) + 1, old(t.value.calls) + [r])
    {
      ghost var sound, before := Sound(), r.call.trace;
      if sound { assert CallSound(r.call); }
      if sound && before == null { NotReferenced(r.call); }
      r.call.trace := t;
      r.call.ref := r;
      t.value := TraceData(t.value.refCount + 1, t.value.calls + [r]);
      StandsTwice(old(t.value.calls), r);
      AppendedTwice(old(t.value.calls), r);
      if sound && before == null {
        assert TraceSound(t);
        forall k | k in table.index ensures TraceSound(table.index[k]) {
          if k != t.key { assert old(TraceSound(table.index[k])); }
        }
        forall c | c in calls ensures CallSound(c) {
          assert old(CallSound(c));
        }
      }
    }

    /** A stored backtrace has a reference that its call does not lead back to, or one twice. */
    ghost predicate Stale(t: FTrace?, r: RefNode?)
      reads table, t, if r == null then {} else {r.call}
    {
      && t != null && r != null && t.key in table.index && table.index[t.key] == t && r in t.value.calls
      && (r.call.trace != t || r.call.ref != r || !Distinct(t.value.calls))
    }

    lemma StaleUnsound(t: FTrace?, r: RefNode?)
      requires Stale(t, r)
      ensures !Sound()
    {
      assert !TraceSound(t);
    }

    /** No backtrace refers to a call that has none. */
    lemma NotReferenced(c: FCall)
      requires Sound() && c.trace == null
      ensures forall k, q {:trigger q in table.index[k].value.calls} ::
                k in table.index && q in table.index[k].value.calls ==> q.call != c
    {
      forall k, q {:trigger q in table.index[k].value.calls} | k in table.index && q in table.index[k].value.calls
        ensures q.call != c
      {
        assert TraceSound(table.index[k]);
      }
    }

    /** Appends a call that has no backtrace yet. */
    method AddCall(c: FCall)
      requires Valid() && c !in calls && c.trace == null
      modifies this
      ensures Valid() && calls == old(calls) + [c]
    {
      calls := calls + [c];
    }

    /** The stored backtrace with the frames of `trace`; `trace` itself becomes it if there is none. */
    method Share(trace: FTrace) returns (t: FTrace)
      requires Sound() && trace !in table.repr && trace.value == TraceData(0, [])
      modifies table, table.buckets, trace`bucket
      ensures Sound() && t.key == trace.key && t.key in table.index && table.index[t.key] == t
      ensures table.index == old(table.index)[t.key := t] && (t.key in old(table.index) ==> table.index == old(table.index))
      ensures t == trace || t.key in old(table.index)
    {
      var found := table.Find(trace.key);
      if found.None? {
        var _ := table.Store(trace);
        t := trace;
      } else {
        t := found.value;
      }
    }

    /** The references that the backtrace with these frames holds. */
    ghost function RefsOf(frames: Frames): seq<RefNode>
      reads table, if frames in table.index then {table.index[frames]} else {}
    {
      if frames in table.index then table.index[frames].value.calls else []
    }

    /** Gives one call a backtrace; the store stays valid if and only if the call had none. */
    method SetFtrace(c: FCall, trace: FTrace)
      requires Valid() && c in calls
      requires trace !in table.repr && trace.value == TraceData(0, [])
      modifies c, trace, table, table.buckets, table.repr
      ensures (Valid() <==> old(c.trace) == null) && c.trace != null && c.trace.key == trace.key
      ensures table.index.Keys == old(table.index.Keys) + {trace.key}
      ensures RefsOf(trace.key) == old(RefsOf(trace.key)) + [c.ref]
    {
      var t := Share(trace);
      Link(c, t);
    }

    /** Makes a call a user of a stored backtrace, through a new reference. */
    method Link(c: FCall, t: FTrace)
      requires Sound() && c in calls && t.key in table.index && table.index[t.key] == t
      modifies c, t`value
      ensures (Sound() <==> old(c.trace) == null) && c.trace == t && c.ref != null
      ensures t.value == TraceData(old(t.value.refCount) + 1, old(t.value.calls) + [c.ref])
    {
      var node := new RefNode(c);
      ghost var before, left := c.trace, c.ref;
      Attach(node, t, null, null);
      if before != null { StaleUnsound(before, left); }
    }

    /** Makes the calls behind `group` users of the stored backtrace `t`, in order. */
    method AttachAll(group: seq<RefNode>, t: FTrace, ghost members: set<FCall>)
      requires Sound() && t.key in table.index && table.index[t.key] == t
      requires forall i :: 0 <= i < |group| ==> group[i].call in members && group[i].call in calls
      requires forall i, j :: 0 <= i < j < |group| ==> group[i].call != group[j].call
      modifies members, t`value
      ensures Sound() <==> forall i :: 0 <= i < |group| ==> old(group[i].call.trace) == null
      ensures t.value == TraceData(old(t.value.refCount) + |group|, old(t.value.calls) + group)
      ensures forall i :: 0 <= i < |group| ==> group[i].call.trace == t && group[i].call.ref == group[i]
    {
      var i := 0;
      ghost var clean, w, q := true, null, null;
      while i < |group|
        invariant i <= |group| && t.value == TraceData(old(t.value.refCount) + i, old(t.value.calls) + group[..i])
        invariant forall j :: 0 <= j < i ==> group[j].call.trace == t && group[j].call.ref == group[j]
        invariant forall j :: i <= j < |group| ==> group[j].call.trace == old(group[j].call.trace)
        invariant clean <==> forall j :: 0 <= j < i ==> old(group[j].call.trace) == null
        invariant clean ==> Sound()
        invariant !clean ==> Stale(w, q) && forall j :: i <= j < |group| ==> q.call != group[j].call
      {
        ghost var c := group[i].call;
        ghost var t0, r0 := c.trace, c.ref;
        if clean { assert CallSound(c); }
        Attach(group[i], t, w, q);
        if clean && t0 != null { clean, w, q := false, t0, r0; }
        i := i + 1;
      }
      if !clean { StaleUnsound(w, q); }
    }

    /** Gives a group of calls one backtrace, keeping the order; an empty group may leave one that is not in use. */
    method FcallsSetFtrace(group: seq<RefNode>, trace: FTrace, ghost members: set<FCall>)
      requires Valid()
      requires forall i :: 0 <= i < |group| ==> group[i].call in members && group[i].call in calls
      requires forall i, j :: 0 <= i < j < |group| ==> group[i].call != group[j].call
      requires trace !in table.repr && trace.value == TraceData(0, [])
      modifies members, trace, table, table.buckets, table.repr
      ensures Sound() <==> forall i :: 0 <= i < |group| ==> old(group[i].call.trace) == null
      ensures Valid() <==> Sound() && (group != [] || trace.key in old(table.index))
      ensures forall i :: 0 <= i < |group| ==>
                group[i].call.trace != null && group[i].call.trace.key == trace.key && group[i].call.ref == group[i]
      ensures table.index.Keys == old(table.index.Keys) + {trace.key}
      ensures RefsOf(trace.key) == old(RefsOf(trace.key)) + group
    {
      var t := Share(trace);
      AttachAll(group, t, members);
    }

    /** Takes a call out of the call list and out of the references of its backtrace. */
    method Detach(c: FCall, k: nat)
      requires Sound() && k < |calls| && calls[k] == c
      modifies this, if c.trace == null then {} else {c.trace}
      ensures Sound() && calls == Without(old(calls), k)
      ensures c.trace != null ==> exists j ::
                && 0 <= j < |old(c.trace.value.calls)| && old(c.trace.value.calls)[j] == c.ref
                && c.trace.value.calls == Without(old(c.trace.value.calls), j)
    {
      assert CallSound(c);
      ghost var before := calls;
      calls := calls[..k] + calls[k + 1..];
      OthersRemain(before, k);
      if c.trace != null {
        ghost var refs := c.trace.value.calls;
        ghost var j := DropReference(c);
        OthersRemain(refs, j);
      }
      forall k | k in table.index ensures TraceSound(table.index[k]) {
        assert old(TraceSound(table.index[k]));
      }
      forall d | d in calls ensures CallSound(d) {
        assert old(CallSound(d));
      }
    }

    /** Takes the reference of a call out of its backtrace. */
    method DropReference(c: FCall) returns (ghost j: nat)
      requires c.trace != null && c.ref in c.trace.value.calls
      modifies c.trace`value
      ensures j < |old(c.trace.value.calls)| && old(c.trace.value.calls)[j] == c.ref
      ensures c.trace.value == TraceData(old(c.trace.value.refCount) - 1, Without(old(c.trace.value.calls), j))
    {
      var t := c.trace;
      var i :| 0 <= i < |t.value.calls| && t.value.calls[i] == c.ref;
      t.value := TraceData(t.value.refCount - 1, t.value.calls[..i] + t.value.calls[i + 1..]);
      j := i;
    }

    /** Drops a backtrace that no call uses any more. */
    method Retire(t: FTrace)
      requires Sound() && t.key in table.index && table.index[t.key] == t && t.value.refCount == 0
      modifies table, table.buckets
      ensures Sound() && table.index == old(table.index) - {t.key} && table.repr == old(table.repr)
    {
      table.RemoveNode(t);
    }

    /** Takes a call out of the store, and its backtrace with it when no other call uses that. */
    method FcallRemove(c: FCall, k: nat)
      requires Valid() && k < |calls| && calls[k] == c
      modifies this, table, table.buckets, table.repr
      ensures Valid() && calls == Without(old(calls), k) && table.repr == old(table.repr)
      ensures table.index == if c.trace != null && |old(RefsOf(c.trace.key))| == 1
                             then old(table.index) - {c.trace.key} else old(table.index)
      ensures c.trace != null ==> exists j ::
                && 0 <= j < |old(RefsOf(c.trace.key))| && old(RefsOf(c.trace.key))[j] == c.ref
                && RefsOf(c.trace.key) == Without(old(RefsOf(c.trace.key)), j)
    {
      assert CallSound(c);
      Detach(c, k);
      if c.trace != null && c.trace.value.refCount == 0 {
        Retire(c.trace);
      }
    }
  }

  lemma StandsTwice<X>(s: seq<X>, x: X)
    ensures x in s ==> !Distinct(s + [x])
  {
    if i :| 0 <= i < |s| && s[i] == x {
      assert (s + [x])[i] == (s + [x])[|s|];
    }
  }

  lemma AppendedTwice<X>(s: seq<X>, x: X)
    ensures !Distinct(s) ==> !Distinct(s + [x])
  {
    if i, j :| 0 <= i < j < |s| && s[i] == s[j] {
      assert (s + [x])[i] == (s + [x])[j];
    }
  }

  lemma OthersRemain<X>(s: seq<X>, k: nat)
    requires Distinct(s) && k < |s|
    ensures Distinct(Without(s, k))
    ensures forall x :: x in Without(s, k) <==> x in s && x != s[k]
  {
    forall x | x in s && x != s[k] ensures x in Without(s, k) {
      var i :| 0 <= i < |s| && s[i] == x;
      assert Without(s, k)[if i < k then i else i - 1] == x;
    }
  }

  ghost function CallsBehind(refs: seq<RefNode>): (r: seq<FCall>)
    ensures |r| == |refs| && forall i :: 0 <= i < |r| ==> r[i] == refs[i].call
  {
    seq(|refs|, i requires 0 <= i < |refs| => refs[i].call)
  }

  lemma HeadDistinct(refs: seq<RefNode>, t: FTrace, store: Store)
    requires store.TraceSound(t) && refs == t.value.calls
    ensures Distinct(CallsBehind(refs))
    ensures forall i :: 0 <= i < |refs| ==> refs[i].call.trace == t
  {
    forall i, j | 0 <= i < j < |refs| ensures refs[i].call != refs[j].call {
      assert refs[i] in refs && refs[j] in refs;
    }
    forall i | 0 <= i < |refs| ensures refs[i].call.trace == t {
      assert refs[i] in refs;
    }
  }

  lemma {:induction false} DistinctSize<X>(s: seq<X>)
    requires Distinct(s)
    ensures |Members(s)| == |s|
  {
    if s != [] {
      DistinctSize(s[1..]);
      assert Members(s) == {s[0]} + Members(s[1..]);
      assert s[0] !in Members(s[1..]);
    }
  }

  /** No two stored backtraces have the same frames. */
  lemma UniqueFrames(store: Store, a: nat, i: nat, b: nat, j: nat)
    requires store.Valid() && a < store.table.buckets.Length && b < store.table.buckets.Length
    requires i < |store.table.buckets[a]| && j < |store.table.buckets[b]|
    ensures store.table.buckets[a][i].key == store.table.buckets[b][j].key ==> a == b && i == j
  {
    assert store.table.BucketValid(a) && store.table.BucketValid(b);
  }

  /** The reference count of a stored backtrace is the number of live calls that point at it. */
  lemma RefCountIsUsers(store: Store, t: FTrace)
    requires store.Valid() && t.key in store.table.index && store.table.index[t.key] == t
    ensures t.value.refCount == |set c | c in store.calls && c.trace == t| > 0
  {
    var users := set c | c in store.calls && c.trace == t;
    var behind := CallsBehind(t.value.calls);
    assert store.TraceSound(t);
    HeadDistinct(t.value.calls, t, store);
    DistinctSize(behind);
    forall c | c in users ensures c in behind {
      assert store.CallSound(c);
      var j :| 0 <= j < |t.value.calls| && t.value.calls[j] == c.ref;
      assert behind[j] == c;
    }
    forall c | c in behind ensures c in users {
      var j :| 0 <= j < |behind| && behind[j] == c;
      assert t.value.calls[j] in t.value.calls;
    }
    assert users == Members(behind);
  }
}
