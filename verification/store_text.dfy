/** The text forms of a whole store: its call list, and its backtraces with their calls. */
module StoreText {
  import opened TraceTypes
  import opened Ordering
  import opened DList
  import opened HTable
  import opened TraceStore
  import opened LeaksSort
  import opened Compression

  /** Binary traces carry no resolved names, so a frame prints as its address. */
  ghost function FramesOf(addresses: Frames): (r: seq<Frame>)
    ensures |r| == |addresses| && forall i :: 0 <= i < |r| ==> r[i] == Frame(addresses[i], None)
  {
    seq(|addresses|, i requires 0 <= i < |addresses| => Frame(addresses[i], None))
  }

  ghost function DataOf(c: FCall): CallData {
    CallData(c.data, c.args)
  }

  ghost function StoredOf(c: FCall): StoredCall
    reads c
  {
    StoredCall(DataOf(c), if c.trace == null then None else Some(FramesOf(c.trace.key)))
  }

  /** The call list as the uncompressed writer sees it. */
  ghost function CallView(calls: seq<FCall>): (r: seq<StoredCall>)
    reads calls
    ensures |r| == |calls| && forall i :: 0 <= i < |r| ==> r[i] == StoredOf(calls[i])
  {
    if calls == [] then [] else [StoredOf(calls[0])] + CallView(calls[1..])
  }

  ghost function DataBehind(refs: seq<RefNode>): (r: seq<CallData>)
    ensures |r| == |refs| && forall i :: 0 <= i < |r| ==> r[i] == DataOf(refs[i].call)
  {
    seq(|refs|, i requires 0 <= i < |refs| => DataOf(refs[i].call))
  }

  /** The backtraces as the compressed writer sees them. */
  ghost function GroupView(ts: seq<FTrace>): (r: seq<Group>)
    reads ts
    ensures |r| == |ts| && forall i :: 0 <= i < |r| ==> r[i] == Group(FramesOf(ts[i].key), DataBehind(ts[i].value.calls))
  {
    if ts == [] then [] else [Group(FramesOf(ts[0].key), DataBehind(ts[0].value.calls))] + GroupView(ts[1..])
  }

  ghost predicate Traced(calls: seq<FCall>)
    reads calls
  {
    forall i :: 0 <= i < |calls| ==> calls[i].trace != null
  }

  ghost function LoadedOf(c: FCall): Loaded
    requires c.trace != null
    reads c
  {
    Loaded(DataOf(c), FramesOf(c.trace.key))
  }

  ghost function LoadedView(calls: seq<FCall>): (r: seq<Loaded>)
    requires Traced(calls)
    reads calls
    ensures |r| == |calls| && forall i :: 0 <= i < |r| ==> r[i] == LoadedOf(calls[i])
  {
    if calls == [] then [] else [LoadedOf(calls[0])] + LoadedView(calls[1..])
  }

  lemma ExpectedView(calls: seq<FCall>)
    requires Traced(calls)
    ensures AllTraced(CallView(calls)) && Expected(CallView(calls)) == LoadedView(calls)
  {
  }

  lemma {:induction false} LoadedViewConcat(a: seq<FCall>, b: seq<FCall>)
    requires Traced(a) && Traced(b)
    ensures Traced(a + b) && LoadedView(a + b) == LoadedView(a) + LoadedView(b)
  {
  }

  /** The calls of the groups load as the calls of the store. */
  lemma {:induction false} GroupsView(ts: seq<FTrace>, store: Store)
    requires forall i :: 0 <= i < |ts| ==> store.TraceSound(ts[i])
    ensures Traced(GroupedCalls(ts)) && GroupsExpected(GroupView(ts)) == LoadedView(GroupedCalls(ts))
  {
    if ts != [] {
      var head, rest := CallsBehind(ts[0].value.calls), GroupedCalls(ts[1..]);
      assert store.TraceSound(ts[0]);
      HeadDistinct(ts[0].value.calls, ts[0], store);
      GroupsView(ts[1..], store);
      assert GroupView(ts)[1..] == GroupView(ts[1..]);
      assert WithFrames(DataBehind(ts[0].value.calls), FramesOf(ts[0].key)) == LoadedView(head);
      LoadedViewConcat(head, rest);
    }
  }

  ghost predicate Covers<X, Y>(m: map<X, Y>, s: seq<X>) {
    forall i :: 0 <= i < |s| ==> s[i] in m
  }

  ghost function Image<X, Y>(s: seq<X>, m: map<X, Y>): (r: seq<Y>)
    requires Covers(m, s)
    ensures |r| == |s| && forall i :: 0 <= i < |r| ==> r[i] == m[s[i]]
  {
    seq(|s|, i requires 0 <= i < |s| => m[s[i]])
  }

  lemma ImageSplit<X, Y>(s: seq<X>, k: nat, m: map<X, Y>)
    requires k < |s| && Covers(m, s)
    ensures Covers(m, s[..k] + s[k + 1..])
    ensures multiset(Image(s, m)) == multiset{m[s[k]]} + multiset(Image(s[..k] + s[k + 1..], m))
  {
    SplitAt(Image(s, m), k);
    assert Image(s, m)[..k] + Image(s, m)[k + 1..] == Image(s[..k] + s[k + 1..], m);
  }

  lemma ImageHead<X, Y>(s: seq<X>, m: map<X, Y>)
    requires s != [] && Covers(m, s)
    ensures Covers(m, s[1..])
    ensures multiset(Image(s, m)) == multiset{m[s[0]]} + multiset(Image(s[1..], m))
  {
    MultisetHead(Image(s, m));
    assert Image(s, m)[1..] == Image(s[1..], m);
  }

  lemma {:induction false} ImagePermutes<X, Y>(a: seq<X>, b: seq<X>, m: map<X, Y>)
    requires Covers(m, a) && Covers(m, b) && multiset(a) == multiset(b)
    ensures multiset(Image(a, m)) == multiset(Image(b, m))
    decreases |a|
  {
    if a == [] {
      assert |b| == |multiset(b)| == 0;
    } else {
      var k := FindHead(a, b);
      ImageHead(a, m);
      ImageSplit(b, k, m);
      ImagePermutes(a[1..], b[..k] + b[k + 1..], m);
    }
  }

  lemma LoadedViewPermutes(a: seq<FCall>, b: seq<FCall>)
    requires Traced(a) && Traced(b) && multiset(a) == multiset(b)
    ensures multiset(LoadedView(a)) == multiset(LoadedView(b))
  {
    SameMembers(a, b);
    var m := map c | c in Members(b) && c.trace != null :: LoadedOf(c);
    assert forall i :: 0 <= i < |b| ==> b[i] in Members(b);
    ImagePermutes(a, b, m);
    assert LoadedView(a) == Image(a, m);
    assert LoadedView(b) == Image(b, m);
  }

  /** The backtraces of a valid store partition its calls, in any order of the backtraces. */
  lemma StorePartition(store: Store, ts: seq<FTrace>)
    requires store.Valid() && Lists(ts, store) && AllTracedIn(store)
    ensures Partition(GroupView(ts), CallView(store.calls))
  {
    forall i | 0 <= i < |ts| ensures store.TraceSound(ts[i]) && ts[i].value.calls != [] {
      assert ts[i] in ts;
    }
    assert Traced(store.calls);
    GroupsPartitionCalls(store, ts);
    GroupsView(ts, store);
    ExpectedView(store.calls);
    LoadedViewPermutes(GroupedCalls(ts), store.calls);
  }

  /** For every valid store, compression loses nothing unless a comment cuts a group that has frames. */
  lemma StoreCompression(store: Store, ts: seq<FTrace>, comments: seq<CommentData>)
    requires store.Valid() && Lists(ts, store) && AllTracedIn(store)
    requires Traced(store.calls) && Comparable(Members(LoadedView(store.calls)))
    requires NoTies(LoadedView(store.calls), CompareCalls)
    ensures LoadSorted(WriteCompressed(GroupView(ts), comments, 0)) == LoadSorted(WritePlain(CallView(store.calls), comments, 0))
       <==> CommentsOutside(GroupView(ts), comments)
  {
    StorePartition(store, ts);
    ExpectedView(store.calls);
    CompressionLosesNothing(CallView(store.calls), GroupView(ts), comments);
  }

  /** What was read is the call list of the store: records, arguments and the addresses of the backtraces. */
  ghost predicate ReadsBack(read: seq<Loaded>, calls: seq<FCall>)
    requires Traced(calls)
    reads calls
  {
    |read| == |calls| && forall i :: 0 <= i < |calls| ==> ReadsAs(read[i], calls[i])
  }

  ghost predicate ReadsAs(r: Loaded, c: FCall)
    requires c.trace != null
    reads c
  {
    && r.data.call == c.data && r.data.args == c.args
    && |r.frames| == |c.trace.key| && forall k :: 0 <= k < |r.frames| ==> r.frames[k].addr == c.trace.key[k]
  }

  /** A store whose calls are in order reads back from either form as it is, unless a comment cuts a group. */
  lemma StoreRoundTrip(store: Store, ts: seq<FTrace>, comments: seq<CommentData>)
    requires store.Valid() && Lists(ts, store) && AllTracedIn(store)
    requires Traced(store.calls) && Comparable(Members(LoadedView(store.calls)))
    requires NoTies(LoadedView(store.calls), CompareCalls) && Sorted(LoadedView(store.calls), CompareCalls)
    ensures ReadsBack(LoadSorted(WritePlain(CallView(store.calls), comments, 0)), store.calls)
    ensures CommentsOutside(GroupView(ts), comments)
       ==> ReadsBack(LoadSorted(WriteCompressed(GroupView(ts), comments, 0)), store.calls)
  {
    PlainReadsBack(store.calls, comments);
    StoreCompression(store, ts, comments);
  }

  lemma PlainReadsBack(calls: seq<FCall>, comments: seq<CommentData>)
    requires Traced(calls) && Comparable(Members(LoadedView(calls))) && Sorted(LoadedView(calls), CompareCalls)
    ensures ReadsBack(LoadSorted(WritePlain(CallView(calls), comments, 0)), calls)
  {
    ExpectedView(calls);
    PlainRoundTrip(CallView(calls), comments);
    CompareCallsTotal(Members(LoadedView(calls)));
    SortedStays(LoadedView(calls), Members(LoadedView(calls)), CompareCalls);
    ViewReadsBack(calls);
  }

  lemma ViewReadsBack(calls: seq<FCall>)
    requires Traced(calls)
    ensures ReadsBack(LoadedView(calls), calls)
  {
  }
}
