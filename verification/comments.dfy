/** Where the comments of a trace stand among the calls that are written, and what a reader makes of them. */
module Comments {
  import opened TraceTypes
  import opened Compression

  ghost function TextsOf(comments: seq<CommentData>): (r: seq<string>)
    ensures |r| == |comments| && forall i :: 0 <= i < |r| ==> r[i] == comments[i].text
  {
    seq(|comments|, i requires 0 <= i < |comments| => comments[i].text)
  }

  ghost function TextOf(rec: Record): seq<string> {
    if rec.Comment? then [rec.text] else []
  }

  ghost function IndexOf(rec: Record): seq<int> {
    if rec.CallRec? then [rec.call.index] else []
  }

  /** The texts of the comments among some records. */
  ghost function TextsIn(recs: seq<Record>): seq<string> {
    if recs == [] then [] else TextsIn(recs[..|recs| - 1]) + TextOf(recs[|recs| - 1])
  }

  /** The indices of the calls among some records. */
  ghost function IndicesIn(recs: seq<Record>): seq<int> {
    if recs == [] then [] else IndicesIn(recs[..|recs| - 1]) + IndexOf(recs[|recs| - 1])
  }

  lemma {:induction false} InConcat(a: seq<Record>, b: seq<Record>)
    ensures TextsIn(a + b) == TextsIn(a) + TextsIn(b) && IndicesIn(a + b) == IndicesIn(a) + IndicesIn(b)
    decreases |b|
  {
    if b == [] {
      assert a + b == a;
    } else {
      var front, last := b[..|b| - 1], b[|b| - 1];
      InConcat(a, front);
      FrontOfConcat(a, b);
      Regrouped(TextsIn(a), TextsIn(front), TextOf(last));
      Regrouped(IndicesIn(a), IndicesIn(front), IndexOf(last));
    }
  }

  lemma FrontOfConcat<X>(a: seq<X>, b: seq<X>)
    requires b != []
    ensures (a + b)[..|a + b| - 1] == a + b[..|b| - 1] && (a + b)[|a + b| - 1] == b[|b| - 1]
  {
  }

  lemma LoneRecord(rec: Record)
    ensures TextsIn([rec]) == TextOf(rec) && IndicesIn([rec]) == IndexOf(rec)
  {
    assert [rec][..0] == [];
  }

  lemma InPrefix(recs: seq<Record>, q: nat)
    requires q < |recs|
    ensures TextsIn(recs[..q + 1]) == TextsIn(recs[..q]) + TextOf(recs[q])
    ensures IndicesIn(recs[..q + 1]) == IndicesIn(recs[..q]) + IndexOf(recs[q])
  {
    assert recs[..q + 1][..q] == recs[..q];
  }

  // ---------------------------------------------------------------- where comments are written

  /**
   After calls with these indices the first `n` comments have been written: just those for which a call has a
   larger index than the comment and than every comment before it.
   */
  ghost predicate CountsRight(indices: seq<int>, n: nat, comments: seq<CommentData>) {
    forall k: nat :: k < |comments| ==> (k < n <==> Overtaken(indices, comments, k))
  }

  /** The comments before the `q`-th record, a call, are right for this call and those written earlier. */
  ghost predicate StandsRight(recs: seq<Record>, q: nat, comments: seq<CommentData>)
    requires q < |recs|
  {
    CountsRight(IndicesIn(recs[..q + 1]), |TextsIn(recs[..q])|, comments)
  }

  /** The comments are all there, once and in order, and every call stands right among them. */
  ghost predicate WellPlaced(recs: seq<Record>, comments: seq<CommentData>) {
    && TextsIn(recs) == TextsOf(comments)
    && forall q: nat :: q < |recs| && recs[q].CallRec? ==> StandsRight(recs, q, comments)
  }

  /** Each call of the records finds the cursor where it belongs. */
  ghost predicate OnCourse(recs: seq<Record>, earlier: seq<int>, comments: seq<CommentData>, from: nat) {
    recs == [] ||
    var front := recs[..|recs| - 1];
    && OnCourse(front, earlier, comments, from)
    && (recs[|recs| - 1].CallRec? ==> CursorAt(earlier + IndicesIn(recs), comments, from + |TextsIn(front)|))
  }

  lemma {:induction false} OnCourseAt(recs: seq<Record>, q: nat, comments: seq<CommentData>)
    requires OnCourse(recs, [], comments, 0) && q < |recs| && recs[q].CallRec?
    ensures CursorAt(IndicesIn(recs[..q + 1]), comments, |TextsIn(recs[..q])|)
    decreases |recs|
  {
    var n := |recs| - 1;
    if q < n {
      OnCourseAt(recs[..n], q, comments);
      PrefixOfPrefix(recs, q, n);
    } else {
      assert recs[..q + 1] == recs && [] + IndicesIn(recs) == IndicesIn(recs);
    }
  }

  lemma PrefixOfPrefix<X>(s: seq<X>, q: nat, n: nat)
    requires q < n <= |s|
    ensures s[..n][..q] == s[..q] && s[..n][..q + 1] == s[..q + 1]
  {
  }

  lemma {:induction false} CourseConcat(a: seq<Record>, b: seq<Record>, earlier: seq<int>, comments: seq<CommentData>, from: nat)
    requires OnCourse(a, earlier, comments, from)
    requires OnCourse(b, earlier + IndicesIn(a), comments, from + |TextsIn(a)|)
    ensures OnCourse(a + b, earlier, comments, from)
    decreases |b|
  {
    if b == [] {
      assert a + b == a;
    } else {
      var front := b[..|b| - 1];
      CourseConcat(a, front, earlier, comments, from);
      FrontOfConcat(a, b);
      InConcat(a, b);
      InConcat(a, front);
      Regrouped(earlier, IndicesIn(a), IndicesIn(b));
    }
  }

  /** Records that hold the calls `indices` and the comments between two positions of the cursor. */
  ghost predicate Covers(recs: seq<Record>, earlier: seq<int>, indices: seq<int>, comments: seq<CommentData>, from: nat, to: nat) {
    && from <= to <= |comments| && TextsIn(recs) == TextsOf(comments[from..to])
    && IndicesIn(recs) == indices && OnCourse(recs, earlier, comments, from)
  }

  lemma CoversConcat(a: seq<Record>, b: seq<Record>, earlier: seq<int>, ia: seq<int>, ib: seq<int>,
                     comments: seq<CommentData>, from: nat, mid: nat, to: nat)
    requires Covers(a, earlier, ia, comments, from, mid) && Covers(b, earlier + ia, ib, comments, mid, to)
    ensures Covers(a + b, earlier, ia + ib, comments, from, to)
  {
    InConcat(a, b);
    TextsTogether(comments, from, mid, to);
    CourseConcat(a, b, earlier, comments, from);
  }

  lemma TextsTogether(comments: seq<CommentData>, from: nat, mid: nat, to: nat)
    requires from <= mid <= to <= |comments|
    ensures TextsOf(comments[from..mid]) + TextsOf(comments[mid..to]) == TextsOf(comments[from..to])
  {
  }

  /** Records without calls and comments may follow. */
  lemma CoversSilent(a: seq<Record>, b: seq<Record>, earlier: seq<int>, indices: seq<int>, comments: seq<CommentData>,
                     from: nat, to: nat)
    requires Covers(a, earlier, indices, comments, from, to) && Silent(b)
    ensures Covers(a + b, earlier, indices, comments, from, to)
  {
    SilentHolds(b);
    NoCallsOnCourse(b, earlier + indices, comments, to);
    CoversConcat(a, b, earlier, indices, [], comments, from, to, to);
    assert indices + [] == indices;
  }

  ghost predicate Silent(recs: seq<Record>) {
    forall i :: 0 <= i < |recs| ==> !recs[i].CallRec? && !recs[i].Comment?
  }

  lemma {:induction false} SilentHolds(recs: seq<Record>)
    requires Silent(recs)
    ensures TextsIn(recs) == [] && IndicesIn(recs) == []
    decreases |recs|
  {
    if recs != [] { SilentHolds(recs[..|recs| - 1]); }
  }

  lemma {:induction false} CommentsHold(cs: seq<CommentData>)
    ensures TextsIn(CommentRecords(cs)) == TextsOf(cs) && IndicesIn(CommentRecords(cs)) == []
  {
    if cs != [] {
      var n := |cs| - 1;
      CommentsHold(cs[..n]);
      LastComment(cs);
      InConcat(CommentRecords(cs[..n]), [Comment(cs[n].text)]);
      LoneRecord(Comment(cs[n].text));
    }
  }

  lemma LastComment(cs: seq<CommentData>)
    requires cs != []
    ensures var n := |cs| - 1;
            && CommentRecords(cs) == CommentRecords(cs[..n]) + [Comment(cs[n].text)]
            && TextsOf(cs) == TextsOf(cs[..n]) + [cs[n].text]
  {
  }

  lemma {:induction false} NoCallsOnCourse(recs: seq<Record>, earlier: seq<int>, comments: seq<CommentData>, from: nat)
    requires forall i :: 0 <= i < |recs| ==> !recs[i].CallRec?
    ensures OnCourse(recs, earlier, comments, from)
    decreases |recs|
  {
    if recs != [] { NoCallsOnCourse(recs[..|recs| - 1], earlier, comments, from); }
  }

  lemma CommentsCover(earlier: seq<int>, comments: seq<CommentData>, from: nat, to: nat)
    requires from <= to <= |comments|
    ensures Covers(CommentRecords(comments[from..to]), earlier, [], comments, from, to)
  {
    CommentsHold(comments[from..to]);
    NoCallsOnCourse(CommentRecords(comments[from..to]), earlier, comments, from);
  }

  /** The comments that are due, then the call. */
  lemma CallCovers(c: CallData, earlier: seq<int>, comments: seq<CommentData>, from: nat)
    requires CursorAt(earlier, comments, from)
    ensures var to := SkipComments(comments, from, c.call.index);
            Covers(CallRecords(c, comments[from..to]), earlier, [c.call.index], comments, from, to)
  {
    var x := c.call.index;
    var to := SkipComments(comments, from, x);
    var due, call := CommentRecords(comments[from..to]), [CallRec(c.call)];
    CursorStep(earlier, x, comments, from);
    CommentsCover(earlier, comments, from, to);
    LoneCallCovers(c.call, earlier, comments, to);
    assert earlier + [] == earlier && [] + [x] == [x];
    CoversConcat(due, call, earlier, [], [x], comments, from, to, to);
    CoversSilent(due + call, ArgRecords(c.args), earlier, [x], comments, from, to);
  }

  lemma LoneCallCovers(c: Call, earlier: seq<int>, comments: seq<CommentData>, to: nat)
    requires CursorAt(earlier + [c.index], comments, to)
    ensures Covers([CallRec(c)], earlier, [c.index], comments, to, to)
  {
    var r := [CallRec(c)];
    LoneRecord(r[0]);
    assert r[..0] == [] && r[..1] == r;
  }

  ghost function DataOf(calls: seq<StoredCall>): (r: seq<CallData>)
    ensures |r| == |calls| && forall i :: 0 <= i < |r| ==> r[i] == calls[i].data
  {
    seq(|calls|, i requires 0 <= i < |calls| => calls[i].data)
  }

  lemma {:induction false} PlainCovers(calls: seq<StoredCall>, earlier: seq<int>, comments: seq<CommentData>, from: nat)
    requires CursorAt(earlier, comments, from)
    ensures Covers(WritePlain(calls, comments, from), earlier, IndicesOf(DataOf(calls)), comments, from, |comments|)
    decreases |calls|
  {
    if calls == [] {
      RestCovers(earlier, comments, from);
    } else {
      var x, rest := calls[0].data.call.index, IndicesOf(DataOf(calls[1..]));
      var to := SkipComments(comments, from, x);
      TracedCallCovers(calls[0], earlier, comments, from);
      CursorStep(earlier, x, comments, from);
      PlainCovers(calls[1..], earlier + [x], comments, to);
      CoversConcat(TracedCall(calls[0], comments[from..to]), WritePlain(calls[1..], comments, to),
                   earlier, [x], rest, comments, from, to, |comments|);
      PlainStep(calls, comments, from);
    }
  }

  lemma PlainStep(calls: seq<StoredCall>, comments: seq<CommentData>, from: nat)
    requires calls != [] && from <= |comments|
    ensures IndicesOf(DataOf(calls)) == [calls[0].data.call.index] + IndicesOf(DataOf(calls[1..]))
    ensures var to := SkipComments(comments, from, calls[0].data.call.index);
            WritePlain(calls, comments, from) == TracedCall(calls[0], comments[from..to]) + WritePlain(calls[1..], comments, to)
  {
  }

  lemma RestCovers(earlier: seq<int>, comments: seq<CommentData>, from: nat)
    requires from <= |comments|
    ensures Covers(CommentRecords(comments[from..]), earlier, [], comments, from, |comments|)
  {
    CommentsCover(earlier, comments, from, |comments|);
    assert comments[from..|comments|] == comments[from..];
  }

  ghost function TracedCall(c: StoredCall, due: seq<CommentData>): seq<Record> {
    CallRecords(c.data, due) + if c.trace.Some? then TraceRecords(c.trace.value) else []
  }

  lemma TracedCallCovers(c: StoredCall, earlier: seq<int>, comments: seq<CommentData>, from: nat)
    requires CursorAt(earlier, comments, from)
    ensures var to := SkipComments(comments, from, c.data.call.index);
            Covers(TracedCall(c, comments[from..to]), earlier, [c.data.call.index], comments, from, to)
  {
    var to := SkipComments(comments, from, c.data.call.index);
    CallCovers(c.data, earlier, comments, from);
    CoversSilent(CallRecords(c.data, comments[from..to]), if c.trace.Some? then TraceRecords(c.trace.value) else [],
                 earlier, [c.data.call.index], comments, from, to);
  }

  lemma {:induction false} RunCovers(calls: seq<CallData>, earlier: seq<int>, comments: seq<CommentData>, from: nat)
    requires CursorAt(earlier, comments, from)
    ensures Covers(RunRecords(calls, Due(calls, comments, from)), earlier, IndicesOf(calls), comments, from,
                   DueEnd(calls, comments, from))
    decreases |calls|
  {
    if calls == [] {
      CommentsCover(earlier, comments, from, from);
    } else {
      var x := calls[0].call.index;
      var to := SkipComments(comments, from, x);
      CallCovers(calls[0], earlier, comments, from);
      CursorStep(earlier, x, comments, from);
      RunCovers(calls[1..], earlier + [x], comments, to);
      CoversConcat(CallRecords(calls[0], comments[from..to]), RunRecords(calls[1..], Due(calls[1..], comments, to)),
                   earlier, [x], IndicesOf(calls[1..]), comments, from, to, DueEnd(calls, comments, from));
      RunStep(calls, comments, from);
    }
  }

  lemma RunStep(calls: seq<CallData>, comments: seq<CommentData>, from: nat)
    requires calls != [] && from <= |comments|
    ensures IndicesOf(calls) == [calls[0].call.index] + IndicesOf(calls[1..])
    ensures var to := SkipComments(comments, from, calls[0].call.index);
            && RunRecords(calls, Due(calls, comments, from))
               == CallRecords(calls[0], comments[from..to]) + RunRecords(calls[1..], Due(calls[1..], comments, to))
            && DueEnd(calls, comments, from) == DueEnd(calls[1..], comments, to)
  {
    var to := SkipComments(comments, from, calls[0].call.index);
    assert Due(calls, comments, from)[1..] == Due(calls[1..], comments, to);
  }

  lemma GroupCovers(g: Group, earlier: seq<int>, comments: seq<CommentData>, from: nat)
    requires CursorAt(earlier, comments, from)
    ensures Covers(GroupRecords(g, Due(g.calls, comments, from)), earlier, IndicesOf(g.calls), comments, from,
                   DueEnd(g.calls, comments, from))
  {
    var run := RunRecords(g.calls, Due(g.calls, comments, from));
    RunCovers(g.calls, earlier, comments, from);
    TraceCovers(run, g.frames, earlier, IndicesOf(g.calls), comments, from, DueEnd(g.calls, comments, from));
  }

  lemma TraceCovers(run: seq<Record>, frames: seq<Frame>, earlier: seq<int>, indices: seq<int>, comments: seq<CommentData>,
                    from: nat, to: nat)
    requires Covers(run, earlier, indices, comments, from, to)
    ensures Covers(run + [Note] + TraceRecords(frames), earlier, indices, comments, from, to)
  {
    CoversSilent(run, [Note], earlier, indices, comments, from, to);
    CoversSilent(run + [Note], TraceRecords(frames), earlier, indices, comments, from, to);
  }

  ghost function CallsOf(groups: seq<Group>): seq<CallData> {
    if groups == [] then [] else groups[0].calls + CallsOf(groups[1..])
  }

  lemma {:induction false} CompressedCovers(groups: seq<Group>, earlier: seq<int>, comments: seq<CommentData>, from: nat)
    requires CursorAt(earlier, comments, from)
    ensures Covers(WriteCompressed(groups, comments, from), earlier, IndicesOf(CallsOf(groups)), comments, from, |comments|)
    decreases |groups|
  {
    if groups == [] {
      RestCovers(earlier, comments, from);
    } else {
      var g := groups[0];
      var to, first, rest := DueEnd(g.calls, comments, from), IndicesOf(g.calls), IndicesOf(CallsOf(groups[1..]));
      GroupCovers(g, earlier, comments, from);
      CursorAfter(earlier, g.calls, comments, from);
      CompressedCovers(groups[1..], earlier + first, comments, to);
      CoversConcat(GroupRecords(g, Due(g.calls, comments, from)), WriteCompressed(groups[1..], comments, to),
                   earlier, first, rest, comments, from, to, |comments|);
      CompressedStep(groups, comments, from);
    }
  }

  lemma CompressedStep(groups: seq<Group>, comments: seq<CommentData>, from: nat)
    requires groups != [] && from <= |comments|
    ensures IndicesOf(CallsOf(groups)) == IndicesOf(groups[0].calls) + IndicesOf(CallsOf(groups[1..]))
    ensures WriteCompressed(groups, comments, from)
         == GroupRecords(groups[0], Due(groups[0].calls, comments, from))
            + WriteCompressed(groups[1..], comments, DueEnd(groups[0].calls, comments, from))
  {
  }

  lemma CoversAll(recs: seq<Record>, indices: seq<int>, comments: seq<CommentData>)
    requires Covers(recs, [], indices, comments, 0, |comments|)
    ensures WellPlaced(recs, comments)
  {
    assert comments[0..|comments|] == comments;
    forall q: nat | q < |recs| && recs[q].CallRec? ensures StandsRight(recs, q, comments) {
      OnCourseAt(recs, q, comments);
      CursorCounts(IndicesIn(recs[..q + 1]), comments, |TextsIn(recs[..q])|);
    }
  }

  lemma CursorCounts(indices: seq<int>, comments: seq<CommentData>, n: nat)
    requires CursorAt(indices, comments, n)
    ensures CountsRight(indices, n, comments)
  {
    forall k: nat | k < |comments| ensures k < n <==> Overtaken(indices, comments, k) {
      CursorExact(indices, comments, n, k);
    }
  }

  /** In the uncompressed form the calls stand in their order and every comment in its place. */
  lemma PlainPlacesComments(calls: seq<StoredCall>, comments: seq<CommentData>)
    ensures IndicesIn(WritePlain(calls, comments, 0)) == IndicesOf(DataOf(calls))
    ensures WellPlaced(WritePlain(calls, comments, 0), comments)
  {
    PlainCovers(calls, [], comments, 0);
    CoversAll(WritePlain(calls, comments, 0), IndicesOf(DataOf(calls)), comments);
  }

  /** In the compressed form the calls stand group by group and every comment in its place. */
  lemma CompressedPlacesComments(groups: seq<Group>, comments: seq<CommentData>)
    ensures IndicesIn(WriteCompressed(groups, comments, 0)) == IndicesOf(CallsOf(groups))
    ensures WellPlaced(WriteCompressed(groups, comments, 0), comments)
  {
    CompressedCovers(groups, [], comments, 0);
    CoversAll(WriteCompressed(groups, comments, 0), IndicesOf(CallsOf(groups)), comments);
  }

  // ---------------------------------------------------------------- what comments are read

  /** The index of the call read last, zero before the first. */
  ghost function LastOf(indices: seq<int>): int {
    if indices == [] then 0 else indices[|indices| - 1]
  }

  /** The `q`-th record is a comment that is read with the index of the last call before it. */
  ghost predicate ReadRight(recs: seq<Record>, q: nat, read: seq<CommentData>)
    requires q < |recs| && recs[q].Comment?
  {
    var k := |TextsIn(recs[..q])|;
    k < |read| && read[k] == CommentData(LastOf(IndicesIn(recs[..q])), recs[q].text)
  }

  /** The reader gives every comment, in order, with the index of the last call before it. */
  lemma {:induction false} EveryCommentRead(recs: seq<Record>)
    ensures TextsOf(CommentsRead(recs)) == TextsIn(recs)
    ensures forall q: nat :: q < |recs| && recs[q].Comment? ==> ReadRight(recs, q, CommentsRead(recs))
    ensures ReadAll(FRESH, recs).lastIndex == LastOf(IndicesIn(recs))
    decreases |recs|
  {
    if recs != [] {
      var n := |recs| - 1;
      var front := recs[..n];
      EveryCommentRead(front);
      ReadLast(recs);
      LastTextRead(CommentsRead(front), ReadAll(FRESH, front).lastIndex, recs[n]);
      forall q: nat | q < |recs| && recs[q].Comment? ensures ReadRight(recs, q, CommentsRead(recs)) {
        if q < n { ReadBefore(recs, q, CommentsRead(recs), CommentsRead(front)); }
      }
    }
  }

  /** A comment that comes last is the last that is read. */
  lemma LastTextRead(before: seq<CommentData>, index: int, last: Record)
    ensures |before| == |TextsOf(before)|
    ensures var read := before + if last.Comment? then [CommentData(index, last.text)] else [];
            && TextsOf(read) == TextsOf(before) + TextOf(last)
            && (last.Comment? ==> |read| == |before| + 1 && read[|before|] == CommentData(index, last.text))
  {
    if last.Comment? {
      TextsOfLast(before, CommentData(index, last.text));
    } else {
      assert before + [] == before;
    }
  }

  lemma TextsOfLast(before: seq<CommentData>, c: CommentData)
    ensures TextsOf(before + [c]) == TextsOf(before) + [c.text] && |TextsOf(before)| == |before|
  {
  }

  lemma ReadBefore(recs: seq<Record>, q: nat, read: seq<CommentData>, before: seq<CommentData>)
    requires q < |recs| - 1 && recs[q].Comment? && |before| <= |read| && read[..|before|] == before
    requires ReadRight(recs[..|recs| - 1], q, before)
    ensures ReadRight(recs, q, read)
  {
    PrefixOfPrefix(recs, q, |recs| - 1);
    assert read[|TextsIn(recs[..q])|] == before[|TextsIn(recs[..q])|];
  }

  /** What the last record adds. */
  lemma ReadLast(recs: seq<Record>)
    requires recs != []
    ensures var st, last := ReadAll(FRESH, recs[..|recs| - 1]), recs[|recs| - 1];
            && ReadAll(FRESH, recs).lastIndex == (if last.CallRec? then last.call.index else st.lastIndex)
            && ReadAll(FRESH, recs).comments
               == st.comments + if last.Comment? then [CommentData(st.lastIndex, last.text)] else []
  {
    var front, last := recs[..|recs| - 1], recs[|recs| - 1];
    assert recs == front + [last];
    ReadConcat(FRESH, front, [last]);
    ReadOne(ReadAll(FRESH, front), last);
  }

  lemma ReadOne(st: Reader, rec: Record)
    ensures var r := ReadAll(st, [rec]);
            && r.lastIndex == (if rec.CallRec? then rec.call.index else st.lastIndex)
            && r.comments == st.comments + if rec.Comment? then [CommentData(st.lastIndex, rec.text)] else []
  {
    assert ReadAll(st, [rec]) == ReadAll(Read(st, rec), []);
  }

  lemma {:induction false} CommentAt(recs: seq<Record>, k: nat) returns (q: nat)
    requires k < |TextsIn(recs)|
    ensures q < |recs| && recs[q].Comment? && |TextsIn(recs[..q])| == k
    decreases |recs|
  {
    var n := |recs| - 1;
    if k < |TextsIn(recs[..n])| {
      q := CommentAt(recs[..n], k);
      assert recs[..n][..q] == recs[..q];
    } else {
      q := n;
    }
  }

  lemma {:induction false} CallAt(recs: seq<Record>, i: nat) returns (p: nat)
    requires i < |IndicesIn(recs)|
    ensures p < |recs| && recs[p].CallRec? && |IndicesIn(recs[..p])| == i
    decreases |recs|
  {
    var n := |recs| - 1;
    if i < |IndicesIn(recs[..n])| {
      p := CallAt(recs[..n], i);
      assert recs[..n][..p] == recs[..p];
    } else {
      p := n;
    }
  }

  /** What stands among the first records stands among more of them. */
  lemma InLonger(recs: seq<Record>, p: nat, q: nat)
    requires p <= q <= |recs|
    ensures |TextsIn(recs[..p])| <= |TextsIn(recs[..q])| && |IndicesIn(recs[..p])| <= |IndicesIn(recs[..q])|
    ensures IndicesIn(recs[..p]) == IndicesIn(recs[..q])[..|IndicesIn(recs[..p])|]
  {
    InConcat(recs[..p], recs[p..q]);
    assert recs[..p] + recs[p..q] == recs[..q];
  }

  ghost predicate InOrder(indices: seq<int>) {
    forall i, j :: 0 <= i < j < |indices| ==> indices[i] <= indices[j]
  }

  /** The calls up to an index that the comments up to `k` reach are the first `n`. */
  ghost predicate ReachesJust(indices: seq<int>, comments: seq<CommentData>, k: nat, n: nat)
    requires k < |comments|
  {
    n <= |indices| && forall i :: 0 <= i < |indices| ==> (Reaches(comments, k, indices[i]) <==> i < n)
  }

  /** Among calls in order, a comment is read with the index of the last call that it, or one before it, reaches. */
  lemma ReadIndex(recs: seq<Record>, comments: seq<CommentData>, k: nat) returns (n: nat)
    requires WellPlaced(recs, comments) && InOrder(IndicesIn(recs)) && k < |comments|
    ensures ReachesJust(IndicesIn(recs), comments, k, n) && k < |CommentsRead(recs)|
    ensures CommentsRead(recs)[k] == CommentData(LastOf(IndicesIn(recs)[..n]), comments[k].text)
  {
    var indices := IndicesIn(recs);
    var q := CommentAt(recs, k);
    EveryCommentRead(recs);
    assert ReadRight(recs, q, CommentsRead(recs));
    assert CommentsRead(recs)[k].text == TextsOf(CommentsRead(recs))[k] == TextsOf(comments)[k];
    n := |IndicesIn(recs[..q])|;
    InLonger(recs, q, |recs|);
    assert recs[..|recs|] == recs;
    if n > 0 { ReachedBefore(recs, comments, k, q); }
    if n < |indices| { OvertakenBehind(recs, comments, k, q); }
    ReachSplits(indices, comments, k, n);
  }

  /** The calls in front of a comment do not overtake it. */
  lemma ReachedBefore(recs: seq<Record>, comments: seq<CommentData>, k: nat, q: nat)
    requires WellPlaced(recs, comments) && k < |comments| && q <= |recs| && |TextsIn(recs[..q])| == k
    requires IndicesIn(recs[..q]) != []
    ensures !Overtaken(IndicesIn(recs[..q]), comments, k)
  {
    var p := LastCallBefore(recs, q);
    assert CountsRight(IndicesIn(recs[..p + 1]), |TextsIn(recs[..p])|, comments);
  }

  lemma LastCallBefore(recs: seq<Record>, q: nat) returns (p: nat)
    requires q <= |recs| && IndicesIn(recs[..q]) != []
    ensures p < q && recs[p].CallRec? && IndicesIn(recs[..p + 1]) == IndicesIn(recs[..q])
    ensures |TextsIn(recs[..p])| <= |TextsIn(recs[..q])|
  {
    p := CallAt(recs[..q], |IndicesIn(recs[..q])| - 1);
    assert recs[..q][..p] == recs[..p];
    InPrefix(recs, p);
    InLonger(recs, p, q);
    InLonger(recs, p + 1, q);
  }

  /** The next call behind a comment, or one before it, overtakes it. */
  lemma OvertakenBehind(recs: seq<Record>, comments: seq<CommentData>, k: nat, q: nat)
    requires WellPlaced(recs, comments) && k < |comments| && q < |recs| && recs[q].Comment? && |TextsIn(recs[..q])| == k
    requires |IndicesIn(recs[..q])| < |IndicesIn(recs)|
    ensures Overtaken(IndicesIn(recs)[..|IndicesIn(recs[..q])| + 1], comments, k)
  {
    var n := |IndicesIn(recs[..q])|;
    var p := CallAt(recs, n);
    CallBehind(recs, q, p);
    InLonger(recs, q + 1, p);
    InPrefix(recs, q);
    NextIndex(recs, p);
    assert CountsRight(IndicesIn(recs[..p + 1]), |TextsIn(recs[..p])|, comments);
  }

  lemma CallBehind(recs: seq<Record>, q: nat, p: nat)
    requires q < |recs| && p < |recs| && recs[q].Comment? && recs[p].CallRec?
    requires |IndicesIn(recs[..q])| == |IndicesIn(recs[..p])|
    ensures q < p
  {
    if p < q {
      InPrefix(recs, p);
      InLonger(recs, p + 1, q);
    }
  }

  lemma NextIndex(recs: seq<Record>, p: nat)
    requires p < |recs| && recs[p].CallRec?
    ensures |IndicesIn(recs[..p])| < |IndicesIn(recs)|
    ensures IndicesIn(recs[..p + 1]) == IndicesIn(recs)[..|IndicesIn(recs[..p])| + 1]
  {
    InPrefix(recs, p);
    InLonger(recs, p + 1, |recs|);
    assert recs[..|recs|] == recs;
  }

  lemma ReachSplits(indices: seq<int>, comments: seq<CommentData>, k: nat, n: nat)
    requires InOrder(indices) && k < |comments| && n <= |indices|
    requires n > 0 ==> !Overtaken(indices[..n], comments, k)
    requires n < |indices| ==> Overtaken(indices[..n + 1], comments, k)
    ensures ReachesJust(indices, comments, k, n)
  {
    forall i | 0 <= i < n ensures Reaches(comments, k, indices[i]) {
      assert indices[..n][i] == indices[i];
    }
    if n < |indices| {
      var i :| 0 <= i < n + 1 && !Reaches(comments, k, indices[..n + 1][i]);
      assert i == n;
      forall j | n <= j < |indices| ensures !Reaches(comments, k, indices[j]) {
        assert indices[n] <= indices[j];
      }
    }
  }

  /** The comments have ascending indices, each that of a call or, before all calls, zero. */
  ghost predicate Anchored(indices: seq<int>, comments: seq<CommentData>) {
    && (forall m, k :: 0 <= m < k < |comments| ==> comments[m].index <= comments[k].index)
    && (forall k :: 0 <= k < |comments| ==>
          comments[k].index in indices || (comments[k].index == 0 && forall i :: 0 <= i < |indices| ==> indices[i] > 0))
  }

  /** The comment is read with the index it was written with. */
  ghost predicate Returns(indices: seq<int>, comments: seq<CommentData>, k: nat, n: nat)
    requires k < |comments| && n <= |indices|
  {
    LastOf(indices[..n]) == comments[k].index
  }

  lemma AnchoredReturns(indices: seq<int>, comments: seq<CommentData>, k: nat, n: nat)
    requires InOrder(indices) && Anchored(indices, comments) && k < |comments| && ReachesJust(indices, comments, k, n)
    ensures Returns(indices, comments, k, n)
  {
    var x := comments[k].index;
    forall i | 0 <= i < |indices| ensures Reaches(comments, k, indices[i]) <==> indices[i] <= x {
    }
    if x in indices {
      var i :| 0 <= i < |indices| && indices[i] == x;
      assert i < n && indices[i] <= indices[n - 1];
    }
  }

  lemma ReturnsInOrder(indices: seq<int>, comments: seq<CommentData>, m: nat, k: nat, a: nat, b: nat)
    requires InOrder(indices) && m < k < |comments|
    requires ReachesJust(indices, comments, m, a) && Returns(indices, comments, m, a)
    requires ReachesJust(indices, comments, k, b) && Returns(indices, comments, k, b)
    ensures comments[m].index <= comments[k].index
  {
    if a > 0 {
      assert Reaches(comments, m, indices[a - 1]);
      var i :| 0 <= i <= m && indices[a - 1] <= comments[i].index;
      assert Reaches(comments, k, indices[a - 1]);
    } else if b > 0 {
      assert !Reaches(comments, m, indices[b - 1]);
    }
  }

  lemma ReturnsAnchored(indices: seq<int>, comments: seq<CommentData>, k: nat, n: nat)
    requires InOrder(indices) && k < |comments| && ReachesJust(indices, comments, k, n) && Returns(indices, comments, k, n)
    ensures comments[k].index in indices || (comments[k].index == 0 && forall i :: 0 <= i < |indices| ==> indices[i] > 0)
  {
    if n > 0 {
      assert indices[n - 1] == comments[k].index;
    } else {
      forall i | 0 <= i < |indices| ensures indices[i] > 0 {
        assert !Reaches(comments, k, indices[i]);
      }
    }
  }

  /**
   When calls are written in index order, the comments read back as they were if and only if their indices
   ascend and each is that of a call, or zero before the first.
   */
  lemma CommentsRoundTrip(calls: seq<StoredCall>, comments: seq<CommentData>)
    requires InOrder(IndicesOf(DataOf(calls)))
    ensures CommentsRead(WritePlain(calls, comments, 0)) == comments <==> Anchored(IndicesOf(DataOf(calls)), comments)
  {
    var recs, indices := WritePlain(calls, comments, 0), IndicesOf(DataOf(calls));
    PlainPlacesComments(calls, comments);
    if Anchored(indices, comments) { AnchoredReadBack(recs, comments); }
    if CommentsRead(recs) == comments { ReadBackAnchored(recs, comments); }
  }

  lemma AnchoredReadBack(recs: seq<Record>, comments: seq<CommentData>)
    requires WellPlaced(recs, comments) && InOrder(IndicesIn(recs)) && Anchored(IndicesIn(recs), comments)
    ensures CommentsRead(recs) == comments
  {
    EveryCommentRead(recs);
    assert |CommentsRead(recs)| == |TextsOf(CommentsRead(recs))| == |TextsOf(comments)|;
    forall k: nat | k < |comments| ensures CommentsRead(recs)[k] == comments[k] {
      var n := ReadIndex(recs, comments, k);
      AnchoredReturns(IndicesIn(recs), comments, k, n);
    }
  }

  lemma ReadBackAnchored(recs: seq<Record>, comments: seq<CommentData>)
    requires WellPlaced(recs, comments) && InOrder(IndicesIn(recs)) && CommentsRead(recs) == comments
    ensures Anchored(IndicesIn(recs), comments)
  {
    var indices := IndicesIn(recs);
    forall k: nat | k < |comments|
      ensures comments[k].index in indices || (comments[k].index == 0 && forall i :: 0 <= i < |indices| ==> indices[i] > 0)
    {
      var n := ReadIndex(recs, comments, k);
      ReturnsAnchored(indices, comments, k, n);
    }
    forall m: nat, k: nat | m < k < |comments| ensures comments[m].index <= comments[k].index {
      var a := ReadIndex(recs, comments, m);
      var b := ReadIndex(recs, comments, k);
      ReturnsInOrder(indices, comments, m, k, a, b);
    }
  }
}
