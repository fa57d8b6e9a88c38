/**
 Writing the calls of a trace as text records, one by one or grouped by backtrace, and reading the
 records back. Grouping moves calls about; reading sorts them again.
 */
module Compression {
  import opened TraceTypes
  import opened Ordering

  datatype Frame = Frame(addr: nat, name: Option<string>)

  /** A call with its arguments; a call without arguments writes none. */
  datatype CallData = CallData(call: Call, args: seq<Arg>)

  /** A call in the store with the backtrace it points at, if any. */
  datatype StoredCall = StoredCall(data: CallData, trace: Option<seq<Frame>>)

  /** A comment and the index of the call it was read after. */
  datatype CommentData = CommentData(index: int, text: string)

  /** A stored backtrace and the calls that refer to it. */
  datatype Group = Group(frames: seq<Frame>, calls: seq<CallData>)

  /** One line of the text format. `Note` is a temporary comment, which readers discard. */
  datatype Record =
    | CallRec(call: Call)
    | ArgRec(arg: Arg)
    | FrameRec(frame: Frame)
    | Blank
    | Comment(text: string)
    | Note

  // ---------------------------------------------------------------- writer

  /** The position after the comments that go before a call with index `before`. */
  ghost function SkipComments(comments: seq<CommentData>, from: nat, before: int): (to: nat)
    requires from <= |comments|
    ensures from <= to <= |comments|
    decreases |comments| - from
  {
    if from < |comments| && comments[from].index < before then SkipComments(comments, from + 1, before) else from
  }

  lemma {:induction false} SkipStops(comments: seq<CommentData>, from: nat, before: int)
    requires from <= |comments|
    ensures var to := SkipComments(comments, from, before);
            && (forall m :: from <= m < to ==> comments[m].index < before)
            && (to < |comments| ==> comments[to].index >= before)
    decreases |comments| - from
  {
    if from < |comments| && comments[from].index < before { SkipStops(comments, from + 1, before); }
  }

  ghost function CommentRecords(comments: seq<CommentData>): (r: seq<Record>)
    ensures |r| == |comments| && forall i :: 0 <= i < |r| ==> r[i] == Comment(comments[i].text)
  {
    seq(|comments|, i requires 0 <= i < |comments| => Comment(comments[i].text))
  }

  ghost function ArgRecords(args: seq<Arg>): (r: seq<Record>)
    ensures |r| == |args| && forall i :: 0 <= i < |r| ==> r[i] == ArgRec(args[i])
  {
    seq(|args|, i requires 0 <= i < |args| => ArgRec(args[i]))
  }

  ghost function FrameRecords(frames: seq<Frame>): (r: seq<Record>)
    ensures |r| == |frames| && forall i :: 0 <= i < |r| ==> r[i] == FrameRec(frames[i])
  {
    seq(|frames|, i requires 0 <= i < |frames| => FrameRec(frames[i]))
  }

  ghost function TraceRecords(frames: seq<Frame>): seq<Record> {
    FrameRecords(frames) + [Blank]
  }

  /** A call as it appears in both forms: the comments due before it, the call and its arguments. */
  ghost function CallRecords(c: CallData, due: seq<CommentData>): seq<Record> {
    CommentRecords(due) + [CallRec(c.call)] + ArgRecords(c.args)
  }

  /** The uncompressed form: each call with its own backtrace. */
  ghost function WritePlain(calls: seq<StoredCall>, comments: seq<CommentData>, from: nat): seq<Record>
    requires from <= |comments|
  {
    if calls == [] then CommentRecords(comments[from..])
    else
      var to := SkipComments(comments, from, calls[0].data.call.index);
      CallRecords(calls[0].data, comments[from..to])
      + (if calls[0].trace.Some? then TraceRecords(calls[0].trace.value) else [])
      + WritePlain(calls[1..], comments, to)
  }

  /** The comments that fall due before each call of a run, starting at comment `from`. */
  ghost function Due(calls: seq<CallData>, comments: seq<CommentData>, from: nat): (due: seq<seq<CommentData>>)
    requires from <= |comments|
    ensures |due| == |calls|
  {
    if calls == [] then []
    else
      var to := SkipComments(comments, from, calls[0].call.index);
      [comments[from..to]] + Due(calls[1..], comments, to)
  }

  ghost function DueEnd(calls: seq<CallData>, comments: seq<CommentData>, from: nat): (to: nat)
    requires from <= |comments|
    ensures from <= to <= |comments|
  {
    if calls == [] then from else DueEnd(calls[1..], comments, SkipComments(comments, from, calls[0].call.index))
  }

  ghost function RunRecords(calls: seq<CallData>, due: seq<seq<CommentData>>): seq<Record>
    requires |due| == |calls|
  {
    if calls == [] then [] else CallRecords(calls[0], due[0]) + RunRecords(calls[1..], due[1..])
  }

  ghost function GroupRecords(g: Group, due: seq<seq<CommentData>>): seq<Record>
    requires |due| == |g.calls|
  {
    RunRecords(g.calls, due) + [Note] + TraceRecords(g.frames)
  }

  /** The compressed form: the calls of each backtrace, then the backtrace once. */
  ghost function WriteCompressed(groups: seq<Group>, comments: seq<CommentData>, from: nat): seq<Record>
    requires from <= |comments|
  {
    if groups == [] then CommentRecords(comments[from..])
    else
      GroupRecords(groups[0], Due(groups[0].calls, comments, from))
      + WriteCompressed(groups[1..], comments, DueEnd(groups[0].calls, comments, from))
  }

  // ---------------------------------------------------------------- reader

  /** A call that was read together with its backtrace. */
  datatype Loaded = Loaded(data: CallData, frames: seq<Frame>)

  /** `pending` are the calls read since the last backtrace; `args` belong to the last of them. */
  datatype Reader = Reader(loaded: seq<Loaded>, pending: seq<CallData>, args: seq<Arg>, frames: seq<Frame>,
                           comments: seq<CommentData>, lastIndex: int)

  const FRESH := Reader([], [], [], [], [], 0)

  ghost function WithArgs(pending: seq<CallData>, args: seq<Arg>): (r: seq<CallData>)
    ensures |r| == |pending|
  {
    if pending == [] || args == [] then pending
    else pending[..|pending| - 1] + [pending[|pending| - 1].(args := args)]
  }

  ghost function WithFrames(calls: seq<CallData>, frames: seq<Frame>): (r: seq<Loaded>)
    ensures |r| == |calls| && forall i :: 0 <= i < |r| ==> r[i] == Loaded(calls[i], frames)
  {
    seq(|calls|, i requires 0 <= i < |calls| => Loaded(calls[i], frames))
  }

  /** Gives all pending calls the frames collected so far. */
  ghost function StoreBacktrace(st: Reader): Reader {
    st.(loaded := st.loaded + WithFrames(st.pending, st.frames), pending := [], frames := [])
  }

  ghost function Read(st: Reader, rec: Record): Reader {
    match rec
    case Note => st
    case FrameRec(f) => if st.pending != [] then st.(frames := st.frames + [f]) else st
    case ArgRec(a) => if st.pending != [] then st.(args := st.args + [a]) else st
    case _ =>
      var s1 := st.(pending := WithArgs(st.pending, st.args), args := []);
      var s2 := if s1.frames != [] || rec.Blank? then StoreBacktrace(s1) else s1;
      match rec
      case CallRec(c) => s2.(pending := s2.pending + [CallData(c, [])], lastIndex := c.index)
      case Comment(text) =>
        var s3 := StoreBacktrace(s2);
        s3.(comments := s3.comments + [CommentData(s3.lastIndex, text)])
      case _ => s2
  }

  ghost function ReadAll(st: Reader, recs: seq<Record>): Reader
    decreases |recs|
  {
    if recs == [] then st else ReadAll(Read(st, recs[0]), recs[1..])
  }

  /** What is loaded when the input ends: calls still pending get the frames collected so far. */
  ghost function Finish(st: Reader): seq<Loaded> {
    StoreBacktrace(st.(pending := WithArgs(st.pending, st.args), args := [])).loaded
  }

  ghost function ReadText(recs: seq<Record>): seq<Loaded> {
    Finish(ReadAll(FRESH, recs))
  }

  ghost function CommentsRead(recs: seq<Record>): seq<CommentData> {
    ReadAll(FRESH, recs).comments
  }

  // ---------------------------------------------------------------- reading what was written

  lemma {:induction false} ReadConcat(st: Reader, a: seq<Record>, b: seq<Record>)
    ensures ReadAll(st, a + b) == ReadAll(ReadAll(st, a), b)
    decreases |a|
  {
    if a == [] {
      assert a + b == b;
    } else {
      ReadConcat(Read(st, a[0]), a[1..], b);
      FirstOfConcat(a, b);
    }
  }

  /** Frames and arguments without a call before them are ignored, as temporary comments are everywhere. */
  lemma {:induction false} StrayIgnored(st: Reader, recs: seq<Record>)
    requires st.pending == [] && forall i :: 0 <= i < |recs| ==> recs[i].FrameRec? || recs[i].ArgRec? || recs[i].Note?
    ensures ReadAll(st, recs) == st
    decreases |recs|
  {
    if recs != [] { StrayIgnored(Read(st, recs[0]), recs[1..]); }
  }

  lemma NoteIgnored(st: Reader, a: seq<Record>, b: seq<Record>)
    ensures ReadAll(st, a + [Note] + b) == ReadAll(st, a + b)
  {
    ReadConcat(st, a + [Note], b);
    ReadConcat(st, a, [Note]);
    ReadConcat(st, a, b);
    assert ReadAll(ReadAll(st, a), [Note]) == ReadAll(Read(ReadAll(st, a), Note), []);
  }

  /** Ready for a call: nothing is pending. */
  ghost predicate Idle(st: Reader) {
    st.pending == [] && st.args == [] && st.frames == []
  }

  lemma {:induction false} ReadArgs(st: Reader, args: seq<Arg>)
    requires st.pending != []
    ensures ReadAll(st, ArgRecords(args)) == st.(args := st.args + args)
    decreases |args|
  {
    if args == [] {
      assert st.args + args == st.args;
    } else {
      ReadArgs(Read(st, ArgRec(args[0])), args[1..]);
      assert ArgRecords(args)[1..] == ArgRecords(args[1..]);
      assert st.args + [args[0]] + args[1..] == st.args + args;
    }
  }

  lemma {:induction false} ReadFrames(st: Reader, frames: seq<Frame>)
    requires st.pending != []
    ensures ReadAll(st, FrameRecords(frames)) == st.(frames := st.frames + frames)
    decreases |frames|
  {
    if frames == [] {
      assert st.frames + frames == st.frames;
    } else {
      ReadFrames(Read(st, FrameRec(frames[0])), frames[1..]);
      assert FrameRecords(frames)[1..] == FrameRecords(frames[1..]);
      assert st.frames + [frames[0]] + frames[1..] == st.frames + frames;
    }
  }

  /** The pending calls, with the arguments read last given to the last of them. */
  ghost function Effective(st: Reader): seq<CallData> {
    WithArgs(st.pending, st.args)
  }

  /** Comments settle what is pending with an empty backtrace; with nothing pending they do nothing to calls. */
  lemma {:induction false} ReadComments(st: Reader, due: seq<CommentData>)
    requires st.frames == [] && (st.pending == [] ==> st.args == [])
    ensures var r := ReadAll(st, CommentRecords(due));
            && r.frames == [] && |r.comments| == |st.comments| + |due|
            && (due == [] ==> r == st)
            && (due != [] ==> Idle(r) && r.loaded == st.loaded + WithFrames(Effective(st), []))
    decreases |due|
  {
    if due != [] {
      var s := Read(st, Comment(due[0].text));
      assert s.loaded == st.loaded + WithFrames(Effective(st), []);
      ReadComments(s, due[1..]);
      assert CommentRecords(due)[1..] == CommentRecords(due[1..]);
      assert s.loaded + WithFrames(Effective(s), []) == s.loaded;
    }
  }

  lemma WithArgsLast(pending: seq<CallData>, c: CallData)
    ensures WithArgs(pending + [CallData(c.call, [])], c.args) == pending + [c]
  {
  }

  /** Reading one written call. */
  lemma ReadCall(st: Reader, c: CallData, due: seq<CommentData>)
    requires st.frames == [] && (st.pending == [] ==> st.args == [])
    ensures var r := ReadAll(st, CallRecords(c, due));
            && r.frames == [] && r.pending != []
            && r.loaded == st.loaded + (if due == [] then [] else WithFrames(Effective(st), []))
            && Effective(r) == (if due == [] then Effective(st) else []) + [c]
  {
    ReadComments(st, due);
    ReadBareCall(ReadAll(st, CommentRecords(due)), c);
    CallRecordsRead(st, c, due);
  }

  lemma ReadBareCall(st: Reader, c: CallData)
    requires st.frames == []
    ensures var r := ReadAll(Read(st, CallRec(c.call)), ArgRecords(c.args));
            r.frames == [] && r.pending != [] && r.loaded == st.loaded && Effective(r) == Effective(st) + [c]
  {
    ReadCallRecord(st, c.call);
    ReadArgs(Read(st, CallRec(c.call)), c.args);
    assert [] + c.args == c.args;
    WithArgsLast(Effective(st), c);
  }

  lemma ReadCallRecord(st: Reader, c: Call)
    requires st.frames == []
    ensures Read(st, CallRec(c))
         == st.(pending := Effective(st) + [CallData(c, [])], args := [], lastIndex := c.index)
  {
  }

  lemma CallRecordsRead(st: Reader, c: CallData, due: seq<CommentData>)
    ensures ReadAll(st, CallRecords(c, due))
         == ReadAll(Read(ReadAll(st, CommentRecords(due)), CallRec(c.call)), ArgRecords(c.args))
  {
    var com, cal, arg := CommentRecords(due), [CallRec(c.call)], ArgRecords(c.args);
    ReadConcat(st, com + cal, arg);
    ReadConcat(st, com, cal);
    assert ReadAll(ReadAll(st, com), cal) == Read(ReadAll(st, com), cal[0]);
  }

  /** Reading a written backtrace gives it to everything pending. */
  lemma ReadTrace(st: Reader, frames: seq<Frame>)
    requires st.frames == [] && st.pending != []
    ensures var r := ReadAll(st, TraceRecords(frames));
            Idle(r) && r.loaded == st.loaded + WithFrames(Effective(st), frames)
  {
    ReadConcat(st, FrameRecords(frames), [Blank]);
    ReadFrames(st, frames);
    assert [] + frames == frames;
    var s := st.(frames := frames);
    assert ReadAll(s, [Blank]) == Read(s, Blank);
  }

  // ---------------------------------------------------------------- the uncompressed form

  ghost predicate AllTraced(calls: seq<StoredCall>) {
    forall i :: 0 <= i < |calls| ==> calls[i].trace.Some?
  }

  /** What the store says about its calls. */
  ghost function Expected(calls: seq<StoredCall>): (r: seq<Loaded>)
    requires AllTraced(calls)
    ensures |r| == |calls|
  {
    seq(|calls|, i requires 0 <= i < |calls| => Loaded(calls[i].data, calls[i].trace.value))
  }

  lemma {:induction false} ReadPlain(st: Reader, calls: seq<StoredCall>, comments: seq<CommentData>, from: nat)
    requires from <= |comments| && AllTraced(calls) && Idle(st)
    ensures var r := ReadAll(st, WritePlain(calls, comments, from));
            Idle(r) && r.loaded == st.loaded + Expected(calls)
    decreases |calls|
  {
    if calls == [] {
      ReadComments(st, comments[from..]);
      assert st.loaded + WithFrames(Effective(st), []) == st.loaded;
    } else {
      var to := SkipComments(comments, from, calls[0].data.call.index);
      var c, due := calls[0], comments[from..to];
      var rest := WritePlain(calls[1..], comments, to);
      ReadTracedCall(st, c.data, c.trace.value, due, rest);
      var q := ReadAll(st, CallRecords(c.data, due) + TraceRecords(c.trace.value));
      ReadPlain(q, calls[1..], comments, to);
      ExpectedAfter(calls, st.loaded);
    }
  }

  lemma ExpectedAfter(calls: seq<StoredCall>, before: seq<Loaded>)
    requires calls != [] && AllTraced(calls)
    ensures before + Expected(calls)
         == before + [Loaded(calls[0].data, calls[0].trace.value)] + Expected(calls[1..])
  {
  }

  /** A written call and its backtrace, in front of more records. */
  lemma ReadTracedCall(st: Reader, c: CallData, frames: seq<Frame>, due: seq<CommentData>, rest: seq<Record>)
    requires Idle(st)
    ensures var records := CallRecords(c, due) + TraceRecords(frames); var q := ReadAll(st, records);
            && ReadAll(st, records + rest) == ReadAll(q, rest)
            && Idle(q) && q.loaded == st.loaded + [Loaded(c, frames)]
  {
    var head, trace := CallRecords(c, due), TraceRecords(frames);
    ReadConcat(st, head + trace, rest);
    ReadConcat(st, head, trace);
    var s := ReadAll(st, head);
    ReadCall(st, c, due);
    ReadTrace(s, frames);
  }

  /** The uncompressed form reads back as the calls of the store, whatever the comments. */
  lemma PlainRoundTrip(calls: seq<StoredCall>, comments: seq<CommentData>)
    requires AllTraced(calls)
    ensures ReadText(WritePlain(calls, comments, 0)) == Expected(calls)
  {
    ReadPlain(FRESH, calls, comments, 0);
    assert [] + Expected(calls) == Expected(calls);
  }

  // ---------------------------------------------------------------- the compressed form

  /** How the calls of one group load: a comment inside the group cuts off the calls before it. */
  ghost function GroupLoaded(pending: seq<CallData>, calls: seq<CallData>, due: seq<seq<CommentData>>,
                             frames: seq<Frame>): (r: seq<Loaded>)
    requires |due| == |calls|
    ensures |r| == |pending| + |calls|
    decreases |calls|
  {
    if calls == [] then WithFrames(pending, frames)
    else if due[0] == [] then GroupLoaded(pending + [calls[0]], calls[1..], due[1..], frames)
    else WithFrames(pending, []) + GroupLoaded([calls[0]], calls[1..], due[1..], frames)
  }

  lemma GroupLoadedStep(loaded: seq<Loaded>, pending: seq<CallData>, calls: seq<CallData>,
                        due: seq<seq<CommentData>>, frames: seq<Frame>)
    requires |due| == |calls| && calls != []
    ensures loaded + GroupLoaded(pending, calls, due, frames)
         == loaded + (if due[0] == [] then [] else WithFrames(pending, []))
            + GroupLoaded((if due[0] == [] then pending else []) + [calls[0]], calls[1..], due[1..], frames)
  {
    assert [] + [calls[0]] == [calls[0]];
  }

  lemma {:induction false} ReadRun(st: Reader, calls: seq<CallData>, due: seq<seq<CommentData>>, frames: seq<Frame>)
    requires |due| == |calls| && st.frames == [] && (st.pending == [] ==> st.args == [])
    requires st.pending != [] || calls != []
    ensures var r := ReadAll(ReadAll(st, RunRecords(calls, due)), TraceRecords(frames));
            Idle(r) && r.loaded == st.loaded + GroupLoaded(Effective(st), calls, due, frames)
    decreases |calls|
  {
    if calls == [] {
      ReadTrace(st, frames);
    } else {
      var head, rest := CallRecords(calls[0], due[0]), RunRecords(calls[1..], due[1..]);
      ReadConcat(st, head, rest);
      ReadCall(st, calls[0], due[0]);
      var s := ReadAll(st, head);
      ReadRun(s, calls[1..], due[1..], frames);
      GroupLoadedStep(st.loaded, Effective(st), calls, due, frames);
    }
  }

  lemma ReadGroup(st: Reader, g: Group, due: seq<seq<CommentData>>)
    requires Idle(st) && g.calls != [] && |due| == |g.calls|
    ensures var r := ReadAll(st, GroupRecords(g, due));
            Idle(r) && r.loaded == st.loaded + GroupLoaded([], g.calls, due, g.frames)
  {
    var run, trace := RunRecords(g.calls, due), TraceRecords(g.frames);
    ReadConcat(st, run + [Note], trace);
    ReadConcat(st, run, [Note]);
    assert ReadAll(ReadAll(st, run), [Note]) == Read(ReadAll(st, run), Note);
    ReadRun(st, g.calls, due, g.frames);
  }

  ghost predicate InUse(groups: seq<Group>) {
    forall i :: 0 <= i < |groups| ==> groups[i].calls != []
  }

  ghost function GroupsLoaded(groups: seq<Group>, comments: seq<CommentData>, from: nat): seq<Loaded>
    requires from <= |comments|
  {
    if groups == [] then []
    else
      GroupLoaded([], groups[0].calls, Due(groups[0].calls, comments, from), groups[0].frames)
      + GroupsLoaded(groups[1..], comments, DueEnd(groups[0].calls, comments, from))
  }

  lemma {:induction false} ReadCompressed(st: Reader, groups: seq<Group>, comments: seq<CommentData>, from: nat)
    requires from <= |comments| && InUse(groups) && Idle(st)
    ensures var r := ReadAll(st, WriteCompressed(groups, comments, from));
            Idle(r) && r.loaded == st.loaded + GroupsLoaded(groups, comments, from)
    decreases |groups|
  {
    if groups == [] {
      ReadComments(st, comments[from..]);
      assert st.loaded + WithFrames(Effective(st), []) == st.loaded;
    } else {
      var g := groups[0];
      var due, to := Due(g.calls, comments, from), DueEnd(g.calls, comments, from);
      ReadConcat(st, GroupRecords(g, due), WriteCompressed(groups[1..], comments, to));
      ReadGroup(st, g, due);
      ReadCompressed(ReadAll(st, GroupRecords(g, due)), groups[1..], comments, to);
      Regrouped(st.loaded, GroupLoaded([], g.calls, due, g.frames), GroupsLoaded(groups[1..], comments, to));
    }
  }

  // ---------------------------------------------------------------- where a comment falls

  ghost function IndicesOf(calls: seq<CallData>): (r: seq<int>)
    ensures |r| == |calls| && forall i :: 0 <= i < |r| ==> r[i] == calls[i].call.index
  {
    seq(|calls|, i requires 0 <= i < |calls| => calls[i].call.index)
  }

  /** Comment `k`, or one before it, has at least the index `x`. */
  ghost predicate Reaches(comments: seq<CommentData>, k: nat, x: int)
    requires k < |comments|
  {
    exists m :: 0 <= m <= k && x <= comments[m].index
  }

  /** A call has a larger index than comment `k` and than every comment before it. */
  ghost predicate Overtaken(indices: seq<int>, comments: seq<CommentData>, k: nat)
    requires k < |comments|
  {
    exists i :: 0 <= i < |indices| && !Reaches(comments, k, indices[i])
  }

  /** Of all calls written so far, the one with index `x` is the first to overtake comment `k`. */
  ghost predicate FallsBefore(earlier: seq<int>, x: int, comments: seq<CommentData>, k: nat)
    requires k < |comments|
  {
    !Reaches(comments, k, x) && !Overtaken(earlier, comments, k)
  }

  /** The cursor stands behind the comments that calls with these indices have overtaken. */
  ghost predicate CursorAt(indices: seq<int>, comments: seq<CommentData>, from: nat) {
    && from <= |comments|
    && (from > 0 ==> exists i :: 0 <= i < |indices| && forall m :: 0 <= m < from ==> comments[m].index < indices[i])
    && (from < |comments| ==> forall i :: 0 <= i < |indices| ==> indices[i] <= comments[from].index)
  }

  lemma CursorExact(indices: seq<int>, comments: seq<CommentData>, from: nat, k: nat)
    requires CursorAt(indices, comments, from) && k < |comments|
    ensures k < from <==> Overtaken(indices, comments, k)
  {
    if k < from {
      var i :| 0 <= i < |indices| && forall m :: 0 <= m < from ==> comments[m].index < indices[i];
      assert !Reaches(comments, k, indices[i]);
    } else {
      forall i | 0 <= i < |indices| ensures Reaches(comments, k, indices[i]) {
        assert indices[i] <= comments[from].index;
      }
    }
  }

  /** One more call moves the cursor behind the comments that it overtakes. */
  lemma CursorStep(indices: seq<int>, x: int, comments: seq<CommentData>, from: nat)
    requires CursorAt(indices, comments, from)
    ensures CursorAt(indices + [x], comments, SkipComments(comments, from, x))
  {
    var r, to := indices + [x], SkipComments(comments, from, x);
    SkipStops(comments, from, x);
    if to > from {
      assert r[|indices|] == x && forall m :: 0 <= m < from ==> comments[m].index < x;
    } else if from > 0 {
      var i :| 0 <= i < |indices| && forall m :: 0 <= m < from ==> comments[m].index < indices[i];
      assert r[i] == indices[i];
    }
  }

  /** The comments due before a call are those that fall there. */
  lemma {:induction false} DueExactly(earlier: seq<int>, calls: seq<CallData>, comments: seq<CommentData>, from: nat, n: nat)
    requires CursorAt(earlier, comments, from) && n < |calls|
    ensures Due(calls, comments, from)[n] != []
       <==> exists k: nat :: k < |comments| && FallsBefore(earlier + IndicesOf(calls[..n]), calls[n].call.index, comments, k)
    decreases n
  {
    var x := calls[0].call.index;
    var to := SkipComments(comments, from, x);
    CursorStep(earlier, x, comments, from);
    if n == 0 {
      assert earlier + IndicesOf(calls[..0]) == earlier;
      forall k: nat | k < |comments| ensures FallsBefore(earlier, x, comments, k) <==> from <= k < to {
        OneFalls(earlier, x, comments, from, k);
      }
      assert to > from ==> FallsBefore(earlier, x, comments, from);
    } else {
      DueExactly(earlier + [x], calls[1..], comments, to, n - 1);
      assert earlier + [x] + IndicesOf(calls[1..][..n - 1]) == earlier + IndicesOf(calls[..n]);
    }
  }

  lemma OneFalls(earlier: seq<int>, x: int, comments: seq<CommentData>, from: nat, k: nat)
    requires CursorAt(earlier, comments, from) && k < |comments|
    ensures FallsBefore(earlier, x, comments, k) <==> from <= k < SkipComments(comments, from, x)
  {
    CursorStep(earlier, x, comments, from);
    CursorExact(earlier, comments, from, k);
    CursorExact(earlier + [x], comments, SkipComments(comments, from, x), k);
    assert (earlier + [x])[|earlier|] == x;
    assert forall i :: 0 <= i < |earlier| ==> (earlier + [x])[i] == earlier[i];
  }

  lemma {:induction false} CursorAfter(earlier: seq<int>, calls: seq<CallData>, comments: seq<CommentData>, from: nat)
    requires CursorAt(earlier, comments, from)
    ensures CursorAt(earlier + IndicesOf(calls), comments, DueEnd(calls, comments, from))
    decreases |calls|
  {
    if calls == [] {
      assert earlier + IndicesOf(calls) == earlier;
    } else {
      var x := calls[0].call.index;
      CursorStep(earlier, x, comments, from);
      CursorAfter(earlier + [x], calls[1..], comments, SkipComments(comments, from, x));
      assert earlier + [x] + IndicesOf(calls[1..]) == earlier + IndicesOf(calls);
    }
  }

  /** The indices of the calls of the first `n` groups, in the order they are written. */
  ghost function IndicesBefore(groups: seq<Group>, n: nat): seq<int>
    requires n <= |groups|
  {
    if n == 0 then [] else IndicesBefore(groups, n - 1) + IndicesOf(groups[n - 1].calls)
  }

  /** A comment falls inside a group, between its first call and its last. */
  ghost predicate IsCut(groups: seq<Group>, n: nat, comments: seq<CommentData>)
    requires n < |groups|
  {
    exists i: nat, k: nat :: 0 < i < |groups[n].calls| && k < |comments|
      && FallsBefore(IndicesBefore(groups, n) + IndicesOf(groups[n].calls[..i]), groups[n].calls[i].call.index, comments, k)
  }

  /** No comment falls inside a group that has frames. */
  ghost predicate CommentsOutside(groups: seq<Group>, comments: seq<CommentData>) {
    forall n: nat :: n < |groups| && groups[n].frames != [] ==> !IsCut(groups, n, comments)
  }

  lemma CutExactly(groups: seq<Group>, n: nat, comments: seq<CommentData>, from: nat)
    requires n < |groups| && CursorAt(IndicesBefore(groups, n), comments, from)
    ensures IsCut(groups, n, comments) <==> CommentInside(Due(groups[n].calls, comments, from))
  {
    var earlier, calls := IndicesBefore(groups, n), groups[n].calls;
    forall i: nat | i < |calls|
      ensures Due(calls, comments, from)[i] != []
         <==> exists k: nat :: k < |comments| && FallsBefore(earlier + IndicesOf(calls[..i]), calls[i].call.index, comments, k)
    {
      DueExactly(earlier, calls, comments, from, i);
    }
  }

  /** What the cursor leaves between calls is inside a group just when a comment falls there. */
  lemma {:induction false} OutsideExactly(groups: seq<Group>, n: nat, comments: seq<CommentData>, from: nat)
    requires n <= |groups| && CursorAt(IndicesBefore(groups, n), comments, from)
    ensures NoneInside(groups[n..], comments, from)
       <==> forall m: nat :: n <= m < |groups| && groups[m].frames != [] ==> !IsCut(groups, m, comments)
    decreases |groups| - n
  {
    if n < |groups| {
      CutExactly(groups, n, comments, from);
      CursorAfter(IndicesBefore(groups, n), groups[n].calls, comments, from);
      OutsideExactly(groups, n + 1, comments, DueEnd(groups[n].calls, comments, from));
      RestOfRest(groups, n);
    }
  }

  /** What the store says about the calls of its groups. */
  ghost function GroupsExpected(groups: seq<Group>): seq<Loaded> {
    if groups == [] then [] else WithFrames(groups[0].calls, groups[0].frames) + GroupsExpected(groups[1..])
  }

  /** A comment is due inside the group, after its first call. */
  ghost predicate CommentInside(due: seq<seq<CommentData>>) {
    exists i :: 0 < i < |due| && due[i] != []
  }

  /** With the cursor at `from`, no comment is due inside a group that has frames. */
  ghost predicate NoneInside(groups: seq<Group>, comments: seq<CommentData>, from: nat)
    requires from <= |comments|
  {
    groups == [] ||
    (&& (groups[0].frames == [] || !CommentInside(Due(groups[0].calls, comments, from)))
     && NoneInside(groups[1..], comments, DueEnd(groups[0].calls, comments, from)))
  }

  lemma WithFramesConcat(a: seq<CallData>, b: seq<CallData>, frames: seq<Frame>)
    ensures WithFrames(a + b, frames) == WithFrames(a, frames) + WithFrames(b, frames)
  {
  }

  /** A group loads as the store says if and only if it has no frames or no comment cuts it. */
  lemma {:induction false} GroupLoadsExactly(pending: seq<CallData>, calls: seq<CallData>, due: seq<seq<CommentData>>,
                                            frames: seq<Frame>)
    requires |due| == |calls|
    ensures (forall i :: 0 <= i < |due| && (i > 0 || pending != []) ==> due[i] == []) || frames == []
       <==> GroupLoaded(pending, calls, due, frames) == WithFrames(pending + calls, frames)
    decreases |calls|
  {
    if calls == [] {
      assert pending + calls == pending;
    } else {
      var c, rest := calls[0], calls[1..];
      if due[0] == [] {
        GroupLoadsExactly(pending + [c], rest, due[1..], frames);
        assert pending + [c] + rest == pending + calls;
        assert forall i :: 0 < i < |due| ==> due[i] == due[1..][i - 1];
        assert forall i :: 0 <= i < |due[1..]| ==> due[1..][i] == due[i + 1];
      } else {
        GroupLoadsExactly([c], rest, due[1..], frames);
        assert [c] + rest == calls;
        WithFramesConcat(pending, calls, frames);
        CutGroup(pending, calls, due, frames);
      }
    }
  }

  lemma CutGroup(pending: seq<CallData>, calls: seq<CallData>, due: seq<seq<CommentData>>, frames: seq<Frame>)
    requires |due| == |calls| && calls != [] && due[0] != []
    requires (forall i :: 0 <= i < |due| - 1 ==> due[1..][i] == []) || frames == []
        <==> GroupLoaded([calls[0]], calls[1..], due[1..], frames) == WithFrames(calls, frames)
    ensures (forall i :: 0 <= i < |due| && (i > 0 || pending != []) ==> due[i] == []) || frames == []
       <==> GroupLoaded(pending, calls, due, frames) == WithFrames(pending + calls, frames)
  {
    var tail := GroupLoaded([calls[0]], calls[1..], due[1..], frames);
    var r, q := GroupLoaded(pending, calls, due, frames), WithFrames(pending + calls, frames);
    assert r == WithFrames(pending, []) + tail;
    assert q == WithFrames(pending, frames) + WithFrames(calls, frames) by { WithFramesConcat(pending, calls, frames); }
    assert r == q <==> WithFrames(pending, []) == WithFrames(pending, frames) && tail == WithFrames(calls, frames) by {
      assert tail == r[|pending|..] && WithFrames(calls, frames) == q[|pending|..];
      assert WithFrames(pending, []) == r[..|pending|] && WithFrames(pending, frames) == q[..|pending|];
    }
    if pending != [] && frames != [] {
      assert WithFrames(pending, [])[0] != WithFrames(pending, frames)[0];
    }
    assert forall i :: 0 < i < |due| ==> due[i] == due[1..][i - 1];
    assert forall i :: 0 <= i < |due| - 1 ==> due[1..][i] == due[i + 1];
  }

  lemma {:induction false} GroupsLoadExactly(groups: seq<Group>, comments: seq<CommentData>, from: nat)
    requires from <= |comments|
    ensures |GroupsLoaded(groups, comments, from)| == |GroupsExpected(groups)|
    ensures NoneInside(groups, comments, from) <==> GroupsLoaded(groups, comments, from) == GroupsExpected(groups)
    decreases |groups|
  {
    if groups != [] {
      var g, to := groups[0], DueEnd(groups[0].calls, comments, from);
      var due := Due(g.calls, comments, from);
      GroupsLoadExactly(groups[1..], comments, to);
      GroupLoadsExactly([], g.calls, due, g.frames);
      assert [] + g.calls == g.calls;
      var a, b := GroupLoaded([], g.calls, due, g.frames), GroupsLoaded(groups[1..], comments, to);
      var p, q := WithFrames(g.calls, g.frames), GroupsExpected(groups[1..]);
      assert a + b == p + q <==> a == p && b == q by {
        assert (a + b)[..|a|] == a && (a + b)[|a|..] == b;
        assert (p + q)[..|p|] == p && (p + q)[|p|..] == q;
      }
    }
  }

  /**
   The compressed form reads back as the store says, group by group, if and only if no comment falls
   inside a group that has frames.
   */
  lemma CompressedRoundTrip(groups: seq<Group>, comments: seq<CommentData>)
    requires InUse(groups)
    ensures ReadText(WriteCompressed(groups, comments, 0)) == GroupsExpected(groups)
       <==> CommentsOutside(groups, comments)
  {
    ReadCompressed(FRESH, groups, comments, 0);
    assert [] + GroupsLoaded(groups, comments, 0) == GroupsLoaded(groups, comments, 0);
    GroupsLoadExactly(groups, comments, 0);
    OutsideExactly(groups, 0, comments, 0);
    assert groups[0..] == groups;
  }

  // ---------------------------------------------------------------- sorting what was read

  /** Calls compare by timestamp, then by index, through a cast to a 32-bit integer. */
  function CompareCalls(a: Loaded, b: Loaded): int {
    if a.data.call.timestamp == b.data.call.timestamp then Signed32(a.data.call.index - b.data.call.index)
    else Signed32(a.data.call.timestamp - b.data.call.timestamp)
  }

  /** The difference that decides: of the timestamps, or of the indices when the timestamps are equal. */
  function Difference(a: Loaded, b: Loaded): int {
    if a.data.call.timestamp == b.data.call.timestamp then a.data.call.index - b.data.call.index
    else a.data.call.timestamp - b.data.call.timestamp
  }

  /** The fields hold what a 32-bit unsigned and a 32-bit signed integer can. */
  predicate Fields32(x: Loaded) {
    x.data.call.timestamp < 0x1_0000_0000 && -0x8000_0000 <= x.data.call.index < 0x8000_0000
  }

  /** By timestamp, then by index. */
  predicate Precedes(c: Call, d: Call) {
    c.timestamp < d.timestamp || (c.timestamp == d.timestamp && c.index < d.index)
  }

  /** The comparison, both ways, says what the order by timestamp and index says. */
  ghost predicate ComparedRight(x: Loaded, y: Loaded) {
    var c, d := x.data.call, y.data.call;
    && (CompareCalls(x, y) < 0 <==> Precedes(c, d)) && (CompareCalls(x, y) > 0 <==> Precedes(d, c))
    && (CompareCalls(y, x) < 0 <==> Precedes(d, c)) && (CompareCalls(y, x) > 0 <==> Precedes(c, d))
  }

  /** The difference that is compared keeps its sign through the cast, either way round. */
  predicate Close(x: Loaded, y: Loaded) {
    -0x8000_0000 < Difference(x, y) < 0x8000_0000
  }

  ghost predicate Comparable(s: set<Loaded>) {
    forall x, y :: x in s && y in s ==> Close(x, y)
  }

  ghost predicate AllComparedRight(s: set<Loaded>) {
    forall x, y :: x in s && y in s ==> ComparedRight(x, y)
  }

  /** Two calls are compared right if and only if the difference that is compared fits the cast. */
  lemma CompareCallsSign(x: Loaded, y: Loaded)
    requires Fields32(x) && Fields32(y)
    ensures ComparedRight(x, y) <==> Close(x, y)
  {
    SignKept(Difference(x, y));
    SignKept(Difference(y, x));
  }

  /** On a set of calls the comparison is the order by timestamp and index if and only if all differences fit. */
  lemma CompareCallsExact(s: set<Loaded>)
    requires forall x :: x in s ==> Fields32(x)
    ensures AllComparedRight(s) <==> Comparable(s)
  {
    forall x, y | x in s && y in s ensures ComparedRight(x, y) <==> Close(x, y) {
      CompareCallsSign(x, y);
    }
  }

  /** Where all comparisons are right they are a total preorder. */
  lemma CompareCallsTotal(s: set<Loaded>)
    requires Comparable(s)
    ensures TotalOn(s, CompareCalls)
  {
    forall x, y {:trigger CompareCalls(x, y)} | x in s && y in s ensures CompareCalls(x, y) == Difference(x, y) {
      SignKept(Difference(x, y));
    }
    forall x, y {:trigger CompareCalls(x, y)} | x in s && y in s
      ensures CompareCalls(x, y) < 0 <==> CompareCalls(y, x) > 0
    {
      assert CompareCalls(y, x) == Difference(y, x);
    }
    forall x, y, z {:trigger CompareCalls(x, y), CompareCalls(y, z)}
      | x in s && y in s && z in s && CompareCalls(x, y) <= 0 && CompareCalls(y, z) <= 0
      ensures CompareCalls(x, z) <= 0
    {
      assert CompareCalls(x, z) == Difference(x, z);
    }
  }

  /** The cast breaks the order once timestamps are far apart: these three calls run in a circle. */
  lemma CompareCallsCircle(c: Call, d: CallData)
    ensures var at := (t: nat) => Loaded(d.(call := c.(timestamp := t)), []);
            && CompareCalls(at(0), at(0x7fff_ffff)) < 0
            && CompareCalls(at(0x7fff_ffff), at(0xffff_fffe)) < 0
            && CompareCalls(at(0xffff_fffe), at(0)) < 0
  {
  }

  /** What the reader hands to the filters: the calls it loaded, sorted. */
  ghost function LoadSorted(recs: seq<Record>): seq<Loaded> {
    MergeSort(ReadText(recs), CompareCalls)
  }

  /** The groups hold the calls of the store, each once, with the backtrace it has there. */
  ghost predicate Partition(groups: seq<Group>, calls: seq<StoredCall>) {
    AllTraced(calls) && InUse(groups) && multiset(GroupsExpected(groups)) == multiset(Expected(calls))
  }

  lemma {:induction false} GroupLoadedData(pending: seq<CallData>, calls: seq<CallData>, due: seq<seq<CommentData>>,
                                          frames: seq<Frame>)
    requires |due| == |calls|
    ensures forall i :: 0 <= i < |pending| + |calls| ==>
              GroupLoaded(pending, calls, due, frames)[i].data == (pending + calls)[i]
    decreases |calls|
  {
    if calls == [] {
      assert pending + calls == pending;
    } else if due[0] == [] {
      GroupLoadedData(pending + [calls[0]], calls[1..], due[1..], frames);
      assert pending + [calls[0]] + calls[1..] == pending + calls;
    } else {
      GroupLoadedData([calls[0]], calls[1..], due[1..], frames);
      assert [calls[0]] + calls[1..] == calls;
    }
  }

  /** Whatever the comments do, the calls and their arguments load in the order they were written. */
  lemma {:induction false} GroupsLoadedData(groups: seq<Group>, comments: seq<CommentData>, from: nat)
    requires from <= |comments|
    ensures var r, q := GroupsLoaded(groups, comments, from), GroupsExpected(groups);
            |r| == |q| && forall i :: 0 <= i < |r| ==> r[i].data == q[i].data
    decreases |groups|
  {
    if groups != [] {
      var g := groups[0];
      GroupsLoadedData(groups[1..], comments, DueEnd(g.calls, comments, from));
      GroupLoadedData([], g.calls, Due(g.calls, comments, from), g.frames);
      assert [] + g.calls == g.calls;
    }
  }

  /** Loading other frames for some call shows, even after sorting. */
  lemma SortShowsFrames(r: seq<Loaded>, q: seq<Loaded>, e: seq<Loaded>)
    requires |r| == |q| && forall i :: 0 <= i < |r| ==> r[i].data == q[i].data
    requires multiset(q) == multiset(e) && NoTies(e, CompareCalls)
    requires multiset(r) == multiset(e)
    ensures r == q
  {
    PermutationDistinct(q, e);
    SameMembers(r, q);
    SameMembers(q, e);
    forall i | 0 <= i < |r| ensures r[i] == q[i] {
      assert r[i] in q;
      assert CompareCalls(r[i], q[i]) == 0;
      assert r[i] in e && q[i] in e;
    }
  }

  /**
   Compression loses nothing: the compressed form loads as the uncompressed one does, with the same
   calls, order, arguments and backtraces, if and only if no comment falls inside a group with frames.
   */
  lemma CompressionLosesNothing(calls: seq<StoredCall>, groups: seq<Group>, comments: seq<CommentData>)
    requires Partition(groups, calls)
    requires Comparable(Members(Expected(calls))) && NoTies(Expected(calls), CompareCalls)
    ensures LoadSorted(WriteCompressed(groups, comments, 0)) == LoadSorted(WritePlain(calls, comments, 0))
       <==> CommentsOutside(groups, comments)
  {
    var e, q := Expected(calls), GroupsExpected(groups);
    var r := ReadText(WriteCompressed(groups, comments, 0));
    PlainRoundTrip(calls, comments);
    CompressedRoundTrip(groups, comments);
    CompressedData(groups, comments);
    SortedEqualIff(r, q, e);
  }

  lemma CompressedData(groups: seq<Group>, comments: seq<CommentData>)
    requires InUse(groups)
    ensures var r, q := ReadText(WriteCompressed(groups, comments, 0)), GroupsExpected(groups);
            |r| == |q| && forall i :: 0 <= i < |r| ==> r[i].data == q[i].data
  {
    ReadCompressed(FRESH, groups, comments, 0);
    assert [] + GroupsLoaded(groups, comments, 0) == GroupsLoaded(groups, comments, 0);
    GroupsLoadedData(groups, comments, 0);
  }

  lemma SortedEqualIff(r: seq<Loaded>, q: seq<Loaded>, e: seq<Loaded>)
    requires |r| == |q| && forall i :: 0 <= i < |r| ==> r[i].data == q[i].data
    requires multiset(q) == multiset(e) && NoTies(e, CompareCalls) && Comparable(Members(e))
    ensures MergeSort(r, CompareCalls) == MergeSort(e, CompareCalls) <==> r == q
  {
    CompareCallsTotal(Members(e));
    if r == q {
      SortForgetsOrder(e, q, Members(e), CompareCalls);
    }
    if MergeSort(r, CompareCalls) == MergeSort(e, CompareCalls) {
      MergeSortPermutes(r, CompareCalls);
      MergeSortPermutes(e, CompareCalls);
      SortShowsFrames(r, q, e);
    }
  }

  /** A store whose calls are in order reads back unchanged from either form. */
  lemma SortedStoreRoundTrip(calls: seq<StoredCall>, groups: seq<Group>, comments: seq<CommentData>)
    requires Partition(groups, calls) && CommentsOutside(groups, comments)
    requires Comparable(Members(Expected(calls))) && NoTies(Expected(calls), CompareCalls)
    requires Sorted(Expected(calls), CompareCalls)
    ensures LoadSorted(WriteCompressed(groups, comments, 0)) == Expected(calls)
    ensures LoadSorted(WritePlain(calls, comments, 0)) == Expected(calls)
  {
    CompressionLosesNothing(calls, groups, comments);
    PlainRoundTrip(calls, comments);
    CompareCallsTotal(Members(Expected(calls)));
    SortedStays(Expected(calls), Members(Expected(calls)), CompareCalls);
  }
}
