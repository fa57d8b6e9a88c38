/** The loops that write the calls of a trace as text records and read such records. */
module TextIO {
  import opened TraceTypes
  import opened Ordering
  import opened Compression

  /** Emits the comments with an index below `before`, from the cursor on. */
  method WriteComments(comments: seq<CommentData>, from: nat, before: int) returns (out: seq<Record>, to: nat)
    requires from <= |comments|
    ensures to == SkipComments(comments, from, before) && out == CommentRecords(comments[from..to])
  {
    out, to := [], from;
    while to < |comments| && comments[to].index < before
      invariant from <= to <= |comments|
      invariant SkipComments(comments, from, before) == SkipComments(comments, to, before)
      invariant out == CommentRecords(comments[from..to])
    {
      out := out + [Comment(comments[to].text)];
      to := to + 1;
    }
  }

  method WriteArgs(args: seq<Arg>) returns (out: seq<Record>)
    ensures out == ArgRecords(args)
  {
    out := [];
    for i := 0 to |args|
      invariant out == ArgRecords(args[..i])
    {
      out := out + [ArgRec(args[i])];
    }
    assert args[..|args|] == args;
  }

  /** Prints a backtrace: its frames and the empty line that ends it. */
  method WriteTrace(frames: seq<Frame>) returns (out: seq<Record>)
    ensures out == TraceRecords(frames)
  {
    out := [];
    for i := 0 to |frames|
      invariant out == FrameRecords(frames[..i])
    {
      out := out + [FrameRec(frames[i])];
    }
    assert frames[..|frames|] == frames;
    out := out + [Blank];
  }

  /** Prints the comments due, a call and its arguments, and moves the comment cursor on. */
  method WriteCall(c: CallData, comments: seq<CommentData>, from: nat) returns (out: seq<Record>, to: nat)
    requires from <= |comments|
    ensures to == SkipComments(comments, from, c.call.index) && out == CallRecords(c, comments[from..to])
  {
    var due, args;
    due, to := WriteComments(comments, from, c.call.index);
    args := WriteArgs(c.args);
    out := due + [CallRec(c.call)] + args;
  }

  /** Writes the calls in the order of the store, each with its backtrace. */
  method WritePlainCalls(calls: seq<StoredCall>, comments: seq<CommentData>) returns (out: seq<Record>)
    ensures out == WritePlain(calls, comments, 0)
  {
    out := [];
    var i: nat, cursor: nat := 0, 0;
    assert calls[0..] == calls;
    while i < |calls|
      invariant i <= |calls| && cursor <= |comments|
      invariant out + WritePlain(calls[i..], comments, cursor) == WritePlain(calls, comments, 0)
    {
      var call, trace, to;
      call, to := WriteCall(calls[i].data, comments, cursor);
      trace := [];
      if calls[i].trace.Some? {
        trace := WriteTrace(calls[i].trace.value);
      }
      RestOfRest(calls, i);
      Regrouped(out, call + trace, WritePlain(calls[i + 1..], comments, to));
      Regrouped(out, call, trace);
      out := out + call + trace;
      i, cursor := i + 1, to;
    }
    var rest := WriteRemaining(comments, cursor);
    out := out + rest;
  }

  /** Emits the comments that no call index was large enough for. */
  method WriteRemaining(comments: seq<CommentData>, from: nat) returns (out: seq<Record>)
    requires from <= |comments|
    ensures out == CommentRecords(comments[from..])
  {
    out := [];
    for i := from to |comments|
      invariant out == CommentRecords(comments[from..i])
    {
      out := out + [Comment(comments[i].text)];
    }
    assert comments[from..|comments|] == comments[from..];
  }

  /** Writes the calls of one backtrace and then the backtrace. */
  method WriteGroup(g: Group, comments: seq<CommentData>, from: nat) returns (out: seq<Record>, to: nat)
    requires from <= |comments|
    ensures out == GroupRecords(g, Due(g.calls, comments, from)) && to == DueEnd(g.calls, comments, from)
  {
    out, to := WriteRun(g.calls, comments, from);
    var trace := WriteTrace(g.frames);
    out := out + [Note] + trace;
  }

  /** Writes calls one after the other, each behind the comments that are due. */
  method WriteRun(calls: seq<CallData>, comments: seq<CommentData>, from: nat) returns (out: seq<Record>, to: nat)
    requires from <= |comments|
    ensures out == RunRecords(calls, Due(calls, comments, from)) && to == DueEnd(calls, comments, from)
  {
    out, to := [], from;
    var i := 0;
    assert calls[0..] == calls;
    while i < |calls|
      invariant i <= |calls| && to <= |comments|
      invariant out + RunRecords(calls[i..], Due(calls[i..], comments, to)) == RunRecords(calls, Due(calls, comments, from))
      invariant DueEnd(calls[i..], comments, to) == DueEnd(calls, comments, from)
    {
      var call, next;
      call, next := WriteCall(calls[i], comments, to);
      RunNext(calls, comments, i, to);
      Regrouped(out, call, RunRecords(calls[i + 1..], Due(calls[i + 1..], comments, next)));
      out := out + call;
      i, to := i + 1, next;
    }
  }

  lemma RunNext(calls: seq<CallData>, comments: seq<CommentData>, i: nat, from: nat)
    requires i < |calls| && from <= |comments|
    ensures var to := SkipComments(comments, from, calls[i].call.index);
            && RunRecords(calls[i..], Due(calls[i..], comments, from))
               == CallRecords(calls[i], comments[from..to]) + RunRecords(calls[i + 1..], Due(calls[i + 1..], comments, to))
            && DueEnd(calls[i..], comments, from) == DueEnd(calls[i + 1..], comments, to)
  {
    RestOfRest(calls, i);
    var to := SkipComments(comments, from, calls[i].call.index);
    assert Due(calls[i..], comments, from)[1..] == Due(calls[i + 1..], comments, to);
  }

  /** Writes the calls grouped by backtrace. */
  method WriteCompressedCalls(groups: seq<Group>, comments: seq<CommentData>) returns (out: seq<Record>)
    ensures out == WriteCompressed(groups, comments, 0)
  {
    out := [];
    var i: nat, cursor: nat := 0, 0;
    assert groups[0..] == groups;
    while i < |groups|
      invariant i <= |groups| && cursor <= |comments|
      invariant out + WriteCompressed(groups[i..], comments, cursor) == WriteCompressed(groups, comments, 0)
    {
      var group, to;
      group, to := WriteGroup(groups[i], comments, cursor);
      RestOfRest(groups, i);
      Regrouped(out, group, WriteCompressed(groups[i + 1..], comments, to));
      out := out + group;
      i, cursor := i + 1, to;
    }
    var rest := WriteRemaining(comments, cursor);
    out := out + rest;
  }

  /** Gives the pending calls a backtrace. */
  method LoadPending(loaded: seq<Loaded>, pending: seq<CallData>, frames: seq<Frame>) returns (r: seq<Loaded>)
    ensures r == loaded + WithFrames(pending, frames)
  {
    r := loaded;
    for i := 0 to |pending|
      invariant r == loaded + WithFrames(pending[..i], frames)
    {
      r := r + [Loaded(pending[i], frames)];
      assert WithFrames(pending[..i + 1], frames) == WithFrames(pending[..i], frames) + [Loaded(pending[i], frames)];
    }
    assert pending[..|pending|] == pending;
  }

  /** The reader's loop over the records of a text log. */
  method ReadTextData(recs: seq<Record>) returns (loaded: seq<Loaded>, comments: seq<CommentData>)
    ensures loaded == ReadText(recs) && comments == CommentsRead(recs)
  {
    loaded, comments := [], [];
    var pending: seq<CallData>, args: seq<Arg>, frames: seq<Frame> := [], [], [];
    var lastIndex := 0;
    var i := 0;
    assert recs[0..] == recs;
    while i < |recs|
      invariant i <= |recs|
      invariant ReadAll(Reader(loaded, pending, args, frames, comments, lastIndex), recs[i..]) == ReadAll(FRESH, recs)
    {
      ghost var st := Reader(loaded, pending, args, frames, comments, lastIndex);
      var rec := recs[i];
      i := i + 1;
      assert recs[i - 1..][1..] == recs[i..];
      if rec.Note? {
        continue;
      }
      if rec.FrameRec? {
        if pending != [] {
          frames := frames + [rec.frame];
        }
        continue;
      }
      if rec.ArgRec? {
        if pending != [] {
          args := args + [rec.arg];
        }
        continue;
      }
      if args != [] && pending != [] {
        pending := pending[..|pending| - 1] + [pending[|pending| - 1].(args := args)];
      }
      args := [];
      if frames != [] || rec.Blank? {
        loaded := LoadPending(loaded, pending, frames);
        pending, frames := [], [];
      }
      if rec.CallRec? {
        pending, lastIndex := pending + [CallData(rec.call, [])], rec.call.index;
      } else if rec.Comment? {
        loaded := LoadPending(loaded, pending, []);
        pending := [];
        comments := comments + [CommentData(lastIndex, rec.text)];
      }
      assert Reader(loaded, pending, args, frames, comments, lastIndex) == Read(st, rec);
    }
    if args != [] && pending != [] {
      pending := pending[..|pending| - 1] + [pending[|pending| - 1].(args := args)];
    }
    loaded := LoadPending(loaded, pending, frames);
  }
}
