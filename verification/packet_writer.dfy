/** The code that writes call packets into the area behind the head of the pipe buffer. */
module PacketWriter {
  import opened TraceTypes
  import opened Bytes
  import opened Protocol

  class Writer {
    const area: array<Byte>
    var pos: nat

    ghost predicate Valid()
      reads this
    {
      pos <= area.Length
    }

    ghost function Written(): Bytes
      requires Valid()
      reads this, area
    {
      area[..pos]
    }

    constructor (area: array<Byte>)
      ensures Valid() && this.area == area && pos == 0
    {
      this.area := area;
      pos := 0;
    }

    /** Stores the low `n` bytes of a number. */
    method WriteNumber(x: nat, n: nat)
      requires Valid() && pos + n <= area.Length
      modifies this, area
      ensures Valid() && pos == old(pos) + n && Written() == old(Written()) + Encode(x, n)
    {
      var rest := x;
      for i := 0 to n
        invariant Valid() && pos == old(pos) + i
        invariant Written() + Encode(rest, n - i) == old(Written()) + Encode(x, n)
      {
        ghost var before := Written();
        area[pos] := rest % 256;
        pos := pos + 1;
        assert Written() == before + [rest % 256];
        assert before + ([rest % 256] + Encode(rest / 256, n - i - 1)) == Written() + Encode(rest / 256, n - i - 1);
        rest := rest / 256;
      }
    }

    /** Fills in a double word that was left out earlier. */
    method InsertDword(at: nat, x: nat)
      requires Valid() && at + 4 <= pos
      modifies area
      ensures Written() == old(Written())[..at] + Dword(x) + old(Written())[at + 4..]
    {
      ghost var w := area[..];
      var bytes := Dword(x);
      for i := 0 to 4
        invariant forall j :: 0 <= j < area.Length ==> area[j] == if at <= j < at + i then bytes[j - at] else w[j]
      {
        area[at + i] := bytes[i];
      }
      assert Written() == w[..pos][..at] + bytes + w[..pos][at + 4..];
    }

    /** Copies characters, then pads with NULs until the size is a multiple of four. */
    method WriteText(str: Bytes)
      requires Valid() && pos + |str| + Padding(2 + |str|) <= area.Length
      modifies this, area
      ensures Valid() && pos == old(pos) + |str| + Padding(2 + |str|)
      ensures Written() == old(Written()) + str + Zeros(Padding(2 + |str|))
    {
      CopyText(str);
      PadText(|str|);
    }

    method CopyText(str: Bytes)
      requires Valid() && pos + |str| <= area.Length
      modifies this, area
      ensures Valid() && pos == old(pos) + |str| && Written() == old(Written()) + str
    {
      for i := 0 to |str|
        invariant Valid() && pos == old(pos) + i && Written() == old(Written()) + str[..i]
      {
        area[pos] := str[i];
        pos := pos + 1;
      }
      assert str[..|str|] == str;
    }

    /** Pads a text of `length` characters behind its two bytes of length. */
    method PadText(length: nat)
      requires Valid() && pos + Padding(2 + length) <= area.Length
      modifies this, area
      ensures Valid() && pos == old(pos) + Padding(2 + length) && Written() == old(Written()) + Zeros(Padding(2 + length))
    {
      var size := 2 + length;
      ghost var copied := Written();
      assert copied + Zeros(0) == copied;
      while size % 4 != 0
        invariant 2 + length <= size <= 2 + length + Padding(2 + length)
        invariant Valid() && pos == old(pos) + size - 2 - length && Written() == copied + Zeros(size - 2 - length)
        decreases 2 + length + Padding(2 + length) - size
      {
        area[pos] := 0;
        pos := pos + 1;
        size := size + 1;
      }
    }

    method WriteString(s: Option<Bytes>)
      requires Valid() && pos + |EncodeString(s)| <= area.Length
      modifies this, area
      ensures Valid() && pos == old(pos) + |EncodeString(s)| && Written() == old(Written()) + EncodeString(s)
    {
      if s.None? {
        WriteNumber(0, 4);
      } else {
        SomeString(s.value);
        WriteSome(s.value);
      }
    }

    /** Writes the padded length in two bytes, then the text. */
    method WriteSome(str: Bytes)
      requires Valid() && pos + 2 + |str| + Padding(2 + |str|) <= area.Length
      modifies this, area
      ensures Valid() && pos == old(pos) + 2 + |str| + Padding(2 + |str|)
      ensures Written() == old(Written()) + (Encode(|str| + Padding(2 + |str|), 2) + str + Zeros(Padding(2 + |str|)))
    {
      ghost var before := Written();
      var pad := Padding(2 + |str|);
      WriteNumber(|str| + pad, 2);
      WriteText(str);
      StringJoin(before, Encode(|str| + pad, 2), str, Zeros(pad));
    }

    /** Writes the packet type and leaves room for the length. */
    method StartPacket(kind: nat)
      requires Valid() && pos + HEADER <= area.Length
      modifies this, area
      ensures Valid() && pos == old(pos) + HEADER && Written()[..old(pos) + 4] == old(Written()) + Dword(kind)
    {
      WriteNumber(kind, 4);
      ghost var w := Written();
      pos := pos + 4;
      assert Written()[..old(pos) + 4] == w;
    }

    /** Fills in the length of the packet that starts behind `before`. */
    method EndPacket(start: nat, ghost before: Bytes, ghost kind: nat, ghost payload: Bytes)
      requires Valid() && start == |before| && pos == start + HEADER + |payload|
      requires Written()[..start + 4] == before + Dword(kind) && Written()[start + HEADER..] == payload
      modifies area
      ensures Valid() && Written() == before + Packet(kind, payload)
    {
      ghost var w := Written();
      InsertDword(start + 4, pos - start - HEADER);
      assert Written() == w[..start + 4] + Dword(|payload|) + w[start + HEADER..];
    }

    method WriteCallPacket(c: Traced, ps: PointerSize)
      requires Valid() && pos + HEADER + |EncodeCall(c, ps)| <= area.Length
      modifies this, area
      ensures Valid() && Written() == old(Written()) + Packet(CALL, EncodeCall(c, ps))
      ensures pos == old(pos) + HEADER + |EncodeCall(c, ps)|
    {
      var start := pos;
      ghost var before := Written();
      CallPayloadSize(c, ps);
      StartPacket(CALL);
      ghost var w := Written();
      WriteCallFields(c, ps);
      PayloadBehind(w, EncodeCall(c, ps), start);
      EndPacket(start, before, CALL, EncodeCall(c, ps));
    }

    method WriteCallFields(c: Traced, ps: PointerSize)
      requires Valid() && pos + 20 + |EncodeString(c.name)| + ps <= area.Length
      modifies this, area
      ensures Valid() && Written() == old(Written()) + EncodeCall(c, ps) && pos == old(pos) + |EncodeCall(c, ps)|
    {
      ghost var before := Written();
      WriteNumber(c.resType, 4);
      WriteNumber(c.context, 4);
      WriteNumber(c.timestamp, 4);
      WriteNumber(c.kind, 4);
      WriteString(c.name);
      WriteNumber(AsUnsigned(c.resSize), 4);
      WriteNumber(c.resId, ps);
      CallFieldsJoin(before, Dword(c.resType), Dword(c.context), Dword(c.timestamp), Dword(c.kind),
                     EncodeString(c.name), Dword(AsUnsigned(c.resSize)), Encode(c.resId, ps));
    }

    method WriteTracePacket(frames: seq<nat>, ps: PointerSize)
      requires Valid() && pos + HEADER + |EncodeFrames(frames, ps)| <= area.Length
      modifies this, area
      ensures Valid() && Written() == old(Written()) + Packet(BTRC, EncodeFrames(frames, ps))
      ensures pos == old(pos) + HEADER + |EncodeFrames(frames, ps)|
    {
      var start := pos;
      ghost var before := Written();
      StartPacket(BTRC);
      ghost var w := Written();
      WriteNumber(|frames|, 4);
      WriteFrames(frames, ps);
      FramesJoin(w, frames, ps);
      PayloadBehind(w, EncodeFrames(frames, ps), start);
      EndPacket(start, before, BTRC, EncodeFrames(frames, ps));
    }

    method WriteFrames(frames: seq<nat>, ps: PointerSize)
      requires Valid() && pos + |EncodeFrameList(frames, ps)| <= area.Length
      modifies this, area
      ensures Valid() && pos == old(pos) + |EncodeFrameList(frames, ps)|
      ensures Written() == old(Written()) + EncodeFrameList(frames, ps)
    {
      ghost var total := EncodeFrameList(frames, ps);
      assert frames[0..] == frames;
      for i := 0 to |frames|
        invariant Valid() && Written() + EncodeFrameList(frames[i..], ps) == old(Written()) + total
      {
        ghost var w := Written();
        FrameStep(frames, i, ps);
        JoinTwo(w, Encode(frames[i], ps), EncodeFrameList(frames[i + 1..], ps), old(Written()) + total);
        WriteNumber(frames[i], ps);
      }
    }

    method WriteArgsPacket(args: seq<TracedArg>)
      requires Valid() && pos + HEADER + |EncodeArgs(args)| <= area.Length
      modifies this, area
      ensures Valid() && Written() == old(Written()) + Packet(ARGS, EncodeArgs(args))
      ensures pos == old(pos) + HEADER + |EncodeArgs(args)|
    {
      var start := pos;
      ghost var before := Written();
      StartPacket(ARGS);
      ghost var w := Written();
      WriteArgList(args);
      PayloadBehind(w, EncodeArgs(args), start);
      EndPacket(start, before, ARGS, EncodeArgs(args));
    }

    /** Leaves room for the number of arguments, writes them and fills their number in. */
    method WriteArgList(args: seq<TracedArg>)
      requires Valid() && pos + |EncodeArgs(args)| <= area.Length
      modifies this, area
      ensures Valid() && pos == old(pos) + |EncodeArgs(args)| && Written() == old(Written()) + EncodeArgs(args)
    {
      ghost var before, pairs := Written(), EncodeArgPairs(args);
      ArgsParts(args);
      var count := pos;
      pos := pos + 4;
      ghost var w := Written();
      assert w[..count] == before;
      WriteArgPairs(args);
      InsertDword(count, |args|);
      CountInserted(w, pairs, count);
      Regrouped(before, Dword(|args|), pairs);
    }

    method WriteArgPairs(args: seq<TracedArg>)
      requires Valid() && pos + |EncodeArgPairs(args)| <= area.Length
      modifies this, area
      ensures Valid() && pos == old(pos) + |EncodeArgPairs(args)| && Written() == old(Written()) + EncodeArgPairs(args)
    {
      assert args[0..] == args;
      for i := 0 to |args|
        invariant Valid() && pos + |EncodeArgPairs(args[i..])| == old(pos) + |EncodeArgPairs(args)|
        invariant Written() + EncodeArgPairs(args[i..]) == old(Written()) + EncodeArgPairs(args)
      {
        ghost var w := Written();
        assert args[i..][1..] == args[i + 1..];
        WriteString(args[i].name);
        WriteString(args[i].value);
        PairJoin(w, EncodeString(args[i].name), EncodeString(args[i].value), EncodeArgPairs(args[i + 1..]));
      }
    }

    /** Writes the packets of a call: the call, its arguments if it reports any, and its backtrace. */
    method WriteFunctionCall(g: TracedGroup, ps: PointerSize)
      requires Valid() && pos + |EncodeGroup(g, ps)| <= area.Length
      modifies this, area
      ensures Valid() && Written() == old(Written()) + Concat(GroupPackets(g, ps))
    {
      ghost var before := Written();
      GroupIsItsPackets(g, ps);
      WriteCallPacket(g.call, ps);
      if g.args.Some? {
        WriteArgsPacket(g.args.value);
      }
      WriteTracePacket(g.frames, ps);
      GroupJoin(before, Packet(CALL, EncodeCall(g.call, ps)),
                if g.args.Some? then Packet(ARGS, EncodeArgs(g.args.value)) else [],
                Packet(BTRC, EncodeFrames(g.frames, ps)));
    }
  }

  lemma SomeString(str: Bytes)
    ensures var pad := Padding(2 + |str|);
            EncodeString(Some(str)) == Encode(|str| + pad, 2) + str + Zeros(pad) && |EncodeString(Some(str))| == 2 + |str| + pad
  {
  }

  lemma StringJoin(before: Bytes, size: Bytes, str: Bytes, pad: Bytes)
    ensures before + size + str + pad == before + (size + str + pad)
  {
  }

  lemma CallPayloadSize(c: Traced, ps: PointerSize)
    ensures |EncodeCall(c, ps)| == 20 + |EncodeString(c.name)| + ps
  {
  }

  lemma PayloadBehind(w: Bytes, payload: Bytes, start: nat)
    requires |w| == start + HEADER
    ensures (w + payload)[..start + 4] == w[..start + 4] && (w + payload)[start + HEADER..] == payload
  {
  }

  lemma CallFieldsJoin(before: Bytes, a: Bytes, b: Bytes, c: Bytes, d: Bytes, name: Bytes, size: Bytes, id: Bytes)
    ensures before + a + b + c + d + name + size + id == before + (a + b + c + d + name + size + id)
  {
  }

  lemma PairJoin(w: Bytes, name: Bytes, value: Bytes, rest: Bytes)
    ensures w + name + value + rest == w + (name + value + rest)
  {
  }

  lemma GroupJoin(w: Bytes, call: Bytes, args: Bytes, trace: Bytes)
    ensures w + call + args + trace == w + (call + args + trace)
    ensures w + call + trace == w + (call + [] + trace)
  {
  }

  lemma ArgsParts(args: seq<TracedArg>)
    ensures EncodeArgs(args) == Dword(|args|) + EncodeArgPairs(args)
    ensures |EncodeArgs(args)| == 4 + |EncodeArgPairs(args)|
  {
  }

  lemma FramesJoin(w: Bytes, frames: seq<nat>, ps: PointerSize)
    ensures w + Dword(|frames|) + EncodeFrameList(frames, ps) == w + EncodeFrames(frames, ps)
  {
    Regrouped(w, Dword(|frames|), EncodeFrameList(frames, ps));
  }

  lemma CountInserted(w: Bytes, pairs: Bytes, count: nat)
    requires |w| == count + 4
    ensures (w + pairs)[..count] == w[..count] && (w + pairs)[count + 4..] == pairs
  {
  }

  lemma FrameStep(frames: seq<nat>, i: nat, ps: PointerSize)
    requires i < |frames|
    ensures EncodeFrameList(frames[i..], ps) == Encode(frames[i], ps) + EncodeFrameList(frames[i + 1..], ps)
  {
    assert frames[i..][1..] == frames[i + 1..];
  }

  lemma JoinTwo(w: Bytes, a: Bytes, b: Bytes, all: Bytes)
    requires w + (a + b) == all
    ensures w + a + b == all && |w| + |a| <= |all|
  {
  }
}
