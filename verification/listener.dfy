/**
 The pre-processor: it reassembles packets from the chunks that arrive through the pipe, rewrites the
 stream for the post-processor, and buffers its output.
 */
module Listener {
  import opened TraceTypes
  import opened Bytes
  import opened Protocol

  // ---------------------------------------------------------------- what becomes of a packet

  /** What the listener finds outside the stream: the time of day, and the mappings that are new. */
  datatype Env = Env(secs: nat, usecs: nat, maps: seq<Bytes>)

  /** A process info packet gets the time of day if it carries none. */
  ghost function Stamped(packet: Bytes, e: Env): (r: Bytes)
    requires |packet| >= 20
    ensures |r| == |packet|
  {
    if Decode(packet[12..16]) == 0 then packet[..12] + Dword(e.secs) + Dword(e.usecs) + packet[20..] else packet
  }

  /**
   `r` is a process info packet as it must be sent: one without seconds has the time of day, cut to 32 bits,
   one with seconds is as it came, and no other byte is changed.
   */
  ghost predicate TimeFilled(packet: Bytes, e: Env, r: Bytes)
    requires |packet| >= 20
  {
    && |r| == |packet| && r[..12] == packet[..12] && r[20..] == packet[20..]
    && if Decode(packet[12..16]) == 0 then Decode(r[12..16]) == e.secs % U32 && Decode(r[16..20]) == e.usecs % U32
       else r == packet
  }

  lemma StampFillsTime(packet: Bytes, e: Env)
    requires |packet| >= 20
    ensures TimeFilled(packet, e, Stamped(packet, e))
  {
    var r := Stamped(packet, e);
    if Decode(packet[12..16]) == 0 {
      assert r[12..16] == Dword(e.secs) && r[16..20] == Dword(e.usecs);
      DwordLow(e.secs);
      DwordLow(e.usecs);
    }
  }

  ghost predicate Sendable(packet: Bytes) {
    && HEADER <= |packet| <= BUFFER_SIZE
    && (KindOf(packet) == PINF ==> |packet| >= 20)
  }

  /** The output for one packet; output settings are preceded by the cached handshake. */
  ghost function Rewrite(hs: Bytes, packet: Bytes, e: Env): Bytes
    requires Sendable(packet)
  {
    if KindOf(packet) == OCFG then hs + packet
    else if KindOf(packet) == PINF then Stamped(packet, e)
    else if KindOf(packet) == NLIB then Concat(e.maps)
    else packet
  }

  lemma RewriteFillsTime(hs: Bytes, packet: Bytes, e: Env)
    requires Sendable(packet) && KindOf(packet) == PINF
    ensures TimeFilled(packet, e, Rewrite(hs, packet, e))
  {
    StampFillsTime(packet, e);
  }

  ghost predicate AllSendable(packets: seq<Bytes>) {
    forall i :: 0 <= i < |packets| ==> Sendable(packets[i])
  }

  /** The output for the packets of a stream, of which `i` came before. */
  ghost function RewriteAll(hs: Bytes, packets: seq<Bytes>, env: nat -> Env, i: nat): Bytes
    requires AllSendable(packets)
    decreases |packets|
  {
    if packets == [] then [] else Rewrite(hs, packets[0], env(i)) + RewriteAll(hs, packets[1..], env, i + 1)
  }

  /** Every packet of the stream, and the incomplete one at its end, is of a size the listener can hold. */
  ghost predicate WellFormed(bs: Bytes)
    decreases |bs|
  {
    |bs| >= HEADER ==>
      && HEADER <= PacketSize(bs) <= BUFFER_SIZE
      && (HasPacket(bs) ==> Sendable(bs[..PacketSize(bs)]) && WellFormed(bs[PacketSize(bs)..]))
  }

  lemma {:induction false} WellFormedSendable(bs: Bytes)
    requires WellFormed(bs)
    ensures AllSendable(Packets(bs))
    decreases |bs|
  {
    if HasPacket(bs) { WellFormedSendable(bs[PacketSize(bs)..]); }
  }

  /** What cannot be processed yet leaves room for a whole read. */
  lemma IncompleteIsShort(a: Bytes, b: Bytes)
    requires WellFormed(a + b) && !HasPacket(a)
    ensures |a| < BUFFER_SIZE
  {
    if |a| >= HEADER {
      assert (a + b)[4..8] == a[4..8];
    }
  }

  // ---------------------------------------------------------------- output

  class Output {
    const buffer: array<Byte>
    const buffering: bool
    var head: nat
    var connected: bool
    /** The calls of write() on the output so far. */
    var writes: seq<Bytes>

    ghost predicate Valid()
      reads this
    {
      buffer.Length == 2 * BUFFER_SIZE && head < BUFFER_SIZE && (!connected || !buffering ==> head == 0)
    }

    ghost function Stream(): Bytes
      requires Valid()
      reads this, buffer
    {
      Concat(writes) + buffer[..head]
    }

    constructor (buffering: bool)
      ensures Valid() && !connected && Stream() == [] && this.buffering == buffering && fresh(buffer)
    {
      buffer := new Byte[2 * BUFFER_SIZE];
      this.buffering := buffering;
      head, connected, writes := 0, false, [];
    }

    method Flush()
      requires buffer.Length == 2 * BUFFER_SIZE && head <= buffer.Length && connected
      modifies this
      ensures Valid() && connected && head == 0
      ensures Stream() == old(Concat(writes) + buffer[..head])
      ensures writes == old(writes) + if old(head) == 0 then [] else [old(buffer[..head])]
    {
      if head != 0 {
        ConcatSnoc(writes, buffer[..head]);
        writes := writes + [buffer[..head]];
      } else {
        assert Concat(writes) + buffer[..0] == Concat(writes);
      }
      head := 0;
    }

    /** Sends data, through the buffer unless buffering is disabled. */
    method WriteData(data: Bytes)
      requires Valid() && connected && |data| <= BUFFER_SIZE
      modifies this, buffer
      ensures Valid() && connected && Stream() == old(Stream()) + data
      ensures !buffering ==> writes == old(writes) + [data]
      ensures buffering ==>
                writes == old(writes) + if old(head) + |data| < BUFFER_SIZE then [] else [old(buffer[..head]) + data]
    {
      if !buffering {
        ConcatSnoc(writes, data);
        writes := writes + [data];
        return;
      }
      Append(data);
      if head >= BUFFER_SIZE {
        Flush();
      }
    }

    method Append(data: Bytes)
      requires Valid() && connected && |data| <= BUFFER_SIZE
      modifies buffer, `head
      ensures head == old(head) + |data| && buffer[..head] == old(buffer[..head]) + data
    {
      forall i | 0 <= i < |data| {
        buffer[head + i] := data[i];
      }
      head := head + |data|;
    }
  }

  // ---------------------------------------------------------------- input

  /** Sends packets one after the other. */
  method WriteAll(out: Output, packets: seq<Bytes>)
    requires out.Valid() && out.connected && forall i :: 0 <= i < |packets| ==> |packets[i]| <= BUFFER_SIZE
    modifies out, out.buffer
    ensures out.Valid() && out.connected && out.Stream() == old(out.Stream()) + Concat(packets)
  {
    assert packets[0..] == packets;
    for i := 0 to |packets|
      invariant out.Valid() && out.connected
      invariant out.Stream() + Concat(packets[i..]) == old(out.Stream()) + Concat(packets)
    {
      assert packets[i..][1..] == packets[i + 1..];
      out.WriteData(packets[i]);
    }
  }

  /** The environment only adds packets that fit the output buffer. */
  ghost predicate EnvFits(env: nat -> Env) {
    forall i: nat, j :: 0 <= j < |env(i).maps| ==> |env(i).maps[j]| <= BUFFER_SIZE
  }

  /** Sends what becomes of one whole packet; output settings connect the output first. */
  method Forward(out: Output, hs: Bytes, packet: Bytes, e: Env)
    requires out.Valid() && Sendable(packet) && |hs| <= BUFFER_SIZE
    requires forall j :: 0 <= j < |e.maps| ==> |e.maps[j]| <= BUFFER_SIZE
    requires out.connected || KindOf(packet) == OCFG
    modifies out, out.buffer
    ensures out.Valid() && out.connected && out.Stream() == old(out.Stream()) + Rewrite(hs, packet, e)
    ensures KindOf(packet) == PINF ==>
              |old(out.Stream())| <= |out.Stream()| && TimeFilled(packet, e, out.Stream()[|old(out.Stream())|..])
  {
    var kind := KindOf(packet);
    if kind == OCFG {
      out.connected := true;
      out.WriteData(hs);
      out.WriteData(packet);
    } else if kind == PINF {
      var data := packet;
      if Decode(packet[12..16]) == 0 {
        data := packet[..12] + Dword(e.secs) + Dword(e.usecs) + packet[20..];
      }
      StampFillsTime(packet, e);
      out.WriteData(data);
    } else if kind == NLIB {
      WriteAll(out, e.maps);
    } else {
      out.WriteData(packet);
    }
  }

  /** Processes the packet at the start of the data; -1 if the data holds no whole packet. */
  method ProcessPacket(out: Output, hs: Bytes, data: Bytes, e: Env) returns (size: int)
    requires out.Valid() && |hs| <= BUFFER_SIZE && (HasPacket(data) ==> Sendable(data[..PacketSize(data)]))
    requires forall j :: 0 <= j < |e.maps| ==> |e.maps[j]| <= BUFFER_SIZE
    requires HasPacket(data) ==> out.connected || KindOf(data[..PacketSize(data)]) == OCFG
    modifies out, out.buffer
    ensures out.Valid() && (size > 0 <==> HasPacket(data))
    ensures size > 0 ==> size == PacketSize(data) && out.connected
    ensures size > 0 ==> out.Stream() == old(out.Stream()) + Rewrite(hs, data[..size], e)
    ensures size <= 0 ==> out.Stream() == old(out.Stream()) && out.connected == old(out.connected)
  {
    if |data| < HEADER {
      return -1;
    }
    size := PacketSize(data);
    if size > |data| {
      return -1;
    }
    if size > 0 {
      Forward(out, hs, data[..size], e);
    }
  }

  /** The first packet of the stream carries the output settings. */
  ghost predicate ConfiguresFirst(bs: Bytes) {
    HasPacket(bs) && HEADER <= PacketSize(bs) ==> KindOf(bs[..PacketSize(bs)]) == OCFG
  }

  /** The stream still to come is `data` in the buffer and then `rest`; what was sent is what had to be. */
  ghost predicate OnTrack(out: Output, hs: Bytes, data: Bytes, rest: Bytes, env: nat -> Env, i: nat, body: Bytes)
    reads out, out.buffer
  {
    && out.Valid() && WellFormed(body) && WellFormed(data + rest)
    && AllSendable(Packets(body)) && AllSendable(Packets(data + rest))
    && (out.connected || ConfiguresFirst(data + rest))
    && out.Stream() + RewriteAll(hs, Packets(data + rest), env, i) == RewriteAll(hs, Packets(body), env, 0)
  }

  lemma FrontPacket(data: Bytes, rest: Bytes, hs: Bytes, env: nat -> Env, i: nat)
    requires HasPacket(data) && WellFormed(data + rest)
    ensures var size := PacketSize(data);
            && Sendable(data[..size]) && WellFormed(data[size..] + rest)
            && AllSendable(Packets(data + rest)) && AllSendable(Packets(data[size..] + rest))
            && (ConfiguresFirst(data + rest) ==> KindOf(data[..size]) == OCFG)
            && RewriteAll(hs, Packets(data + rest), env, i)
               == Rewrite(hs, data[..size], env(i)) + RewriteAll(hs, Packets(data[size..] + rest), env, i + 1)
  {
    var size := PacketSize(data);
    PacketInFront(data, rest);
    WellFormedSendable(data + rest);
    WellFormedSendable(data[size..] + rest);
    assert Packets(data + rest)[1..] == Packets(data[size..] + rest);
  }

  /** Processes the next packet and stays on track. */
  method Advance(out: Output, hs: Bytes, data: Bytes, env: nat -> Env, i: nat, ghost rest: Bytes, ghost body: Bytes)
    returns (size: int)
    requires OnTrack(out, hs, data, rest, env, i, body) && |hs| <= BUFFER_SIZE && EnvFits(env)
    modifies out, out.buffer
    ensures size <= 0 ==> !HasPacket(data) && OnTrack(out, hs, data, rest, env, i, body)
    ensures size > 0 ==> size <= |data| && OnTrack(out, hs, data[size..], rest, env, i + 1, body)
  {
    ghost var sent := out.Stream();
    if HasPacket(data) {
      FrontPacket(data, rest, hs, env, i);
    }
    size := ProcessPacket(out, hs, data, env(i));
    if size > 0 {
      Reassociate(sent, Rewrite(hs, data[..size], env(i)), RewriteAll(hs, Packets(data[size..] + rest), env, i + 1));
    }
  }

  lemma Reassociate(a: Bytes, b: Bytes, c: Bytes)
    ensures a + b + c == a + (b + c)
  {
  }

  /** Processes all whole packets of the data. */
  method ProcessPackets(out: Output, hs: Bytes, data: Bytes, env: nat -> Env, i: nat,
                        ghost rest: Bytes, ghost body: Bytes) returns (left: Bytes, next: nat)
    requires OnTrack(out, hs, data, rest, env, i, body) && |hs| <= BUFFER_SIZE && EnvFits(env)
    modifies out, out.buffer
    ensures OnTrack(out, hs, left, rest, env, next, body) && !HasPacket(left)
  {
    left, next := data, i;
    while true
      invariant OnTrack(out, hs, left, rest, env, next, body)
      decreases |left|
    {
      var size := Advance(out, hs, left, env, next, rest, body);
      if size <= 0 {
        break;
      }
      left, next := left[size..], next + 1;
    }
  }

  /** The size of the handshake at the start of the stream. */
  function HandshakeSize(bs: Bytes): nat
    requires |bs| >= 2
  {
    var size: int := bs[1];
    size + 2
  }

  /** A handshake of two bytes and as many more as the second says is cut off whole. */
  lemma HandshakeIsWhole(first: Byte, rest: Bytes, more: Bytes)
    requires |rest| < 256
    ensures var hs := [first, |rest|] + rest;
            HandshakeSize(hs + more) == |hs| && (hs + more)[..HandshakeSize(hs + more)] == hs
  {
  }

  /** Reads are not empty; the first one may bring 4095 bytes, the others 4096. */
  ghost predicate AreReads(chunks: seq<Bytes>) {
    && (forall i :: 0 <= i < |chunks| ==> 0 < |chunks[i]| <= BUFFER_SIZE)
    && (chunks != [] ==> 2 <= |chunks[0]| < BUFFER_SIZE)
  }

  /** The stream behind the handshake is one the listener can handle. */
  ghost predicate StreamFits(chunks: seq<Bytes>) {
    chunks != [] && |chunks[0]| >= 2 && HandshakeSize(chunks[0]) <= |chunks[0]| ==>
      var body := Concat(chunks)[HandshakeSize(chunks[0])..];
      WellFormed(body) && ConfiguresFirst(body)
  }

  /**
   Reads the stream chunk by chunk and sends it on. However the stream is cut into reads, the output is
   the rewriting of the packets that the whole stream contains.
   */
  method ProcessData(out: Output, chunks: seq<Bytes>, env: nat -> Env) returns (ok: bool)
    requires out.Valid() && !out.connected && out.Stream() == []
    requires AreReads(chunks) && StreamFits(chunks) && EnvFits(env)
    modifies out, out.buffer
    ensures ok <==> chunks == [] || HandshakeSize(chunks[0]) <= |chunks[0]|
    ensures ok && chunks != [] ==>
              var len := HandshakeSize(chunks[0]);
              var packets := Packets(Concat(chunks)[len..]);
              AllSendable(packets) && Concat(out.writes) == RewriteAll(chunks[0][..len], packets, env, 0)
  {
    if chunks == [] {
      return true;
    }
    var buffer := new Byte[2 * BUFFER_SIZE];
    CopyInto(buffer, 0, chunks[0]);
    var n := |chunks[0]|;
    assert buffer[..n] == chunks[0] by { assert buffer[..n] == buffer[0..n]; }
    var length: int := buffer[1];
    var len := length + 2;
    assert buffer[1] == buffer[..n][1];
    if len > n {
      return false;
    }
    var hs := buffer[..len];
    assert hs == chunks[0][..len];
    ghost var body := Concat(chunks)[len..];
    StartOfStream(chunks, len);
    SendStream(out, hs, buffer, len, n - len, chunks, env, body);
    ok := true;
  }

  lemma StartOfStream(chunks: seq<Bytes>, len: nat)
    requires chunks != [] && len <= |chunks[0]|
    ensures len <= |Concat(chunks)| && Concat(chunks)[len..] == chunks[0][len..] + Concat(chunks[1..])
  {
    assert Concat(chunks) == chunks[0] + Concat(chunks[1..]);
  }

  /** The main loop: process what is whole, move the rest to the front, read on. */
  method SendStream(out: Output, hs: Bytes, buffer: array<Byte>, ptr: nat, size: nat, chunks: seq<Bytes>, env: nat -> Env,
                    ghost body: Bytes)
    requires out.Valid() && !out.connected && out.Stream() == [] && buffer != out.buffer
    requires buffer.Length == 2 * BUFFER_SIZE && ptr + size <= buffer.Length
    requires AreReads(chunks) && chunks != [] && |hs| <= BUFFER_SIZE && EnvFits(env)
    requires WellFormed(body) && ConfiguresFirst(body) && body == buffer[ptr..ptr + size] + Concat(chunks[1..])
    modifies out, out.buffer, buffer
    ensures AllSendable(Packets(body)) && Concat(out.writes) == RewriteAll(hs, Packets(body), env, 0)
  {
    var i := 0;
    WellFormedSendable(body);
    var left;
    left, i := ProcessPackets(out, hs, buffer[ptr..ptr + size], env, i, Concat(chunks[1..]), body);
    ReadRest(out, hs, buffer, left, chunks, env, i, body);
    Finish(out);
  }

  /** Reads on until the stream ends. */
  method ReadRest(out: Output, hs: Bytes, buffer: array<Byte>, before: Bytes, chunks: seq<Bytes>, env: nat -> Env, from: nat,
                  ghost body: Bytes)
    requires buffer != out.buffer && buffer.Length == 2 * BUFFER_SIZE && !HasPacket(before)
    requires AreReads(chunks) && chunks != [] && |hs| <= BUFFER_SIZE && EnvFits(env)
    requires OnTrack(out, hs, before, Concat(chunks[1..]), env, from, body)
    modifies out, out.buffer, buffer
    ensures out.Valid() && out.Stream() == RewriteAll(hs, Packets(body), env, 0)
  {
    var left, i, k := before, from, 1;
    while k < |chunks|
      invariant 1 <= k <= |chunks| && i >= 0 && !HasPacket(left)
      invariant OnTrack(out, hs, left, Concat(chunks[k..]), env, i, body)
    {
      RestOfRest(chunks, k);
      left, i := ReadOn(out, hs, buffer, left, chunks[k], env, i, Concat(chunks[k + 1..]), body);
      k := k + 1;
    }
    EndOfStream(left, chunks, hs, env, i);
  }

  /** Moves the incomplete packet to the front of the buffer and reads the next chunk behind it. */
  method ReadBehind(buffer: array<Byte>, left: Bytes, chunk: Bytes)
    requires |left| + |chunk| <= buffer.Length
    modifies buffer
    ensures buffer[..|left| + |chunk|] == left + chunk
  {
    CopyInto(buffer, 0, left);
    assert buffer[..|left|] == buffer[0..|left|];
    CopyInto(buffer, |left|, chunk);
    assert buffer[..|left| + |chunk|] == buffer[..|left|] + buffer[|left|..|left| + |chunk|];
  }

  /** Reads one chunk and processes what has become whole. */
  method ReadOn(out: Output, hs: Bytes, buffer: array<Byte>, before: Bytes, chunk: Bytes, env: nat -> Env, i: nat,
                ghost rest: Bytes, ghost body: Bytes) returns (left: Bytes, next: nat)
    requires OnTrack(out, hs, before, chunk + rest, env, i, body) && !HasPacket(before)
    requires |hs| <= BUFFER_SIZE && EnvFits(env) && |chunk| <= BUFFER_SIZE
    requires buffer.Length == 2 * BUFFER_SIZE && buffer != out.buffer
    modifies out, out.buffer, buffer
    ensures OnTrack(out, hs, left, rest, env, next, body) && !HasPacket(left)
  {
    IncompleteIsShort(before, chunk + rest);
    ReadBehind(buffer, before, chunk);
    Reassociate(before, chunk, rest);
    left, next := ProcessPackets(out, hs, buffer[..|before| + |chunk|], env, i, rest, body);
  }

  method Finish(out: Output)
    requires out.Valid()
    modifies out
    ensures Concat(out.writes) == old(out.Stream())
  {
    if out.connected {
      out.Flush();
    }
    assert out.buffer[..out.head] == [];
  }

  lemma EndOfStream(left: Bytes, chunks: seq<Bytes>, hs: Bytes, env: nat -> Env, i: nat)
    requires !HasPacket(left)
    ensures AllSendable(Packets(left + Concat(chunks[|chunks|..])))
    ensures RewriteAll(hs, Packets(left + Concat(chunks[|chunks|..])), env, i) == []
  {
    assert left + Concat(chunks[|chunks|..]) == left;
  }
}
