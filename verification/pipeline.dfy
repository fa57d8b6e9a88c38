/**
 The whole way of a traced call: the packet groups of the traced process, rewritten by the listener and
 decoded by the post-processor.
 */
module Pipeline {
  import opened TraceTypes
  import opened Bytes
  import opened Protocol
  import Listener
  import BinaryReader
  import PipeBuffer

  /** What a thread writes under one lock: a call with its arguments and backtrace, or a single packet. */
  datatype Unit = CallUnit(group: TracedGroup) | Single(packet: Bytes)

  function PacketsOf(u: Unit, ps: PointerSize): seq<Bytes> {
    match u
    case CallUnit(g) => GroupPackets(g, ps)
    case Single(p) => [p]
  }

  /** Single packets carry the other types of the protocol. */
  ghost predicate IsSingle(p: Bytes) {
    && Framed(p) && Listener.Sendable(p)
    && (ClosesCall(KindOf(p)) || LeavesCall(KindOf(p)) || KindOf(p) == NLIB)
  }

  ghost predicate IsUnit(u: Unit, ps: PointerSize) {
    match u
    case CallUnit(g) => IsGroup(g, ps) && |EncodeGroup(g, ps)| <= BUFFER_SIZE
    case Single(p) => IsSingle(p)
  }

  ghost predicate AreUnits(us: seq<Unit>, ps: PointerSize) {
    forall i :: 0 <= i < |us| ==> IsUnit(us[i], ps)
  }

  /** The mapping packets that the listener makes up are well formed. */
  ghost predicate AreMaps(e: Listener.Env) {
    forall j :: 0 <= j < |e.maps| ==> Framed(e.maps[j]) && |e.maps[j]| <= BUFFER_SIZE && KindOf(e.maps[j]) == MMAP
  }

  ghost predicate MapsFit(env: nat -> Listener.Env) {
    forall i: nat :: AreMaps(env(i))
  }

  /** The packets of each unit. */
  ghost function Pieces(us: seq<Unit>, ps: PointerSize): (r: seq<seq<Bytes>>)
    ensures |r| == |us| && forall i :: 0 <= i < |us| ==> r[i] == PacketsOf(us[i], ps)
  {
    seq(|us|, i requires 0 <= i < |us| => PacketsOf(us[i], ps))
  }

  /** The packets of a call go through the listener as they are. */
  ghost predicate IsCallPacket(p: Bytes) {
    && Framed(p) && Listener.Sendable(p)
    && (KindOf(p) == CALL || KindOf(p) == ARGS || KindOf(p) == BTRC)
  }

  lemma CallPacketFramed(kind: nat, payload: Bytes)
    requires kind == CALL || kind == ARGS || kind == BTRC
    requires HEADER + |payload| <= BUFFER_SIZE
    ensures IsCallPacket(Packet(kind, payload))
  {
    PacketIsFramed(kind, payload, []);
    assert Packet(kind, payload) + [] == Packet(kind, payload);
  }

  lemma GroupPacketsFramed(g: TracedGroup, ps: PointerSize)
    requires IsGroup(g, ps) && |EncodeGroup(g, ps)| <= BUFFER_SIZE
    ensures forall i :: 0 <= i < |GroupPackets(g, ps)| ==> IsCallPacket(GroupPackets(g, ps)[i])
  {
    GroupSizes(g, ps);
    CallPacketFramed(CALL, EncodeCall(g.call, ps));
    CallPacketFramed(BTRC, EncodeFrames(g.frames, ps));
    if g.args.Some? {
      CallPacketFramed(ARGS, EncodeArgs(g.args.value));
    }
  }

  // ---------------------------------------------------------------- the listener, packet by packet

  /** What the listener makes of one packet, as packets. */
  ghost function Forwarded(p: Bytes, e: Listener.Env): seq<Bytes>
    requires Listener.Sendable(p)
  {
    if KindOf(p) == NLIB then e.maps else if KindOf(p) == PINF then [Listener.Stamped(p, e)] else [p]
  }

  ghost function AllForwarded(packets: seq<Bytes>, env: nat -> Listener.Env, i: nat): seq<Bytes>
    requires Listener.AllSendable(packets)
    decreases |packets|
  {
    if packets == [] then [] else Forwarded(packets[0], env(i)) + AllForwarded(packets[1..], env, i + 1)
  }

  lemma {:induction false} ForwardedConcat(a: seq<Bytes>, b: seq<Bytes>, env: nat -> Listener.Env, i: nat)
    requires Listener.AllSendable(a) && Listener.AllSendable(b)
    ensures Listener.AllSendable(a + b)
    ensures AllForwarded(a + b, env, i) == AllForwarded(a, env, i) + AllForwarded(b, env, i + |a|)
    decreases |a|
  {
    if a == [] {
      assert a + b == b;
    } else {
      ForwardedConcat(a[1..], b, env, i + 1);
      FirstOfConcat(a, b);
      assert i + 1 + |a[1..]| == i + |a|;
      var f, q, r := Forwarded(a[0], env(i)), AllForwarded(a[1..], env, i + 1), AllForwarded(b, env, i + |a|);
      Regrouped(f, q, r);
    }
  }

  ghost predicate NoConfig(packets: seq<Bytes>)
    requires Listener.AllSendable(packets)
  {
    forall i :: 0 <= i < |packets| ==> KindOf(packets[i]) != OCFG
  }

  lemma {:induction false} RewritesPackets(hs: Bytes, packets: seq<Bytes>, env: nat -> Listener.Env, i: nat)
    requires Listener.AllSendable(packets) && NoConfig(packets)
    ensures Listener.RewriteAll(hs, packets, env, i) == Concat(AllForwarded(packets, env, i))
    decreases |packets|
  {
    if packets != [] {
      RewritesPackets(hs, packets[1..], env, i + 1);
      ConcatConcat(Forwarded(packets[0], env(i)), AllForwarded(packets[1..], env, i + 1));
      SingleConcat(packets[0], env(i));
    }
  }

  lemma SingleConcat(p: Bytes, e: Listener.Env)
    requires Listener.Sendable(p) && KindOf(p) != OCFG
    ensures Concat(Forwarded(p, e)) == Listener.Rewrite([], p, e)
  {
    if KindOf(p) != NLIB {
      var q := Forwarded(p, e)[0];
      assert Concat([q]) == q + Concat([]);
    }
  }

  // ---------------------------------------------------------------- decoding what the listener sent

  lemma {:induction false} DecodeConcat(st: Decoder, a: seq<Bytes>, b: seq<Bytes>, ps: PointerSize)
    requires AllDecodable(a, ps) && AllDecodable(b, ps) && (st.open ==> st.calls != [])
    ensures AllDecodable(a + b, ps)
    ensures DecodeAll(st, a + b, ps) == DecodeAll(DecodeAll(st, a, ps), b, ps)
    decreases |a|
  {
    if a == [] {
      assert a + b == b;
    } else {
      DecodeConcat(DecodePacket(st, a[0], ps), a[1..], b, ps);
      assert (a + b)[1..] == a[1..] + b;
    }
  }

  /** A packet that neither adds a call nor stops the decoder. */
  ghost predicate Passes(p: Bytes) {
    Framed(p) && |p| <= BUFFER_SIZE && (ClosesCall(KindOf(p)) || LeavesCall(KindOf(p)))
  }

  lemma {:induction false} PassersDecode(calls: seq<CallRecord>, packets: seq<Bytes>, ps: PointerSize)
    requires forall i :: 0 <= i < |packets| ==> Passes(packets[i])
    ensures AllDecodable(packets, ps)
    ensures DecodeAll(Decoder(calls, false, false), packets, ps) == Decoder(calls, false, false)
    decreases |packets|
  {
    if packets != [] { PassersDecode(calls, packets[1..], ps); }
  }

  lemma SinglePasses(p: Bytes, e: Listener.Env)
    requires IsSingle(p) && AreMaps(e)
    ensures forall i :: 0 <= i < |Forwarded(p, e)| ==> Passes(Forwarded(p, e)[i])
  {
    if KindOf(p) == PINF {
      var q := Listener.Stamped(p, e);
      assert q[..4] == p[..4] && q[4..8] == p[4..8];
    }
  }

  lemma {:induction false} CallPacketsForwarded(packets: seq<Bytes>, env: nat -> Listener.Env, i: nat)
    requires forall j :: 0 <= j < |packets| ==> IsCallPacket(packets[j])
    ensures Listener.AllSendable(packets) && AllForwarded(packets, env, i) == packets
    decreases |packets|
  {
    if packets != [] { CallPacketsForwarded(packets[1..], env, i + 1); }
  }

  lemma {:induction false} FramedEach(packets: seq<Bytes>)
    requires forall i :: 0 <= i < |packets| ==> Framed(packets[i])
    ensures AllFramed(packets)
  {
    if packets != [] { FramedEach(packets[1..]); }
  }

  lemma ForwardedSingle(p: Bytes, env: nat -> Listener.Env, i: nat)
    requires Listener.Sendable(p)
    ensures AllForwarded([p], env, i) == Forwarded(p, env(i))
  {
    assert AllForwarded([p], env, i) == Forwarded(p, env(i)) + AllForwarded([], env, i + 1);
  }

  // ---------------------------------------------------------------- one unit

  ghost function RecordOf(u: Unit): seq<CallRecord> {
    match u case CallUnit(g) => [Record(g)] case Single(_) => []
  }

  /** From what is forwarded for `packets`, the decoder adds just the calls `records`. */
  ghost predicate Delivers(packets: seq<Bytes>, records: seq<CallRecord>, env: nat -> Listener.Env, i: nat, ps: PointerSize)
  {
    && Listener.AllSendable(packets) && AllFramed(packets)
    && AllFramed(AllForwarded(packets, env, i)) && AllDecodable(AllForwarded(packets, env, i), ps)
    && (forall calls ::
          DecodeAll(Decoder(calls, false, false), AllForwarded(packets, env, i), ps) == Decoder(calls + records, false, false))
  }

  lemma CallDelivered(g: TracedGroup, env: nat -> Listener.Env, i: nat, ps: PointerSize)
    requires IsGroup(g, ps) && |EncodeGroup(g, ps)| <= BUFFER_SIZE
    ensures Delivers(GroupPackets(g, ps), [Record(g)], env, i, ps)
  {
    var packets := GroupPackets(g, ps);
    GroupPacketsFramed(g, ps);
    CallPacketsForwarded(packets, env, i);
    FramedEach(packets);
    GroupRoundTrip(BinaryReader.START, g, ps);
    forall calls
      ensures DecodeAll(Decoder(calls, false, false), packets, ps) == Decoder(calls + [Record(g)], false, false)
    {
      GroupRoundTrip(Decoder(calls, false, false), g, ps);
    }
  }

  lemma SingleDelivered(p: Bytes, env: nat -> Listener.Env, i: nat, ps: PointerSize)
    requires IsSingle(p) && MapsFit(env)
    ensures Delivers([p], [], env, i, ps)
  {
    assert AreMaps(env(i));
    SinglePasses(p, env(i));
    ForwardedSingle(p, env, i);
    FramedEach([p]);
    FramedEach(Forwarded(p, env(i)));
    PassersDecode([], Forwarded(p, env(i)), ps);
    forall calls
      ensures DecodeAll(Decoder(calls, false, false), Forwarded(p, env(i)), ps) == Decoder(calls + [], false, false)
    {
      PassersDecode(calls, Forwarded(p, env(i)), ps);
      assert calls + [] == calls;
    }
  }

  lemma UnitDelivered(u: Unit, env: nat -> Listener.Env, i: nat, ps: PointerSize)
    requires IsUnit(u, ps) && MapsFit(env)
    ensures Delivers(PacketsOf(u, ps), RecordOf(u), env, i, ps)
  {
    match u
    case CallUnit(g) => CallDelivered(g, env, i, ps);
    case Single(p) => SingleDelivered(p, env, i, ps);
  }

  // ---------------------------------------------------------------- all units

  ghost predicate AllDeliver(pieces: seq<seq<Bytes>>, records: seq<seq<CallRecord>>, env: nat -> Listener.Env, ps: PointerSize) {
    |pieces| == |records| && forall k, i: nat :: 0 <= k < |pieces| ==> Delivers(pieces[k], records[k], env, i, ps)
  }

  lemma DeliverConcat(a: seq<Bytes>, ra: seq<CallRecord>, b: seq<Bytes>, rb: seq<CallRecord>,
                      env: nat -> Listener.Env, i: nat, ps: PointerSize)
    requires Delivers(a, ra, env, i, ps) && Delivers(b, rb, env, i + |a|, ps)
    ensures Delivers(a + b, ra + rb, env, i, ps)
  {
    var fa, fb := AllForwarded(a, env, i), AllForwarded(b, env, i + |a|);
    ForwardedConcat(a, b, env, i);
    AllFramedConcat(a, b);
    AllFramedConcat(fa, fb);
    DecodeConcat(BinaryReader.START, fa, fb, ps);
    forall calls
      ensures DecodeAll(Decoder(calls, false, false), fa + fb, ps) == Decoder(calls + (ra + rb), false, false)
    {
      JoinDecoded(calls, fa, fb, ra, rb, ps);
    }
  }

  lemma JoinDecoded(calls: seq<CallRecord>, a: seq<Bytes>, b: seq<Bytes>, ra: seq<CallRecord>, rb: seq<CallRecord>, ps: PointerSize)
    requires AllDecodable(a, ps) && AllDecodable(b, ps)
    requires DecodeAll(Decoder(calls, false, false), a, ps) == Decoder(calls + ra, false, false)
    requires DecodeAll(Decoder(calls + ra, false, false), b, ps) == Decoder(calls + ra + rb, false, false)
    ensures AllDecodable(a + b, ps)
    ensures DecodeAll(Decoder(calls, false, false), a + b, ps) == Decoder(calls + (ra + rb), false, false)
  {
    DecodeConcat(Decoder(calls, false, false), a, b, ps);
    assert calls + ra + rb == calls + (ra + rb);
  }

  lemma {:induction false} PiecesDelivered(pieces: seq<seq<Bytes>>, records: seq<seq<CallRecord>>,
                                          env: nat -> Listener.Env, i: nat, ps: PointerSize)
    requires AllDeliver(pieces, records, env, ps)
    ensures Delivers(Flatten(pieces), Flatten(records), env, i, ps)
    decreases |pieces|
  {
    if pieces == [] {
      NothingDelivered(env, i, ps);
    } else {
      RestDelivers(pieces, records, env, ps);
      PiecesDelivered(pieces[1..], records[1..], env, i + |pieces[0]|, ps);
      DeliverConcat(pieces[0], records[0], Flatten(pieces[1..]), Flatten(records[1..]), env, i, ps);
    }
  }

  lemma NothingDelivered(env: nat -> Listener.Env, i: nat, ps: PointerSize)
    ensures Delivers([], [], env, i, ps)
  {
    assert forall calls: seq<CallRecord> :: calls + [] == calls;
  }

  lemma RestDelivers(pieces: seq<seq<Bytes>>, records: seq<seq<CallRecord>>, env: nat -> Listener.Env, ps: PointerSize)
    requires AllDeliver(pieces, records, env, ps) && pieces != []
    ensures AllDeliver(pieces[1..], records[1..], env, ps)
  {
  }

  /** The records of the traced calls, in order. */
  ghost function Records(us: seq<Unit>): seq<CallRecord> {
    Flatten(seq(|us|, i requires 0 <= i < |us| => RecordOf(us[i])))
  }

  lemma UnitsDelivered(us: seq<Unit>, env: nat -> Listener.Env, ps: PointerSize)
    requires AreUnits(us, ps) && MapsFit(env)
    ensures Delivers(Flatten(Pieces(us, ps)), Records(us), env, 0, ps)
  {
    var pieces, records := Pieces(us, ps), seq(|us|, i requires 0 <= i < |us| => RecordOf(us[i]));
    forall k, i: nat | 0 <= k < |us| ensures Delivers(pieces[k], records[k], env, i, ps) {
      UnitDelivered(us[k], env, i, ps);
    }
    PiecesDelivered(pieces, records, env, 0, ps);
  }

  // ---------------------------------------------------------------- the whole way

  lemma {:induction false} FramedWellFormed(packets: seq<Bytes>)
    requires AllFramed(packets) && Listener.AllSendable(packets)
    ensures Listener.WellFormed(Concat(packets))
    decreases |packets|
  {
    if packets != [] {
      var p, rest := packets[0], Concat(packets[1..]);
      PacketInFront(p, rest);
      FramedWellFormed(packets[1..]);
      assert p[|p|..] + rest == rest;
    }
  }

  ghost predicate AllFit(packets: seq<Bytes>) {
    packets != [] ==> |packets[0]| <= BUFFER_SIZE && AllFit(packets[1..])
  }

  lemma {:induction false} AllFitConcat(a: seq<Bytes>, b: seq<Bytes>)
    requires AllFit(a) && AllFit(b)
    ensures AllFit(a + b)
  {
    if a == [] {
      assert a + b == b;
    } else {
      AllFitConcat(a[1..], b);
      assert (a + b)[0] == a[0] && (a + b)[1..] == a[1..] + b;
    }
  }

  lemma {:induction false} EachFits(packets: seq<Bytes>)
    requires forall j :: 0 <= j < |packets| ==> |packets[j]| <= BUFFER_SIZE
    ensures AllFit(packets)
  {
    if packets != [] { EachFits(packets[1..]); }
  }

  /** What is sent on is never larger than the buffer. */
  lemma {:induction false} ForwardedFits(packets: seq<Bytes>, env: nat -> Listener.Env, i: nat)
    requires Listener.AllSendable(packets) && MapsFit(env)
    ensures AllFit(AllForwarded(packets, env, i))
    decreases |packets|
  {
    if packets != [] {
      assert AreMaps(env(i));
      EachFits(Forwarded(packets[0], env(i)));
      ForwardedFits(packets[1..], env, i + 1);
      AllFitConcat(Forwarded(packets[0], env(i)), AllForwarded(packets[1..], env, i + 1));
    }
  }

  /** Framed packets that can be decoded make up a stream that the chunked reader can take. */
  lemma {:induction false} FramedLegible(packets: seq<Bytes>, ps: PointerSize)
    requires AllFramed(packets) && AllFit(packets) && AllDecodable(packets, ps)
    ensures BinaryReader.Legible(Concat(packets), ps)
    decreases |packets|
  {
    if packets != [] {
      var p, rest := packets[0], Concat(packets[1..]);
      PacketInFront(p, rest);
      FramedLegible(packets[1..], ps);
      assert p[|p|..] + rest == rest;
    }
  }

  /** The first packet carries the output settings, and no other does. */
  ghost predicate StartsWithConfig(packets: seq<Bytes>)
    requires Listener.AllSendable(packets)
  {
    packets != [] && KindOf(packets[0]) == OCFG && NoConfig(packets[1..])
  }

  lemma ConfigFirst(packets: seq<Bytes>, hs: Bytes, env: nat -> Listener.Env)
    requires Listener.AllSendable(packets) && StartsWithConfig(packets)
    ensures Listener.RewriteAll(hs, packets, env, 0) == hs + Concat(AllForwarded(packets, env, 0))
  {
    var p, rest := packets[0], AllForwarded(packets[1..], env, 1);
    RewritesPackets(hs, packets[1..], env, 1);
    ConcatConcat([p], rest);
    assert Concat([p]) == p + Concat([]);
    assert hs + p + Concat(rest) == hs + (p + Concat(rest));
  }

  /**
   From the traced process to the post-processor: whatever single packets come between the calls, and
   whatever mappings the listener adds, the stream it sends on is the handshake and then packets from
   which exactly the traced calls decode, in order, each with its own arguments and backtrace.
   */
  lemma CallsArrive(us: seq<Unit>, hs: Bytes, env: nat -> Listener.Env, ps: PointerSize)
    requires AreUnits(us, ps) && MapsFit(env)
    requires Listener.AllSendable(Flatten(Pieces(us, ps))) && StartsWithConfig(Flatten(Pieces(us, ps)))
    ensures var stream := Concat(Flatten(Pieces(us, ps)));
            && Listener.WellFormed(stream) && Packets(stream) == Flatten(Pieces(us, ps))
            && exists sent ::
                 && Listener.RewriteAll(hs, Packets(stream), env, 0) == hs + Concat(sent)
                 && Packets(Concat(sent)) == sent && AllDecodable(sent, ps) && BinaryReader.Legible(Concat(sent), ps)
                 && DecodeAll(BinaryReader.START, sent, ps).calls == Records(us)
  {
    var packets := Flatten(Pieces(us, ps));
    UnitsDelivered(us, env, ps);
    PacketsOfConcat(packets);
    FramedWellFormed(packets);
    ConfigFirst(packets, hs, env);
    var sent := AllForwarded(packets, env, 0);
    PacketsOfConcat(sent);
    ForwardedFits(packets, env, 0);
    FramedLegible(sent, ps);
    assert [] + Records(us) == Records(us);
  }

  ghost function Joined(pieces: seq<seq<Bytes>>): (r: seq<Bytes>)
    ensures |r| == |pieces| && forall i :: 0 <= i < |r| ==> r[i] == Concat(pieces[i])
  {
    seq(|pieces|, i requires 0 <= i < |pieces| => Concat(pieces[i]))
  }

  lemma {:induction false} ConcatFlatten(pieces: seq<seq<Bytes>>)
    ensures Concat(Flatten(pieces)) == Concat(Joined(pieces))
  {
    if pieces != [] {
      ConcatFlatten(pieces[1..]);
      ConcatConcat(pieces[0], Flatten(pieces[1..]));
      assert Joined(pieces)[1..] == Joined(pieces[1..]);
    }
  }

  /**
   In every interleaving of the traced threads whose groups are the handshake and then these units,
   once the buffer is flushed the pipe has carried the handshake and the packets of the units, unmixed.
   */
  lemma PipeCarriesUnits(run: seq<PipeBuffer.State>, n: nat, hs: Bytes, us: seq<Unit>, ps: PointerSize)
    requires PipeBuffer.Run(run) && n < |run| && run[n].head == 0
    requires run[n].groups == [hs] + Joined(Pieces(us, ps))
    ensures Concat(run[n].writes) == hs + Concat(Flatten(Pieces(us, ps)))
  {
    PipeBuffer.EveryInterleavingSafe(run, n);
    ConcatFlatten(Pieces(us, ps));
    assert Concat([hs] + Joined(Pieces(us, ps))) == hs + Concat(Joined(Pieces(us, ps))) by {
      assert ([hs] + Joined(Pieces(us, ps)))[1..] == Joined(Pieces(us, ps));
    }
    assert run[n].buffer[..0] == [];
    assert Concat(run[n].writes) + [] == Concat(run[n].writes);
  }

  /** A way of cutting a stream into what the first read of the reader brings and the reads after it. */
  type Cutter = Bytes -> (Bytes, seq<Bytes>)

  ghost predicate Cuts(cut: Cutter) {
    forall b: Bytes ::
      && cut(b).0 + Concat(cut(b).1) == b && |cut(b).0| < BUFFER_SIZE
      && forall i :: 0 <= i < |cut(b).1| ==> 0 < |cut(b).1[i]| < BUFFER_SIZE
  }

  method JoinWrites(writes: seq<Bytes>) returns (all: Bytes)
    ensures all == Concat(writes)
  {
    all := [];
    assert writes[0..] == writes;
    for i := 0 to |writes|
      invariant all + Concat(writes[i..]) == Concat(writes)
    {
      assert writes[i..][1..] == writes[i + 1..];
      all := all + writes[i];
    }
  }

  /** What the threads of the traced process have put into the pipe: the handshake, then these units. */
  ghost predicate Carried(run: seq<PipeBuffer.State>, n: nat, hs: Bytes, us: seq<Unit>, ps: PointerSize) {
    && PipeBuffer.Run(run) && n < |run| && run[n].head == 0
    && run[n].groups == [hs] + Joined(Pieces(us, ps)) && |hs| >= 2 && Listener.HandshakeSize(hs) == |hs|
  }

  /** The units are ones that the listener and the reader are made for. */
  ghost predicate Handled(us: seq<Unit>, env: nat -> Listener.Env, ps: PointerSize) {
    && AreUnits(us, ps) && MapsFit(env)
    && Listener.AllSendable(Flatten(Pieces(us, ps))) && StartsWithConfig(Flatten(Pieces(us, ps)))
  }

  lemma ReadsHandshake(input: seq<Bytes>, hs: Bytes, body: Bytes)
    requires input != [] && |hs| >= 2 && |hs| <= |input[0]| && Concat(input) == hs + body
    ensures input[0][..|hs|] == hs && input[0][1] == hs[1] && Concat(input)[|hs|..] == body
  {
    var all := hs + body;
    assert Concat(input) == input[0] + Concat(input[1..]);
    assert input[0][..|hs|] == all[..|hs|] == hs;
    assert input[0][..|hs|][1] == input[0][1];
  }

  /** The reads of the listener fit what it asks for. */
  lemma ReadsFit(input: seq<Bytes>, hs: Bytes, us: seq<Unit>, env: nat -> Listener.Env, ps: PointerSize)
    requires Handled(us, env, ps) && |hs| >= 2 && Listener.HandshakeSize(hs) == |hs|
    requires input != [] && |hs| <= |input[0]| && Concat(input) == hs + Concat(Flatten(Pieces(us, ps)))
    ensures |input[0]| >= 2 && Listener.HandshakeSize(input[0]) == |hs| && input[0][..|hs|] == hs
    ensures Concat(input)[|hs|..] == Concat(Flatten(Pieces(us, ps)))
    ensures Listener.StreamFits(input) && Listener.EnvFits(env)
  {
    var packets := Flatten(Pieces(us, ps));
    ReadsHandshake(input, hs, Concat(packets));
    CallsArrive(us, hs, env, ps);
    assert Packets(Concat(packets))[0] == packets[0];
    forall i: nat, j | 0 <= j < |env(i).maps| ensures |env(i).maps[j]| <= BUFFER_SIZE {
      assert AreMaps(env(i));
    }
  }

  /**
   From the threads to the records: whatever the interleaving of the threads, however both pipes cut their
   streams into reads, and whatever the listener adds, exactly the traced calls are decoded, in order.
   */
  method CarryCalls(out: Listener.Output, input: seq<Bytes>, env: nat -> Listener.Env, cut: Cutter, ps: PointerSize,
                    ghost run: seq<PipeBuffer.State>, ghost n: nat, ghost hs: Bytes, ghost us: seq<Unit>)
    returns (st: Decoder)
    requires out.Valid() && !out.connected && out.Stream() == []
    requires Carried(run, n, hs, us, ps) && Handled(us, env, ps) && Cuts(cut)
    requires Listener.AreReads(input) && input != [] && |hs| <= |input[0]| && Concat(input) == Concat(run[n].writes)
    modifies out, out.buffer
    ensures st.calls == Records(us)
  {
    PipeCarriesUnits(run, n, hs, us, ps);
    ReadsFit(input, hs, us, env, ps);
    CallsArrive(us, hs, env, ps);
    var ok := Listener.ProcessData(out, input, env);
    var sent := JoinWrites(out.writes);
    var body := sent[Listener.HandshakeSize(input[0])..];
    var (first, rest) := cut(body);
    st := BinaryReader.ReadBinaryData(first, rest, ps);
  }
}
