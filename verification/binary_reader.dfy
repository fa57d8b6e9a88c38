/** The post-processor's side of the pipe: it reassembles packets from chunks and decodes them. */
module BinaryReader {
  import opened Bytes
  import opened Protocol

  /** Every packet of the stream fits the buffer and can be decoded. */
  ghost predicate Legible(bs: Bytes, ps: PointerSize)
    decreases |bs|
  {
    |bs| >= HEADER ==>
      && HEADER <= PacketSize(bs) <= BUFFER_SIZE
      && (HasPacket(bs) ==> Decodable(bs[..PacketSize(bs)], ps) && Legible(bs[PacketSize(bs)..], ps))
  }

  lemma {:induction false} LegibleDecodable(bs: Bytes, ps: PointerSize)
    requires Legible(bs, ps)
    ensures AllDecodable(Packets(bs), ps)
    decreases |bs|
  {
    if HasPacket(bs) { LegibleDecodable(bs[PacketSize(bs)..], ps); }
  }

  lemma {:induction false} StoppedForGood(st: Decoder, packets: seq<Bytes>, ps: PointerSize)
    requires AllDecodable(packets, ps) && st.stopped && (st.open ==> st.calls != [])
    ensures DecodeAll(st, packets, ps) == st
    decreases |packets|
  {
    if packets != [] { StoppedForGood(st, packets[1..], ps); }
  }

  /** What is decoded and what is still to come make up what the whole stream decodes to. */
  ghost predicate OnTrack(st: Decoder, data: Bytes, rest: Bytes, ps: PointerSize, result: Decoder) {
    && Legible(data + rest, ps) && AllDecodable(Packets(data + rest), ps) && (st.open ==> st.calls != [])
    && DecodeAll(st, Packets(data + rest), ps) == result
  }

  lemma DecodeFront(st: Decoder, data: Bytes, rest: Bytes, ps: PointerSize, result: Decoder)
    requires OnTrack(st, data, rest, ps, result) && HasPacket(data)
    ensures var size := PacketSize(data);
            Decodable(data[..size], ps) && OnTrack(DecodePacket(st, data[..size], ps), data[size..], rest, ps, result)
  {
    var size := PacketSize(data);
    PacketInFront(data, rest);
    LegibleDecodable(data[size..] + rest, ps);
    assert Packets(data + rest)[1..] == Packets(data[size..] + rest);
  }

  lemma IncompleteIsShort(data: Bytes, rest: Bytes, ps: PointerSize)
    requires Legible(data + rest, ps) && !HasPacket(data)
    ensures |data| < BUFFER_SIZE
  {
    if |data| >= HEADER {
      assert (data + rest)[4..8] == data[4..8];
    }
  }

  /** Decodes the whole packets of the data, up to one of unknown type. */
  method ReadPackets(before: Decoder, data: Bytes, ps: PointerSize, ghost rest: Bytes, ghost result: Decoder)
    returns (st: Decoder, left: Bytes)
    requires OnTrack(before, data, rest, ps, result) && !before.stopped
    ensures OnTrack(st, left, rest, ps, result) && (st.stopped || !HasPacket(left))
  {
    st, left := before, data;
    while |left| >= HEADER && !st.stopped
      invariant OnTrack(st, left, rest, ps, result)
      decreases |left|
    {
      var size := PacketSize(left);
      if size > |left| {
        break;
      }
      assert (left + rest)[4..8] == left[4..8];
      DecodeFront(st, left, rest, ps, result);
      st := DecodePacket(st, left[..size], ps);
      left := left[size..];
    }
  }

  /** Reads one chunk behind the incomplete packet and decodes what has become whole. */
  method ReadOn(before: Decoder, buffer: array<Byte>, had: Bytes, chunk: Bytes, ps: PointerSize,
                ghost rest: Bytes, ghost result: Decoder) returns (st: Decoder, left: Bytes)
    requires OnTrack(before, had, chunk + rest, ps, result) && !before.stopped && !HasPacket(had)
    requires buffer.Length == 2 * BUFFER_SIZE && |chunk| < BUFFER_SIZE
    modifies buffer
    ensures OnTrack(st, left, rest, ps, result) && (st.stopped || !HasPacket(left))
  {
    IncompleteIsShort(had, chunk + rest, ps);
    CopyInto(buffer, 0, had);
    assert buffer[..|had|] == buffer[0..|had|];
    CopyInto(buffer, |had|, chunk);
    var n := |had| + |chunk|;
    assert buffer[..n] == buffer[..|had|] + buffer[|had|..n];
    assert had + chunk + rest == had + (chunk + rest);
    st, left := ReadPackets(before, buffer[..n], ps, rest, result);
  }

  const START := Decoder([], false, false)

  /**
   Reads the stream behind the handshake, of which `first` came with the handshake, chunk by chunk.
   However it is cut, the calls decoded are those of the packets the whole stream contains.
   */
  method ReadBinaryData(first: Bytes, chunks: seq<Bytes>, ps: PointerSize) returns (st: Decoder)
    requires |first| < BUFFER_SIZE && forall i :: 0 <= i < |chunks| ==> 0 < |chunks[i]| < BUFFER_SIZE
    requires Legible(first + Concat(chunks), ps)
    ensures AllDecodable(Packets(first + Concat(chunks)), ps)
    ensures st == DecodeAll(START, Packets(first + Concat(chunks)), ps)
  {
    var buffer := new Byte[2 * BUFFER_SIZE];
    LegibleDecodable(first + Concat(chunks), ps);
    ghost var result := DecodeAll(START, Packets(first + Concat(chunks)), ps);
    var left, k := [], 0;
    st, left := ReadPackets(START, first, ps, Concat(chunks), result);
    assert chunks[0..] == chunks;
    while k < |chunks| && !st.stopped
      invariant 0 <= k <= |chunks| && OnTrack(st, left, Concat(chunks[k..]), ps, result)
      invariant st.stopped || !HasPacket(left)
    {
      assert chunks[k..][1..] == chunks[k + 1..];
      st, left := ReadOn(st, buffer, left, chunks[k], ps, Concat(chunks[k + 1..]), result);
      k := k + 1;
    }
    if st.stopped {
      StoppedForGood(st, Packets(left + Concat(chunks[k..])), ps);
    } else {
      assert left + Concat(chunks[k..]) == left;
    }
  }
}
