/** Bytes, little-endian numbers, and the packet framing of the binary protocol. */
module Bytes {
  import opened TraceTypes

  type Byte = x: int | 0 <= x < 256
  type Bytes = seq<Byte>

  /** The pipe buffers hold twice this many bytes. */
  const BUFFER_SIZE: nat := 4096

  ghost function Concat(gs: seq<Bytes>): Bytes {
    if gs == [] then [] else gs[0] + Concat(gs[1..])
  }

  lemma {:induction false} ConcatConcat(a: seq<Bytes>, b: seq<Bytes>)
    ensures Concat(a + b) == Concat(a) + Concat(b)
  {
    if a == [] {
      assert a + b == b;
    } else {
      ConcatConcat(a[1..], b);
      FirstOfConcat(a, b);
      Regrouped(a[0], Concat(a[1..]), Concat(b));
    }
  }

  lemma ConcatSnoc(gs: seq<Bytes>, g: Bytes)
    ensures Concat(gs + [g]) == Concat(gs) + g
  {
    ConcatConcat(gs, [g]);
    assert Concat([g]) == g + Concat([]);
  }

  method CopyInto(buffer: array<Byte>, at: nat, data: Bytes)
    requires at + |data| <= buffer.Length
    modifies buffer
    ensures buffer[..at] == old(buffer[..at]) && buffer[at..at + |data|] == data
  {
    forall i | 0 <= i < |data| {
      buffer[at + i] := data[i];
    }
  }

  // ---------------------------------------------------------------- numbers

  function Pow256(n: nat): nat
    ensures Pow256(n) > 0
  {
    if n == 0 then 1 else 256 * Pow256(n - 1)
  }

  /** The low `n` bytes of `x`, lowest first. */
  function Encode(x: nat, n: nat): (r: Bytes)
    ensures |r| == n
  {
    if n == 0 then [] else [x % 256] + Encode(x / 256, n - 1)
  }

  /** The `i`-th byte counts multiples of 256^i. */
  lemma {:induction false} EncodedByte(x: nat, n: nat, i: nat)
    requires i < n
    ensures Encode(x, n)[i] == x / Pow256(i) % 256
  {
    if i > 0 {
      EncodedByte(x / 256, n - 1, i - 1);
      DividedTwice(x, Pow256(i - 1));
    }
  }

  lemma DividedTwice(x: nat, p: nat)
    requires p > 0
    ensures x / 256 / p == x / (256 * p)
  {
    var q := x / 256 / p;
    var r, s := x / 256 % p, x % 256;
    assert x / 256 == q * p + r;
    assert x == q * (256 * p) + (256 * r + s) by { assert 256 * (q * p) == q * (256 * p); }
    QuotientUnique(x, 256 * p, q, 256 * r + s);
  }

  lemma QuotientUnique(x: nat, d: nat, q: nat, r: nat)
    requires d > 0 && x == q * d + r && r < d
    ensures x / d == q
  {
    var k, t := x / d, x % d;
    assert x == k * d + t;
    assert (k - q) * d == r - t;
    NoMultipleBetween(k - q, d, r - t);
  }

  lemma NoMultipleBetween(m: int, d: int, e: int)
    requires m * d == e && -d < e < d
    ensures m == 0
  {
    assert m >= 1 ==> m * d >= d;
    assert m <= -1 ==> m * d <= -d;
  }

  function Decode(bs: Bytes): nat {
    if bs == [] then 0 else bs[0] + 256 * Decode(bs[1..])
  }

  /** A number that fits comes back. */
  lemma {:induction false} DecodeEncode(x: nat, n: nat)
    requires x < Pow256(n)
    ensures Decode(Encode(x, n)) == x
  {
    if n > 0 {
      DecodeEncode(x / 256, n - 1);
      assert Encode(x, n)[1..] == Encode(x / 256, n - 1);
    }
  }

  lemma {:induction false} DecodeBound(bs: Bytes)
    ensures Decode(bs) < Pow256(|bs|)
  {
    if bs != [] { DecodeBound(bs[1..]); }
  }

  lemma Pow256Values()
    ensures Pow256(2) == 0x1_0000 && Pow256(4) == 0x1_0000_0000
  {
    assert Pow256(1) == 256 * Pow256(0);
    assert Pow256(2) == 256 * Pow256(1);
    assert Pow256(3) == 256 * Pow256(2);
  }

  const U32: nat := 0x1_0000_0000

  function Dword(x: nat): (r: Bytes)
    ensures |r| == 4
  {
    Encode(x, 4)
  }

  lemma DecodeDword(x: nat)
    requires x < U32
    ensures Decode(Dword(x)) == x
  {
    Pow256Values();
    DecodeEncode(x, 4);
  }

  /** A number that does not fit is cut to its low 32 bits. */
  lemma DwordLow(x: nat)
    ensures Decode(Dword(x)) == x % U32
  {
    var k := CutHigh(x, 4);
    Pow256Values();
    DecodeBound(Dword(x));
    LowPart(Decode(Dword(x)), k);
  }

  lemma {:induction false} CutHigh(x: nat, n: nat) returns (k: nat)
    ensures x == Decode(Encode(x, n)) + k * Pow256(n)
  {
    if n == 0 {
      k := x;
    } else {
      k := CutHigh(x / 256, n - 1);
      assert Encode(x, n)[1..] == Encode(x / 256, n - 1);
      assert k * Pow256(n) == 256 * (k * Pow256(n - 1));
    }
  }

  lemma LowPart(r: nat, k: nat)
    requires r < U32
    ensures (r + k * U32) % U32 == r
  {
  }

  // ---------------------------------------------------------------- framing

  /** A packet is its type, the length of its payload, and the payload. */
  function Packet(kind: nat, payload: Bytes): (r: Bytes)
    ensures |r| == 8 + |payload|
  {
    Dword(kind) + Dword(|payload|) + payload
  }

  const HEADER: nat := 8

  function KindOf(bs: Bytes): nat
    requires |bs| >= HEADER
  {
    Decode(bs[..4])
  }

  /** The size of the packet at the start of `bs`, in 32-bit arithmetic. */
  function PacketSize(bs: Bytes): nat
    requires |bs| >= HEADER
  {
    (Decode(bs[4..8]) + HEADER) % U32
  }

  /** `bs` starts with a whole packet. */
  predicate HasPacket(bs: Bytes) {
    |bs| >= HEADER && 0 < PacketSize(bs) <= |bs|
  }

  /** The packets of a stream. */
  ghost function Packets(bs: Bytes): seq<Bytes>
    decreases |bs|
  {
    if !HasPacket(bs) then [] else [bs[..PacketSize(bs)]] + Packets(bs[PacketSize(bs)..])
  }

  /** The bytes behind the last whole packet. */
  ghost function Remainder(bs: Bytes): Bytes
    decreases |bs|
  {
    if !HasPacket(bs) then bs else Remainder(bs[PacketSize(bs)..])
  }

  lemma PacketIsFramed(kind: nat, payload: Bytes, rest: Bytes)
    requires kind < U32 && |payload| + HEADER < U32
    ensures var bs := Packet(kind, payload) + rest;
            && HasPacket(bs) && KindOf(bs) == kind && PacketSize(bs) == HEADER + |payload|
            && bs[..PacketSize(bs)] == Packet(kind, payload) && bs[PacketSize(bs)..] == rest
            && bs[HEADER..PacketSize(bs)] == payload
  {
    var bs := Packet(kind, payload) + rest;
    assert bs[..4] == Dword(kind);
    assert bs[4..8] == Dword(|payload|);
    DecodeDword(kind);
    DecodeDword(|payload|);
    assert bs[..8 + |payload|] == Packet(kind, payload);
  }

  /** A whole packet in the buffer is the first packet of the stream, whatever follows. */
  lemma PacketInFront(a: Bytes, b: Bytes)
    requires HasPacket(a)
    ensures HasPacket(a + b) && PacketSize(a + b) == PacketSize(a)
    ensures (a + b)[..PacketSize(a)] == a[..PacketSize(a)] && (a + b)[PacketSize(a)..] == a[PacketSize(a)..] + b
  {
    assert (a + b)[4..8] == a[4..8];
  }

  /** Packets that say their own size. */
  ghost predicate Framed(p: Bytes) {
    |p| >= HEADER && PacketSize(p) == |p|
  }

  ghost predicate AllFramed(ps: seq<Bytes>) {
    ps != [] ==> Framed(ps[0]) && AllFramed(ps[1..])
  }

  lemma {:induction false} AllFramedConcat(a: seq<Bytes>, b: seq<Bytes>)
    requires AllFramed(a) && AllFramed(b)
    ensures AllFramed(a + b)
  {
    if a == [] {
      assert a + b == b;
    } else {
      AllFramedConcat(a[1..], b);
      assert (a + b)[1..] == a[1..] + b;
    }
  }

  /** A stream of framed packets falls apart into just these packets. */
  lemma {:induction false} PacketsOfConcat(ps: seq<Bytes>)
    requires AllFramed(ps)
    ensures Packets(Concat(ps)) == ps && Remainder(Concat(ps)) == []
  {
    if ps != [] {
      PacketInFront(ps[0], Concat(ps[1..]));
      PacketsOfConcat(ps[1..]);
      assert ps[0][|ps[0]|..] + Concat(ps[1..]) == Concat(ps[1..]);
      assert ps == [ps[0]] + ps[1..];
    }
  }
}
