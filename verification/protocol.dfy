/**
 The function call packets of the binary protocol: how a traced call, its arguments and its backtrace
 are encoded, and how the post-processor decodes them. Numbers are little-endian.
 */
module Protocol {
  import opened TraceTypes
  import opened Bytes

  // ---------------------------------------------------------------- strings

  /** A C string: no NUL among its characters. */
  predicate IsCString(s: Bytes) {
    forall i :: 0 <= i < |s| ==> s[i] != 0
  }

  function Zeros(n: nat): (r: Bytes)
    ensures |r| == n && forall i :: 0 <= i < n ==> r[i] == 0
  {
    seq(n, i => 0)
  }

  /** The padding that brings a length to a multiple of four. */
  function Padding(n: nat): (p: nat)
    ensures p < 4 && (n + p) % 4 == 0
  {
    if n % 4 == 0 then 0 else 4 - n % 4
  }

  /** A string is its padded length in two bytes, its characters and the padding; NULL is four zero bytes. */
  function EncodeString(s: Option<Bytes>): (r: Bytes)
    ensures |r| % 4 == 0 && |r| >= 4
  {
    match s
    case None => Dword(0)
    case Some(str) =>
      var pad := Padding(2 + |str|);
      Encode(|str| + pad, 2) + str + Zeros(pad)
  }

  /** The characters before the first NUL. */
  function UpToNul(s: Bytes): Bytes {
    if s == [] || s[0] == 0 then [] else [s[0]] + UpToNul(s[1..])
  }

  /** The decoded string, and how many bytes the reader moves on. */
  function DecodeString(bs: Bytes): (Bytes, nat)
    requires |bs| >= 2
  {
    var len := Decode(bs[..2]);
    if len == 0 then ([], 4)
    else (UpToNul(bs[2..if 2 + len <= |bs| then 2 + len else |bs|]), len + 2)
  }

  function AsCString(s: Option<Bytes>): Bytes {
    if s.Some? then s.value else []
  }

  lemma {:induction false} UpToPadding(str: Bytes, n: nat)
    requires IsCString(str)
    ensures UpToNul(str + Zeros(n)) == str
  {
    if str == [] {
      assert str + Zeros(n) == Zeros(n);
    } else {
      UpToPadding(str[1..], n);
      assert (str + Zeros(n))[1..] == str[1..] + Zeros(n);
    }
  }

  /** The longest string whose padded length fits into two bytes. */
  const MAX_STRING: nat := 65534

  ghost predicate IsString(s: Option<Bytes>) {
    s.Some? ==> IsCString(s.value) && |s.value| <= MAX_STRING
  }

  /** Decoding a string undoes encoding it and moves on by exactly its bytes; NULL reads as empty. */
  lemma StringRoundTrip(s: Option<Bytes>, rest: Bytes)
    requires IsString(s)
    ensures DecodeString(EncodeString(s) + rest) == (AsCString(s), |EncodeString(s)|)
  {
    var bs := EncodeString(s) + rest;
    Pow256Values();
    match s
    case None =>
      assert bs[..2] == Encode(0, 2) by {
        assert Dword(0) == [0] + Encode(0, 3) && Encode(0, 3) == [0] + Encode(0, 2);
        assert Encode(0, 2) == [0] + Encode(0, 1) && Encode(0, 1) == [0] + Encode(0, 0);
      }
      DecodeEncode(0, 2);
    case Some(str) =>
      var pad := Padding(2 + |str|);
      var len := |str| + pad;
      assert bs[..2] == Encode(len, 2);
      DecodeEncode(len, 2);
      assert bs[2..2 + len] == str + Zeros(pad);
      UpToPadding(str, pad);
  }

  /** The reader finds the end of an encoded string if and only if the string is short enough. */
  lemma StringEndFound(str: Bytes, rest: Bytes)
    requires IsCString(str)
    ensures DecodeString(EncodeString(Some(str)) + rest).1 == |EncodeString(Some(str))| <==> |str| <= MAX_STRING
  {
    if |str| <= MAX_STRING {
      StringRoundTrip(Some(str), rest);
    } else {
      var bs := EncodeString(Some(str)) + rest;
      var len := |str| + Padding(2 + |str|);
      assert bs[..2] == Encode(len, 2);
      DecodeBound(bs[..2]);
      Pow256Values();
    }
  }

  // ---------------------------------------------------------------- packet types

  // four characters each, the first one in the lowest byte
  const CALL: nat := 0x4C4C_4143
  const ARGS: nat := 0x5347_5241
  const BTRC: nat := 0x4352_5442
  const MMAP: nat := 0x5041_4D4D
  const MINF: nat := 0x464E_494D
  const CTXR: nat := 0x5258_5443
  const RESR: nat := 0x5253_4552
  const PINF: nat := 0x464E_4950
  const HINF: nat := 0x464E_4948
  const NLIB: nat := 0x4249_4C4E
  const OCFG: nat := 0x4746_434F
  const FILE: nat := 0x454C_4946

  /** The packet type that four letters make, the first in the lowest byte. */
  ghost predicate Spells(kind: nat, letters: string) {
    && |letters| == 4 && (forall i :: 0 <= i < 4 ==> letters[i] < 256 as char)
    && kind == letters[0] as int + 256 * (letters[1] as int + 256 * (letters[2] as int + 256 * letters[3] as int))
  }

  lemma TypesSpelled()
    ensures Spells(CALL, "CALL") && Spells(ARGS, "ARGS") && Spells(BTRC, "BTRC") && Spells(MMAP, "MMAP")
    ensures Spells(MINF, "MINF") && Spells(CTXR, "CTXR") && Spells(RESR, "RESR") && Spells(PINF, "PINF")
    ensures Spells(HINF, "HINF") && Spells(NLIB, "NLIB") && Spells(OCFG, "OCFG") && Spells(FILE, "FILE")
  {
  }

  /** A packet begins with the letters of its type. */
  lemma LettersSent(kind: nat, letters: string, payload: Bytes)
    requires Spells(kind, letters)
    ensures forall i :: 0 <= i < 4 ==> Packet(kind, payload)[i] == letters[i] as int
  {
    var low := letters[2] as int + 256 * letters[3] as int;
    assert Dword(kind)[1..] == Encode(letters[1] as int + 256 * low, 3);
    assert Encode(letters[1] as int + 256 * low, 3)[1..] == Encode(low, 2);
    assert Encode(low, 2)[1..] == Encode(letters[3] as int, 1);
  }

  // ---------------------------------------------------------------- payloads

  /** A call as a tracing module reports it; `Str` is the type of its name on either side. */
  datatype CallFields<Str> = CallFields(resType: nat, context: nat, timestamp: nat, kind: nat, name: Str,
                                        resSize: int, resId: nat)

  datatype ArgFields<Str> = ArgFields(name: Str, value: Str)

  type Traced = CallFields<Option<Bytes>>
  type TracedArg = ArgFields<Option<Bytes>>

  /** The size of a pointer in the traced process and in the post-processor. */
  type PointerSize = n: nat | n == 4 || n == 8 witness 8

  ghost predicate IsTraced(c: Traced, ps: PointerSize) {
    && c.resType < 0x8000_0000 && c.context < U32 && c.timestamp < U32 && c.kind < U32
    && IsString(c.name) && -0x8000_0000 <= c.resSize < 0x8000_0000 && c.resId < Pow256(ps)
  }

  function AsUnsigned(x: int): nat {
    x % U32
  }

  function AsSigned(x: nat): int {
    if x % U32 < 0x8000_0000 then x % U32 else x % U32 - U32
  }

  function EncodeCall(c: Traced, ps: PointerSize): (r: Bytes)
    ensures |r| % 4 == 0
  {
    Dword(c.resType) + Dword(c.context) + Dword(c.timestamp) + Dword(c.kind)
    + EncodeString(c.name) + Dword(AsUnsigned(c.resSize)) + Encode(c.resId, ps)
  }

  ghost predicate Readable(bs: Bytes, ps: PointerSize) {
    |bs| >= 18 && |bs| >= 20 + DecodeString(bs[16..]).1 + ps
  }

  function DecodeCall(bs: Bytes, ps: PointerSize): CallFields<Bytes>
    requires Readable(bs, ps)
  {
    var (name, used) := DecodeString(bs[16..]);
    CallFields(Decode(bs[..4]), Decode(bs[4..8]), Decode(bs[8..12]), Decode(bs[12..16]), name,
               AsSigned(Decode(bs[16 + used..20 + used])), Decode(bs[20 + used..20 + used + ps]))
  }

  function Received(c: Traced): CallFields<Bytes> {
    CallFields(c.resType, c.context, c.timestamp, c.kind, AsCString(c.name), c.resSize, c.resId)
  }

  /** The call packet decodes to the call that was traced. */
  lemma CallRoundTrip(c: Traced, ps: PointerSize)
    requires IsTraced(c, ps)
    ensures Readable(EncodeCall(c, ps), ps) && DecodeCall(EncodeCall(c, ps), ps) == Received(c)
  {
    var name, size, id := EncodeString(c.name), Dword(AsUnsigned(c.resSize)), Encode(c.resId, ps);
    CallLayout(Dword(c.resType), Dword(c.context), Dword(c.timestamp), Dword(c.kind), name, size, id);
    StringRoundTrip(c.name, size + id);
    DecodeLaidOut(EncodeCall(c, ps), Dword(c.resType), Dword(c.context), Dword(c.timestamp), Dword(c.kind),
                  name, size, id, AsCString(c.name), ps);
    NumbersRoundTrip(c, ps);
  }

  /** Where the fields of a call packet lie. */
  ghost predicate LaidOut(bs: Bytes, a: Bytes, b: Bytes, c: Bytes, d: Bytes, name: Bytes, size: Bytes, id: Bytes) {
    && |bs| == 20 + |name| + |id|
    && bs[..4] == a && bs[4..8] == b && bs[8..12] == c && bs[12..16] == d
    && bs[16..] == name + (size + id)
    && bs[16 + |name|..20 + |name|] == size && bs[20 + |name|..20 + |name| + |id|] == id
  }

  lemma CallLayout(a: Bytes, b: Bytes, c: Bytes, d: Bytes, name: Bytes, size: Bytes, id: Bytes)
    requires |a| == |b| == |c| == |d| == |size| == 4
    ensures LaidOut(a + b + c + d + name + size + id, a, b, c, d, name, size, id)
  {
  }

  lemma DecodeLaidOut(bs: Bytes, a: Bytes, b: Bytes, c: Bytes, d: Bytes, name: Bytes, size: Bytes, id: Bytes,
                      text: Bytes, ps: PointerSize)
    requires LaidOut(bs, a, b, c, d, name, size, id) && |id| == ps && DecodeString(name + (size + id)) == (text, |name|)
    ensures Readable(bs, ps) && DecodeCall(bs, ps)
         == CallFields(Decode(a), Decode(b), Decode(c), Decode(d), text, AsSigned(Decode(size)), Decode(id))
  {
  }

  lemma NumbersRoundTrip(c: Traced, ps: PointerSize)
    requires IsTraced(c, ps)
    ensures Decode(Dword(c.resType)) == c.resType && Decode(Dword(c.context)) == c.context
    ensures Decode(Dword(c.timestamp)) == c.timestamp && Decode(Dword(c.kind)) == c.kind
    ensures AsSigned(Decode(Dword(AsUnsigned(c.resSize)))) == c.resSize
    ensures Decode(Encode(c.resId, ps)) == c.resId
  {
    DecodeDword(c.resType);
    DecodeDword(c.context);
    DecodeDword(c.timestamp);
    DecodeDword(c.kind);
    SignedBack(c.resSize);
    DecodeEncode(c.resId, ps);
  }

  lemma SignedBack(x: int)
    requires -0x8000_0000 <= x < 0x8000_0000
    ensures AsSigned(Decode(Dword(AsUnsigned(x)))) == x
  {
    DecodeDword(AsUnsigned(x));
  }

  /** Where everything in a call packet lies, byte by byte. */
  lemma CallPacketBytes(c: Traced, ps: PointerSize)
    requires IsTraced(c, ps) && |EncodeCall(c, ps)| + HEADER < U32
    ensures var p, n := Packet(CALL, EncodeCall(c, ps)), |EncodeString(c.name)|;
            && |p| == 28 + n + ps && p[..4] == Dword(CALL) && Decode(p[4..8]) == |p| - 8
            && Decode(p[8..12]) == c.resType && Decode(p[12..16]) == c.context && Decode(p[16..20]) == c.timestamp
            && Decode(p[20..24]) == c.kind && p[24..24 + n] == EncodeString(c.name)
            && Decode(p[24 + n..28 + n]) == (if c.resSize < 0 then c.resSize + U32 else c.resSize)
            && Decode(p[28 + n..]) == c.resId
  {
    var name, size, id := EncodeString(c.name), Dword(AsUnsigned(c.resSize)), Encode(c.resId, ps);
    CallLayout(Dword(c.resType), Dword(c.context), Dword(c.timestamp), Dword(c.kind), name, size, id);
    PacketIsFramed(CALL, EncodeCall(c, ps), []);
    CallNumbers(c, ps);
    DecodeDword(|EncodeCall(c, ps)|);
    PayloadLaidOut(Dword(CALL), Dword(|EncodeCall(c, ps)|), EncodeCall(c, ps),
                   Dword(c.resType), Dword(c.context), Dword(c.timestamp), Dword(c.kind), name, size, id);
  }

  lemma CallNumbers(c: Traced, ps: PointerSize)
    requires IsTraced(c, ps)
    ensures Decode(Dword(c.resType)) == c.resType && Decode(Dword(c.context)) == c.context
    ensures Decode(Dword(c.timestamp)) == c.timestamp && Decode(Dword(c.kind)) == c.kind
    ensures Decode(Dword(AsUnsigned(c.resSize))) == if c.resSize < 0 then c.resSize + U32 else c.resSize
    ensures Decode(Encode(c.resId, ps)) == c.resId
  {
    NumbersRoundTrip(c, ps);
    DecodeDword(AsUnsigned(c.resSize));
  }

  lemma PayloadLaidOut(kind: Bytes, len: Bytes, bs: Bytes, a: Bytes, b: Bytes, c: Bytes, d: Bytes,
                       name: Bytes, size: Bytes, id: Bytes)
    requires |kind| == |len| == 4 && LaidOut(bs, a, b, c, d, name, size, id)
    requires |a| == |b| == |c| == |d| == |size| == 4
    ensures var p, n := kind + len + bs, |name|;
            && p[..4] == kind && p[4..8] == len && p[8..12] == a && p[12..16] == b && p[16..20] == c && p[20..24] == d
            && p[24..24 + n] == name && p[24 + n..28 + n] == size && p[28 + n..] == id
  {
    var p, n := kind + len + bs, |name|;
    assert p[8..] == bs;
    assert p[8..12] == bs[..4] && p[12..16] == bs[4..8] && p[16..20] == bs[8..12] && p[20..24] == bs[12..16];
    assert p[24..24 + n] == bs[16..][..n];
    assert p[24 + n..28 + n] == bs[16 + n..20 + n] && p[28 + n..] == bs[20 + n..20 + n + |id|];
  }

  /** A string in a packet: two bytes for the padded length, its characters, and as few zeros as align it. */
  lemma StringBytes(str: Bytes)
    requires |str| <= MAX_STRING
    ensures var r := EncodeString(Some(str));
            && |str| + 2 <= |r| < |str| + 6 && |r| % 4 == 0 && Decode(r[..2]) == |r| - 2
            && r[2..2 + |str|] == str && forall i :: 2 + |str| <= i < |r| ==> r[i] == 0
  {
    var pad := Padding(2 + |str|);
    var r := EncodeString(Some(str));
    Pow256Values();
    DecodeEncode(|str| + pad, 2);
    assert r[..2] == Encode(|str| + pad, 2) && r[2 + |str|..] == Zeros(pad);
    forall i | 2 + |str| <= i < |r| ensures r[i] == 0 {
      assert r[i] == r[2 + |str|..][i - 2 - |str|];
    }
  }

  /** No string at all is four zeros. */
  lemma NoStringBytes()
    ensures EncodeString(None) == [0, 0, 0, 0]
  {
    assert Encode(0, 4) == [0] + Encode(0, 3) && Encode(0, 3) == [0] + Encode(0, 2);
    assert Encode(0, 2) == [0] + Encode(0, 1) && Encode(0, 1) == [0] + Encode(0, 0);
  }

  // arguments

  function EncodeArgPairs(args: seq<TracedArg>): (r: Bytes)
    ensures |r| % 4 == 0
  {
    if args == [] then []
    else
      var name, value, rest := EncodeString(args[0].name), EncodeString(args[0].value), EncodeArgPairs(args[1..]);
      Multiples(|name|, |value|);
      Multiples(|name| + |value|, |rest|);
      name + value + rest
  }

  lemma Multiples(a: nat, b: nat)
    requires a % 4 == 0 && b % 4 == 0
    ensures (a + b) % 4 == 0
  {
  }

  function EncodeArgs(args: seq<TracedArg>): (r: Bytes)
    ensures |r| % 4 == 0
  {
    Multiples(4, |EncodeArgPairs(args)|);
    Dword(|args|) + EncodeArgPairs(args)
  }

  /** Reads `n` pairs of strings; a reader that runs off the packet finds empty strings. */
  function DecodeArgPairs(bs: Bytes, n: nat): seq<ArgFields<Bytes>>
    decreases n
  {
    if n == 0 then []
    else
      var (name, used) := StringAt(bs, 0);
      var (value, more) := StringAt(bs, used);
      [ArgFields(name, value)] + DecodeArgPairs(if used + more <= |bs| then bs[used + more..] else [], n - 1)
  }

  function StringAt(bs: Bytes, at: nat): (Bytes, nat) {
    if at + 2 <= |bs| then DecodeString(bs[at..]) else ([], 4)
  }

  function DecodeArgs(bs: Bytes): seq<ArgFields<Bytes>>
    requires |bs| >= 4
  {
    DecodeArgPairs(bs[4..], Decode(bs[..4]))
  }

  ghost predicate AreArgs(args: seq<TracedArg>) {
    |args| < U32 && forall i :: 0 <= i < |args| ==> IsString(args[i].name) && IsString(args[i].value)
  }

  function ReceivedArgs(args: seq<TracedArg>): (r: seq<ArgFields<Bytes>>)
    ensures |r| == |args|
  {
    seq(|args|, i requires 0 <= i < |args| => ArgFields(AsCString(args[i].name), AsCString(args[i].value)))
  }

  lemma {:induction false} ArgPairsRoundTrip(args: seq<TracedArg>)
    requires AreArgs(args)
    ensures DecodeArgPairs(EncodeArgPairs(args), |args|) == ReceivedArgs(args)
  {
    if args != [] {
      var name, value := EncodeString(args[0].name), EncodeString(args[0].value);
      var rest := EncodeArgPairs(args[1..]);
      PairLayout(name, value, rest);
      StringRoundTrip(args[0].name, value + rest);
      StringRoundTrip(args[0].value, rest);
      ArgPairsRoundTrip(args[1..]);
      FirstReceived(args);
    }
  }

  lemma FirstReceived(args: seq<TracedArg>)
    requires args != []
    ensures ReceivedArgs(args) == [ArgFields(AsCString(args[0].name), AsCString(args[0].value))] + ReceivedArgs(args[1..])
  {
  }

  lemma PairLayout(name: Bytes, value: Bytes, rest: Bytes)
    ensures var bs := name + value + rest;
            && bs[0..] == name + (value + rest) && bs[|name|..] == value + rest && bs[|name| + |value|..] == rest
  {
  }

  lemma ArgsRoundTrip(args: seq<TracedArg>)
    requires AreArgs(args)
    ensures DecodeArgs(EncodeArgs(args)) == ReceivedArgs(args)
  {
    assert EncodeArgs(args)[..4] == Dword(|args|) && EncodeArgs(args)[4..] == EncodeArgPairs(args);
    DecodeDword(|args|);
    ArgPairsRoundTrip(args);
  }

  /** Two strings, one behind the other. */
  ghost predicate PairAt(r: Bytes, at: nat, name: Bytes, value: Bytes) {
    && at + |name| + |value| <= |r|
    && r[at..at + |name|] == name && r[at + |name|..at + |name| + |value|] == value
  }

  /** The count comes first; the name of each argument, then its value, follow those of the arguments before. */
  lemma ArgBytes(args: seq<TracedArg>, i: nat)
    requires i < |args| < U32
    ensures Decode(EncodeArgs(args)[..4]) == |args|
    ensures PairAt(EncodeArgs(args), 4 + |EncodeArgPairs(args[..i])|, EncodeString(args[i].name), EncodeString(args[i].value))
  {
    DecodeDword(|args|);
    ArgsSplit(args, i);
    PairBehind(Dword(|args|), EncodeArgPairs(args[..i]), EncodeString(args[i].name), EncodeString(args[i].value),
               EncodeArgPairs(args[i + 1..]));
  }

  lemma PairBehind(count: Bytes, before: Bytes, name: Bytes, value: Bytes, rest: Bytes)
    requires |count| == 4
    ensures var r := count + (before + (name + value + rest)); r[..4] == count && PairAt(r, 4 + |before|, name, value)
  {
    assert (count + (before + (name + value + rest)))[4 + |before|..] == name + value + rest;
  }

  lemma ArgsSplit(args: seq<TracedArg>, i: nat)
    requires i < |args|
    ensures EncodeArgs(args)
         == Dword(|args|) + (EncodeArgPairs(args[..i])
              + (EncodeString(args[i].name) + EncodeString(args[i].value) + EncodeArgPairs(args[i + 1..])))
  {
    ArgPairsSplit(args, i);
  }

  lemma FirstPair(args: seq<TracedArg>)
    requires args != []
    ensures EncodeArgPairs(args) == EncodeString(args[0].name) + EncodeString(args[0].value) + EncodeArgPairs(args[1..])
  {
  }

  lemma {:induction false} ArgPairsSplit(args: seq<TracedArg>, i: nat)
    requires i < |args|
    ensures EncodeArgPairs(args) == EncodeArgPairs(args[..i])
              + (EncodeString(args[i].name) + EncodeString(args[i].value) + EncodeArgPairs(args[i + 1..]))
  {
    FirstPair(args);
    if i > 0 {
      ArgPairsSplit(args[1..], i - 1);
      FirstPair(args[..i]);
      SlicesBehind(args, i);
      Regrouped(EncodeString(args[0].name) + EncodeString(args[0].value), EncodeArgPairs(args[..i][1..]),
                EncodeString(args[i].name) + EncodeString(args[i].value) + EncodeArgPairs(args[i + 1..]));
    } else {
      assert args[..0] == [];
    }
  }

  lemma SlicesBehind<X>(s: seq<X>, i: nat)
    requires 0 < i < |s|
    ensures s[1..][..i - 1] == s[..i][1..] && s[1..][i..] == s[i + 1..] && s[1..][i - 1] == s[i] && s[..i][0] == s[0]
  {
  }

  // backtraces

  function EncodeFrameList(frames: seq<nat>, ps: PointerSize): (r: Bytes)
    ensures |r| == ps * |frames|
  {
    if frames == [] then [] else Encode(frames[0], ps) + EncodeFrameList(frames[1..], ps)
  }

  function EncodeFrames(frames: seq<nat>, ps: PointerSize): (r: Bytes)
    ensures |r| == 4 + ps * |frames|
  {
    Dword(|frames|) + EncodeFrameList(frames, ps)
  }

  function DecodeFrameList(bs: Bytes, n: nat, ps: PointerSize): seq<nat>
    decreases n
  {
    if n == 0 then []
    else if |bs| < ps then [0] + DecodeFrameList([], n - 1, ps)
    else [Decode(bs[..ps])] + DecodeFrameList(bs[ps..], n - 1, ps)
  }

  function DecodeFrames(bs: Bytes, ps: PointerSize): seq<nat>
    requires |bs| >= 4
  {
    DecodeFrameList(bs[4..], Decode(bs[..4]), ps)
  }

  ghost predicate AreFrames(frames: seq<nat>, ps: PointerSize) {
    |frames| < 0x8000_0000 && forall i :: 0 <= i < |frames| ==> frames[i] < Pow256(ps)
  }

  lemma {:induction false} FrameListRoundTrip(frames: seq<nat>, ps: PointerSize)
    requires AreFrames(frames, ps)
    ensures DecodeFrameList(EncodeFrameList(frames, ps), |frames|, ps) == frames
  {
    if frames != [] {
      var bs := EncodeFrameList(frames, ps);
      assert bs[..ps] == Encode(frames[0], ps) && bs[ps..] == EncodeFrameList(frames[1..], ps);
      DecodeEncode(frames[0], ps);
      FrameListRoundTrip(frames[1..], ps);
    }
  }

  lemma FramesRoundTrip(frames: seq<nat>, ps: PointerSize)
    requires AreFrames(frames, ps)
    ensures DecodeFrames(EncodeFrames(frames, ps), ps) == frames
  {
    assert EncodeFrames(frames, ps)[..4] == Dword(|frames|);
    assert EncodeFrames(frames, ps)[4..] == EncodeFrameList(frames, ps);
    DecodeDword(|frames|);
    FrameListRoundTrip(frames, ps);
  }

  /** The count comes first, then the frames in order, each as wide as a pointer. */
  lemma FrameBytes(frames: seq<nat>, ps: PointerSize, i: nat)
    requires i < |frames| < U32
    ensures var r, at := EncodeFrames(frames, ps), 4 + ps * i;
            Decode(r[..4]) == |frames| && at + ps <= |r| && r[at..at + ps] == Encode(frames[i], ps)
  {
    DecodeDword(|frames|);
    FrameInList(frames, ps, i, ps * i);
    SliceBehind(Dword(|frames|), EncodeFrameList(frames, ps), ps * i, ps);
    assert EncodeFrames(frames, ps)[..4] == Dword(|frames|);
  }

  lemma {:induction false} FrameInList(frames: seq<nat>, ps: PointerSize, i: nat, at: nat)
    requires i < |frames| && at == ps * i
    ensures at + ps <= |EncodeFrameList(frames, ps)|
    ensures EncodeFrameList(frames, ps)[at..at + ps] == Encode(frames[i], ps)
  {
    FirstFrame(frames, ps);
    if i > 0 {
      assert at - ps == ps * (i - 1);
      FrameInList(frames[1..], ps, i - 1, at - ps);
      SliceBehind(Encode(frames[0], ps), EncodeFrameList(frames[1..], ps), at - ps, ps);
    }
  }

  lemma FirstFrame(frames: seq<nat>, ps: PointerSize)
    requires frames != []
    ensures var r := EncodeFrameList(frames, ps);
            |r| >= ps && r[..ps] == Encode(frames[0], ps) && r == Encode(frames[0], ps) + EncodeFrameList(frames[1..], ps)
  {
  }

  lemma SliceBehind(a: Bytes, b: Bytes, at: nat, n: nat)
    requires at + n <= |b|
    ensures (a + b)[|a| + at..|a| + at + n] == b[at..at + n]
  {
  }

  // ---------------------------------------------------------------- groups of packets

  /** One traced call with its arguments, if it has any to report, and its backtrace. */
  datatype TracedGroup = TracedGroup(call: Traced, args: Option<seq<TracedArg>>, frames: seq<nat>)

  ghost predicate IsGroup(g: TracedGroup, ps: PointerSize) {
    && IsTraced(g.call, ps) && AreFrames(g.frames, ps) && (g.args.Some? ==> AreArgs(g.args.value))
    && |EncodeGroup(g, ps)| < U32
  }

  function ArgsPacket(args: Option<seq<TracedArg>>): seq<Bytes> {
    if args.Some? then [Packet(ARGS, EncodeArgs(args.value))] else []
  }

  /** The packets a call is reported with. */
  function GroupPackets(g: TracedGroup, ps: PointerSize): seq<Bytes> {
    [Packet(CALL, EncodeCall(g.call, ps))] + ArgsPacket(g.args) + [Packet(BTRC, EncodeFrames(g.frames, ps))]
  }

  function EncodeGroup(g: TracedGroup, ps: PointerSize): Bytes {
    Packet(CALL, EncodeCall(g.call, ps))
    + (if g.args.Some? then Packet(ARGS, EncodeArgs(g.args.value)) else [])
    + Packet(BTRC, EncodeFrames(g.frames, ps))
  }

  lemma GroupIsItsPackets(g: TracedGroup, ps: PointerSize)
    ensures Concat(GroupPackets(g, ps)) == EncodeGroup(g, ps)
  {
    var call, trace := Packet(CALL, EncodeCall(g.call, ps)), Packet(BTRC, EncodeFrames(g.frames, ps));
    if g.args.Some? {
      var args := Packet(ARGS, EncodeArgs(g.args.value));
      ConcatThree(call, args, trace);
      assert GroupPackets(g, ps) == [call, args, trace];
    } else {
      ConcatTwo(call, trace);
      assert GroupPackets(g, ps) == [call, trace];
      assert call + [] == call;
    }
  }

  lemma ConcatTwo(a: Bytes, b: Bytes)
    ensures Concat([a, b]) == a + b
  {
    assert [a, b][1..] == [b] && [b][1..] == [];
    assert Concat([b]) == b + Concat([]) == b;
    assert Concat([a, b]) == a + Concat([b]);
  }

  lemma ConcatThree(a: Bytes, b: Bytes, c: Bytes)
    ensures Concat([a, b, c]) == a + b + c
  {
    assert [a, b, c][1..] == [b, c];
    ConcatTwo(b, c);
    Regrouped(a, b, c);
  }

  /** Every packet of a group has a length that is a multiple of four. */
  lemma GroupAligned(g: TracedGroup, ps: PointerSize)
    ensures forall i :: 0 <= i < |GroupPackets(g, ps)| ==> |GroupPackets(g, ps)[i]| % 4 == 0
    ensures |EncodeGroup(g, ps)| % 4 == 0
  {
    var a, c := Packet(CALL, EncodeCall(g.call, ps)), Packet(BTRC, EncodeFrames(g.frames, ps));
    FramesAligned(g.frames, ps);
    PacketAligned(CALL, EncodeCall(g.call, ps));
    PacketAligned(BTRC, EncodeFrames(g.frames, ps));
    if g.args.Some? {
      var b := Packet(ARGS, EncodeArgs(g.args.value));
      PacketAligned(ARGS, EncodeArgs(g.args.value));
      Multiples(|a|, |b|);
      Multiples(|a| + |b|, |c|);
      assert GroupPackets(g, ps) == [a, b, c];
    } else {
      Multiples(|a|, |c|);
      assert GroupPackets(g, ps) == [a, c];
    }
  }

  lemma PacketAligned(kind: nat, payload: Bytes)
    requires |payload| % 4 == 0
    ensures |Packet(kind, payload)| % 4 == 0
  {
  }

  lemma FramesAligned(frames: seq<nat>, ps: PointerSize)
    ensures |EncodeFrames(frames, ps)| % 4 == 0
  {
    var n := |frames|;
    FourTimes(1 + (ps / 4) * n);
    assert ps * n == 4 * ((ps / 4) * n) by { assert ps == 4 || ps == 8; }
  }

  lemma FourTimes(k: nat)
    ensures (4 * k) % 4 == 0
  {
  }

  // ---------------------------------------------------------------- decoding packets

  /** A call the post-processor has decoded, with what later packets attached to it. */
  datatype CallRecord = CallRecord(call: CallFields<Bytes>, args: Option<seq<ArgFields<Bytes>>>, frames: Option<seq<nat>>)

  /** `open`: the last call may still get arguments or a backtrace. `stopped`: an unknown packet came. */
  datatype Decoder = Decoder(calls: seq<CallRecord>, open: bool, stopped: bool)

  predicate ClosesCall(kind: nat) {
    kind == MMAP || kind == CTXR || kind == RESR || kind == PINF || kind == MINF || kind == HINF
  }

  predicate LeavesCall(kind: nat) {
    kind == OCFG || kind == FILE
  }

  ghost predicate Decodable(packet: Bytes, ps: PointerSize) {
    && |packet| >= HEADER
    && (KindOf(packet) == CALL ==> Readable(packet[HEADER..], ps))
    && (KindOf(packet) == ARGS || KindOf(packet) == BTRC ==> |packet| >= HEADER + 4)
  }

  function DecodePacket(st: Decoder, packet: Bytes, ps: PointerSize): (r: Decoder)
    requires Decodable(packet, ps) && (st.open ==> st.calls != [])
    ensures r.open ==> r.calls != []
  {
    var kind, payload, last := KindOf(packet), packet[HEADER..], |st.calls| - 1;
    if st.stopped then st
    else if kind == CALL then
      st.(calls := st.calls + [CallRecord(DecodeCall(payload, ps), None, None)], open := true)
    else if kind == BTRC then
      if st.open then
        st.(calls := st.calls[..last] + [st.calls[last].(frames := Some(DecodeFrames(payload, ps)))], open := false)
      else st
    else if kind == ARGS then
      if st.open then st.(calls := st.calls[..last] + [st.calls[last].(args := Some(DecodeArgs(payload)))])
      else st
    else if ClosesCall(kind) then st.(open := false)
    else if LeavesCall(kind) then st
    else st.(open := false, stopped := true)
  }

  ghost predicate AllDecodable(packets: seq<Bytes>, ps: PointerSize) {
    packets != [] ==> Decodable(packets[0], ps) && AllDecodable(packets[1..], ps)
  }

  ghost function DecodeAll(st: Decoder, packets: seq<Bytes>, ps: PointerSize): (r: Decoder)
    requires AllDecodable(packets, ps) && (st.open ==> st.calls != [])
    ensures r.open ==> r.calls != []
    decreases |packets|
  {
    if packets == [] then st else DecodeAll(DecodePacket(st, packets[0], ps), packets[1..], ps)
  }

  /** The record that decoding must rebuild. */
  function Record(g: TracedGroup): CallRecord {
    CallRecord(Received(g.call), if g.args.Some? then Some(ReceivedArgs(g.args.value)) else None, Some(g.frames))
  }

  lemma PacketParts(kind: nat, payload: Bytes)
    requires kind < U32 && |payload| + HEADER < U32
    ensures var p := Packet(kind, payload); KindOf(p) == kind && p[HEADER..] == payload
  {
    PacketIsFramed(kind, payload, []);
    assert Packet(kind, payload) + [] == Packet(kind, payload);
  }

  lemma CallPacketDecodes(st: Decoder, c: Traced, ps: PointerSize)
    requires IsTraced(c, ps) && |EncodeCall(c, ps)| + HEADER < U32 && !st.stopped && (st.open ==> st.calls != [])
    ensures var p := Packet(CALL, EncodeCall(c, ps));
            && Decodable(p, ps)
            && DecodePacket(st, p, ps) == Decoder(st.calls + [CallRecord(Received(c), None, None)], true, false)
  {
    PacketParts(CALL, EncodeCall(c, ps));
    CallRoundTrip(c, ps);
  }

  lemma ArgsPacketDecodes(calls: seq<CallRecord>, rec: CallRecord, args: seq<TracedArg>, ps: PointerSize)
    requires AreArgs(args) && |EncodeArgs(args)| + HEADER < U32
    ensures var p := Packet(ARGS, EncodeArgs(args));
            && Decodable(p, ps)
            && DecodePacket(Decoder(calls + [rec], true, false), p, ps)
               == Decoder(calls + [rec.(args := Some(ReceivedArgs(args)))], true, false)
  {
    PacketParts(ARGS, EncodeArgs(args));
    ArgsRoundTrip(args);
    assert (calls + [rec])[..|calls|] == calls;
  }

  lemma TracePacketDecodes(calls: seq<CallRecord>, rec: CallRecord, frames: seq<nat>, ps: PointerSize)
    requires AreFrames(frames, ps) && |EncodeFrames(frames, ps)| + HEADER < U32
    ensures var p := Packet(BTRC, EncodeFrames(frames, ps));
            && Decodable(p, ps)
            && DecodePacket(Decoder(calls + [rec], true, false), p, ps)
               == Decoder(calls + [rec.(frames := Some(frames))], false, false)
  {
    PacketParts(BTRC, EncodeFrames(frames, ps));
    FramesRoundTrip(frames, ps);
    assert (calls + [rec])[..|calls|] == calls;
  }

  /** Decoding the packets of a group adds exactly the call that was traced, with its arguments and backtrace. */
  lemma GroupRoundTrip(st: Decoder, g: TracedGroup, ps: PointerSize)
    requires IsGroup(g, ps) && !st.stopped && (st.open ==> st.calls != [])
    ensures AllDecodable(GroupPackets(g, ps), ps)
    ensures DecodeAll(st, GroupPackets(g, ps), ps) == Decoder(st.calls + [Record(g)], false, false)
  {
    GroupSizes(g, ps);
    if g.args.Some? {
      WithArgsDecodes(st, g.call, g.args.value, g.frames, ps);
    } else {
      WithoutArgsDecodes(st, g.call, g.frames, ps);
    }
  }

  lemma GroupSizes(g: TracedGroup, ps: PointerSize)
    requires |EncodeGroup(g, ps)| < U32
    ensures |EncodeCall(g.call, ps)| + HEADER < U32 && |EncodeFrames(g.frames, ps)| + HEADER < U32
    ensures g.args.Some? ==> |EncodeArgs(g.args.value)| + HEADER < U32
    ensures GroupPackets(g, ps)
         == if g.args.Some? then
              [Packet(CALL, EncodeCall(g.call, ps)), Packet(ARGS, EncodeArgs(g.args.value)),
               Packet(BTRC, EncodeFrames(g.frames, ps))]
            else [Packet(CALL, EncodeCall(g.call, ps)), Packet(BTRC, EncodeFrames(g.frames, ps))]
  {
  }

  lemma WithArgsDecodes(st: Decoder, c: Traced, args: seq<TracedArg>, frames: seq<nat>, ps: PointerSize)
    requires IsTraced(c, ps) && AreArgs(args) && AreFrames(frames, ps) && !st.stopped && (st.open ==> st.calls != [])
    requires |EncodeCall(c, ps)| + HEADER < U32 && |EncodeArgs(args)| + HEADER < U32
    requires |EncodeFrames(frames, ps)| + HEADER < U32
    ensures var ps3 := [Packet(CALL, EncodeCall(c, ps)), Packet(ARGS, EncodeArgs(args)), Packet(BTRC, EncodeFrames(frames, ps))];
            && AllDecodable(ps3, ps)
            && DecodeAll(st, ps3, ps)
               == Decoder(st.calls + [CallRecord(Received(c), Some(ReceivedArgs(args)), Some(frames))], false, false)
  {
    var rec := CallRecord(Received(c), None, None);
    CallPacketDecodes(st, c, ps);
    ArgsPacketDecodes(st.calls, rec, args, ps);
    TracePacketDecodes(st.calls, rec.(args := Some(ReceivedArgs(args))), frames, ps);
    DecodeThree(st, Packet(CALL, EncodeCall(c, ps)), Packet(ARGS, EncodeArgs(args)), Packet(BTRC, EncodeFrames(frames, ps)), ps);
  }

  lemma WithoutArgsDecodes(st: Decoder, c: Traced, frames: seq<nat>, ps: PointerSize)
    requires IsTraced(c, ps) && AreFrames(frames, ps) && !st.stopped && (st.open ==> st.calls != [])
    requires |EncodeCall(c, ps)| + HEADER < U32 && |EncodeFrames(frames, ps)| + HEADER < U32
    ensures var ps2 := [Packet(CALL, EncodeCall(c, ps)), Packet(BTRC, EncodeFrames(frames, ps))];
            && AllDecodable(ps2, ps)
            && DecodeAll(st, ps2, ps) == Decoder(st.calls + [CallRecord(Received(c), None, Some(frames))], false, false)
  {
    CallPacketDecodes(st, c, ps);
    TracePacketDecodes(st.calls, CallRecord(Received(c), None, None), frames, ps);
    DecodeTwo(st, Packet(CALL, EncodeCall(c, ps)), Packet(BTRC, EncodeFrames(frames, ps)), ps);
  }

  lemma DecodeStep(st: Decoder, a: Bytes, rest: seq<Bytes>, ps: PointerSize)
    requires Decodable(a, ps) && AllDecodable(rest, ps)
    requires st.open ==> st.calls != []
    ensures AllDecodable([a] + rest, ps)
    ensures DecodeAll(st, [a] + rest, ps) == DecodeAll(DecodePacket(st, a, ps), rest, ps)
  {
    assert ([a] + rest)[1..] == rest;
  }

  lemma DecodeTwo(st: Decoder, a: Bytes, b: Bytes, ps: PointerSize)
    requires Decodable(a, ps) && Decodable(b, ps) && (st.open ==> st.calls != [])
    ensures AllDecodable([a, b], ps)
    ensures DecodeAll(st, [a, b], ps) == DecodePacket(DecodePacket(st, a, ps), b, ps)
  {
    assert [a, b] == [a] + [b] && [b] == [b] + [];
    DecodeStep(st, a, [b], ps);
    DecodeStep(DecodePacket(st, a, ps), b, [], ps);
  }

  lemma DecodeThree(st: Decoder, a: Bytes, b: Bytes, c: Bytes, ps: PointerSize)
    requires Decodable(a, ps) && Decodable(b, ps) && Decodable(c, ps) && (st.open ==> st.calls != [])
    ensures AllDecodable([a, b, c], ps)
    ensures DecodeAll(st, [a, b, c], ps) == DecodePacket(DecodePacket(DecodePacket(st, a, ps), b, ps), c, ps)
  {
    assert [a, b, c] == [a] + [b, c];
    DecodeStep(st, a, [b, c], ps);
    DecodeTwo(DecodePacket(st, a, ps), b, c, ps);
  }

  /** Types that may come between a call and its backtrace, and types that part them. */
  ghost predicate KeepsCall(kind: nat) {
    kind in {ARGS, OCFG, FILE}
  }

  ghost predicate EndsCall(kind: nat) {
    kind in {MMAP, CTXR, RESR, PINF, MINF, HINF}
  }

  /**
   A backtrace belongs to the last call if only arguments, output settings or attachments came between; a
   packet that is none of the twelve known types ends decoding.
   */
  lemma TraceAttaches(st: Decoder, c: Traced, p: Bytes, frames: seq<nat>, ps: PointerSize)
    requires IsTraced(c, ps) && AreFrames(frames, ps) && !st.stopped && (st.open ==> st.calls != [])
    requires |EncodeCall(c, ps)| + HEADER < U32 && |EncodeFrames(frames, ps)| + HEADER < U32
    requires Decodable(p, ps) && KindOf(p) != CALL && KindOf(p) != BTRC
    ensures var packets := [Packet(CALL, EncodeCall(c, ps)), p, Packet(BTRC, EncodeFrames(frames, ps))];
            && AllDecodable(packets, ps)
            && var r, kind := DecodeAll(st, packets, ps), KindOf(p);
            && |r.calls| == |st.calls| + 1 && r.calls[|st.calls|].call == Received(c)
            && (r.calls[|st.calls|].frames == Some(frames) <==> KeepsCall(kind))
            && (r.stopped <==> !KeepsCall(kind) && !EndsCall(kind))
  {
    var a, b := Packet(CALL, EncodeCall(c, ps)), Packet(BTRC, EncodeFrames(frames, ps));
    CallPacketDecodes(st, c, ps);
    var begun := DecodePacket(st, a, ps);
    AfterCall(st.calls, begun.calls[|st.calls|], p, ps);
    var between := DecodePacket(begun, p, ps);
    TracePacketDecodes(st.calls, between.calls[|st.calls|], frames, ps);
    DecodeThree(st, a, p, b, ps);
  }

  /** What a packet between a call and its backtrace does. */
  lemma AfterCall(calls: seq<CallRecord>, rec: CallRecord, p: Bytes, ps: PointerSize)
    requires Decodable(p, ps) && KindOf(p) != CALL && KindOf(p) != BTRC && rec.frames == None
    ensures var r, kind := DecodePacket(Decoder(calls + [rec], true, false), p, ps), KindOf(p);
            && |r.calls| == |calls| + 1 && r.calls == calls + [r.calls[|calls|]]
            && r.calls[|calls|].call == rec.call && r.calls[|calls|].frames == None
            && (r.open <==> KeepsCall(kind))
            && (r.stopped <==> !KeepsCall(kind) && !EndsCall(kind))
  {
    assert (calls + [rec])[..|calls|] == calls;
  }
}
