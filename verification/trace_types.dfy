/** Records of the resource trace that several components share. */
module TraceTypes {

  datatype Option<+T> = None | Some(value: T)

  /** A call allocates a resource, frees one, or carries a type that is neither. */
  datatype CallKind = Alloc | Free | Other

  /** A registered resource type; the registry holds one record per id. */
  datatype Resource = Resource(id: nat, refCounted: bool)

  /** A function call record: `resource` is absent when the log names no resource type. */
  datatype Call = Call(index: int, kind: CallKind, context: nat, timestamp: nat, name: string,
                       resource: Option<Resource>, resId: nat, resSize: int)

  /** A function argument, as text. */
  datatype Arg = Arg(name: string, value: string)

  /** The low 32 bits of a number, as a signed integer. */
  function Signed32(x: int): int {
    var u := x % 0x1_0000_0000;
    if u < 0x8000_0000 then u else u - 0x1_0000_0000
  }

  predicate IsInt32(x: int) {
    -0x8000_0000 <= x < 0x8000_0000
  }

  predicate SameSign(x: int, y: int) {
    (x < 0 <==> y < 0) && (x > 0 <==> y > 0)
  }

  /** The low 32 bits of a number, read as signed, have the sign of the number. */
  predicate LowBitsAgree(d: int) {
    var u := d % 0x1_0000_0000;
    d == 0 || (d > 0 && 0 < u < 0x8000_0000) || (d < 0 && u >= 0x8000_0000)
  }

  /** Cutting a number keeps its sign if and only if the low bits agree with it, whatever its size. */
  lemma SignKeptExactly(d: int)
    ensures SameSign(Signed32(d), d) <==> LowBitsAgree(d)
  {
  }

  /** A difference of 32-bit numbers keeps its sign if and only if it is a 32-bit integer itself. */
  lemma SignKept(d: int)
    requires -0x1_0000_0000 < d < 0x1_0000_0000
    ensures SameSign(Signed32(d), d) <==> IsInt32(d)
    ensures IsInt32(d) ==> Signed32(d) == d
  {
    assert d >= 0x8000_0000 ==> Signed32(d) == d - 0x1_0000_0000;
    assert d < -0x8000_0000 ==> Signed32(d) == d + 0x1_0000_0000;
  }

  /** It does not matter whether the numbers are cut before they are subtracted. */
  lemma Signed32Difference(a: int, b: int)
    ensures Signed32(Signed32(a) - Signed32(b)) == Signed32(a - b)
  {
    var j := CutAway(a);
    var k := CutAway(b);
    Signed32Shift(Signed32(a) - Signed32(b), j - k);
  }

  /** How many times 2^32 the cut takes away. */
  lemma CutAway(x: int) returns (k: int)
    ensures x == Signed32(x) + k * 0x1_0000_0000
  {
    k := x / 0x1_0000_0000 + if x % 0x1_0000_0000 < 0x8000_0000 then 0 else 1;
  }

  lemma Signed32Shift(x: int, k: int)
    ensures Signed32(x + k * 0x1_0000_0000) == Signed32(x)
  {
    LowBitsShift(x, k);
  }

  lemma LowBitsShift(x: int, k: int)
    ensures (x + k * 0x1_0000_0000) % 0x1_0000_0000 == x % 0x1_0000_0000
  {
  }

  // ---------------------------------------------------------------- sequences put together

  lemma Regrouped<X>(a: seq<X>, b: seq<X>, c: seq<X>)
    ensures a + (b + c) == a + b + c
  {
  }

  lemma FirstOfConcat<X>(a: seq<X>, b: seq<X>)
    requires a != []
    ensures (a + b)[0] == a[0] && (a + b)[1..] == a[1..] + b
  {
  }

  lemma RestOfRest<X>(s: seq<X>, i: nat)
    requires i < |s|
    ensures s[i..][1..] == s[i + 1..] && s[i..][0] == s[i]
  {
  }

  /** Lists one after the other. */
  ghost function Flatten<X>(lists: seq<seq<X>>): seq<X> {
    if lists == [] then [] else lists[0] + Flatten(lists[1..])
  }
}
