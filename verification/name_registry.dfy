/**
 The registry of the shared memory module: a name gets its hash for an id, or the next number that no
 other name has.
 */
module NameRegistry {

  const U32: nat := 0x1_0000_0000

  type Name = seq<bv8>

  /** A character is added with its sign. */
  function Widened(c: bv8): bv32 {
    if c < 0x80 then c as bv32 else 0xffff_ff00 | c as bv32
  }

  function Mixed(sum: bv32): bv32 {
    var a := sum + (sum << 10);
    a ^ (a >> 6)
  }

  function Step(hash: bv32, c: bv8): bv32 {
    Mixed(hash + Widened(c))
  }

  function Rounds(name: Name, n: nat): bv32
    requires n <= |name|
  {
    if n == 0 then 0 else Step(Rounds(name, n - 1), name[n - 1])
  }

  function Final(hash: bv32): bv32 {
    var a := hash + (hash << 3);
    var b := a ^ (a >> 11);
    b + (b << 15)
  }

  /** A character above 0x7f counts as a negative number. */
  lemma CharacterIsSigned(c: bv8)
    ensures Widened(c) == if c < 0x80 then c as bv32 else (c as bv32) - 0x100
  {
  }

  /** All arithmetic of a round is modulo 2^32. */
  lemma RoundArithmetic(sum: bv32)
    ensures var grown := sum + 1024 * sum;
            Mixed(sum) == grown ^ (grown / 64)
  {
  }

  lemma FinalArithmetic(hash: bv32)
    ensures var sum := hash + 8 * hash;
            var mixed := sum ^ (sum / 2048);
            Final(hash) == mixed + 32768 * mixed
  {
  }

  /** The hashes of no character, of `a`, and of a character above 0x7f. */
  lemma ShortNames()
    ensures RawHash([]) == 0 && RawHash([0x61]) == 0xca2e_9442 && RawHash([0xe9]) == 0x4098_48ff
  {
    assert Rounds([0x61], 1) == Step(Rounds([0x61], 0), 0x61);
    assert Rounds([0xe9], 1) == Step(Rounds([0xe9], 0), 0xe9);
  }

  function RawHash(name: Name): (h: nat)
    ensures h < U32
  {
    Final(Rounds(name, |name|)) as nat
  }

  method CalcRawHash(name: Name) returns (h: nat)
    ensures h == RawHash(name)
  {
    var hash: bv32 := 0;
    for i := 0 to |name|
      invariant hash == Rounds(name, i)
    {
      hash := Step(hash, name[i]);
    }
    h := Final(hash) as nat;
  }

  // ---------------------------------------------------------------- probing

  function Next(h: nat): nat {
    (h + 1) % U32
  }

  /** The first number from `h` on, wrapping around, that is not taken. */
  function Probe(taken: set<nat>, h: nat): nat
    decreases |taken|
  {
    if h !in taken then h else Probe(taken - {h}, Next(h))
  }

  /** The `k`-th number behind `h`. */
  ghost function At(h: nat, k: nat): nat {
    (h + k) % U32
  }

  /** The `k` numbers from `h` on. */
  ghost function Window(h: nat, k: nat): set<nat> {
    if k == 0 then {} else Window(h, k - 1) + {At(h, k - 1)}
  }

  lemma OtherRemainder(h: nat, j: nat, k: nat)
    requires j < k < j + U32
    ensures At(h, j) != At(h, k)
  {
    var a, b := (h + j) / U32, (h + k) / U32;
    assert h + j == U32 * a + (h + j) % U32 && h + k == U32 * b + (h + k) % U32;
  }

  lemma {:induction false} NextOutside(h: nat, m: nat, k: nat)
    requires m <= k < U32
    ensures At(h, k) !in Window(h, m)
  {
    if m > 0 {
      NextOutside(h, m - 1, k);
      OtherRemainder(h, m - 1, k);
    }
  }

  lemma {:induction false} WindowSize(h: nat, k: nat)
    requires k <= U32
    ensures |Window(h, k)| == k
  {
    if k > 0 {
      WindowSize(h, k - 1);
      NextOutside(h, k - 1, k - 1);
    }
  }

  /** All numbers below 2^32. */
  lemma {:induction false} InWindow(x: nat, k: nat)
    requires x < k <= U32
    ensures x in Window(0, k)
  {
    if x < k - 1 { InWindow(x, k - 1); }
  }

  lemma {:induction false} SubsetSize<X>(a: set<X>, b: set<X>)
    requires a <= b
    ensures |a| <= |b|
  {
    if a != {} {
      var x :| x in a;
      SubsetSize(a - {x}, b - {x});
    }
  }

  /** One more taken number passed. */
  lemma ProbeStep(taken: set<nat>, h: nat, k: nat)
    requires Window(h, k) <= taken && |taken| < U32 && k < U32 && At(h, k) in taken
    ensures Window(h, k + 1) <= taken && k + 1 < U32 && Next(At(h, k)) == At(h, k + 1)
    ensures Probe(taken - Window(h, k), At(h, k)) == Probe(taken - Window(h, k + 1), At(h, k + 1))
  {
    NextOutside(h, k, k);
    NextIs(h, k);
    WindowSize(h, k + 1);
    SubsetSize(Window(h, k + 1), taken);
    assert taken - Window(h, k) - {At(h, k)} == taken - Window(h, k + 1);
  }

  lemma NextIs(h: nat, k: nat)
    ensures Next(At(h, k)) == At(h, k + 1)
  {
    var q, r := (h + k) / U32, (h + k) % U32;
    assert h + k + 1 == U32 * q + (r + 1);
  }

  /** While numbers are left, a probe that has passed `k` taken ones ends on a free one. */
  lemma {:induction false} ProbeFromWindow(taken: set<nat>, h: nat, k: nat)
    requires Window(h, k) <= taken && |taken| < U32 && k < U32
    ensures var r := Probe(taken - Window(h, k), At(h, k)); r !in taken && r < U32
    decreases U32 - k
  {
    if At(h, k) in taken {
      ProbeStep(taken, h, k);
      ProbeFromWindow(taken, h, k + 1);
    }
  }

  lemma ProbeBegins(taken: set<nat>, h: nat)
    requires h < U32
    ensures Window(h, 0) <= taken && At(h, 0) == h && Probe(taken - Window(h, 0), At(h, 0)) == Probe(taken, h)
  {
    assert taken - Window(h, 0) == taken;
  }

  /** The probe ends on a free number. */
  lemma ProbeFree(taken: set<nat>, h: nat)
    requires |taken| < U32 && h < U32
    ensures Probe(taken, h) !in taken && Probe(taken, h) < U32
  {
    ProbeBegins(taken, h);
    ProbeFromWindow(taken, h, 0);
  }

  /** There is a free number if and only if fewer than 2^32 are taken: with all taken, no probe would end. */
  lemma FreeLeft(taken: set<nat>)
    requires forall x :: x in taken ==> x < U32
    ensures (exists x: nat :: x < U32 && x !in taken) <==> |taken| < U32
  {
    if |taken| < U32 {
      ProbeFree(taken, 0);
    } else {
      forall x: nat | x < U32 && x !in taken ensures false {
        NotAllTaken(taken, x);
      }
    }
  }

  lemma NotAllTaken(taken: set<nat>, x: nat)
    requires x < U32 && x !in taken && forall y :: y in taken ==> y < U32
    ensures |taken| < U32
  {
    WindowSize(0, U32);
    InWindow(x, U32);
    forall y | y in taken ensures y in Window(0, U32) - {x} {
      InWindow(y, U32);
    }
    SubsetSize(taken, Window(0, U32) - {x});
  }

  // ---------------------------------------------------------------- histories

  /** The registry after a sequence of requests. */
  ghost function After(requests: seq<Name>): map<Name, nat> {
    if requests == [] then map[] else
      var n := |requests| - 1;
      Registered(After(requests[..n]), requests[n])
  }

  function Registered(ids: map<Name, nat>, name: Name): map<Name, nat> {
    if name in ids then ids else ids[name := Probe(ids.Values, RawHash(name))]
  }

  ghost predicate Injective(ids: map<Name, nat>) {
    && (forall a :: a in ids ==> ids[a] < U32)
    && (forall a, b :: a in ids && b in ids && a != b ==> ids[a] != ids[b])
  }

  lemma RegisteredInjective(ids: map<Name, nat>, name: Name)
    requires Injective(ids) && (name in ids || |ids| < U32)
    ensures Injective(Registered(ids, name))
  {
    if name !in ids {
      ValuesSize(ids);
      ProbeFree(ids.Values, RawHash(name));
    }
  }

  lemma {:induction false} ValuesSize(ids: map<Name, nat>)
    ensures |ids.Values| <= |ids|
  {
    if ids == map[] {
      assert ids.Values == {};
    } else {
      var a :| a in ids;
      var rest := ids - {a};
      ValuesSize(rest);
      forall v | v in ids.Values ensures v in rest.Values + {ids[a]} {
        var n :| n in ids && ids[n] == v;
        assert n != a ==> n in rest && rest[n] == v;
      }
      SubsetSize(ids.Values, rest.Values + {ids[a]});
    }
  }

  /** Distinct names have distinct ids in every history of at most 2^32 names. */
  lemma {:induction false} DistinctIds(requests: seq<Name>)
    requires |set n | n in requests| <= U32
    ensures Injective(After(requests)) && After(requests).Keys == set n | n in requests
  {
    if requests != [] {
      var n := |requests| - 1;
      var front, name := requests[..n], requests[n];
      NamesGrow(requests);
      DistinctIds(front);
      assert |After(front)| == |After(front).Keys|;
      RegisteredInjective(After(front), name);
    }
  }

  /** One more request brings one more name, or none. */
  lemma NamesGrow(requests: seq<Name>)
    requires requests != []
    ensures var n := |requests| - 1;
            var all, before := set x | x in requests, set x | x in requests[..n];
            all == before + {requests[n]} && |before| <= |all| && (requests[n] !in before ==> |all| == |before| + 1)
  {
    var n := |requests| - 1;
    var all, before := set x | x in requests, set x | x in requests[..n];
    assert requests == requests[..n] + [requests[n]];
    assert all == before + {requests[n]};
    SubsetSize(before, all);
  }

  /** A name keeps its first id in every longer history. */
  lemma {:induction false} IdStays(requests: seq<Name>, i: nat, name: Name)
    requires i <= |requests| && name in After(requests[..i])
    ensures name in After(requests) && After(requests)[name] == After(requests[..i])[name]
  {
    if i == |requests| {
      assert requests[..i] == requests;
    } else {
      var n := |requests| - 1;
      assert requests[..n][..i] == requests[..i];
      IdStays(requests[..n], i, name);
    }
  }

  class Registry {
    var ids: map<Name, nat>
    ghost var requests: seq<Name>

    ghost predicate Valid()
      reads this
    {
      Injective(ids) && ids == After(requests)
    }

    constructor ()
      ensures Valid() && ids == map[] && requests == []
    {
      ids, requests := map[], [];
    }

    /** Looks at every id in turn. */
    method HashExists(hash: nat) returns (taken: bool)
      ensures taken <==> hash in ids.Values
    {
      taken := false;
      var names := ids.Keys;
      while names != {}
        invariant names <= ids.Keys
        invariant taken <==> exists n :: n in ids.Keys - names && ids[n] == hash
        decreases |names|
      {
        var n :| n in names;
        if ids[n] == hash {
          taken := true;
        }
        names := names - {n};
      }
    }

    /** Counts up from the hash of the name, around the end, to a number that is free. */
    method CalcHash(name: Name) returns (hash: nat)
      requires Injective(ids) && |ids| < U32
      ensures hash == Probe(ids.Values, RawHash(name)) && hash !in ids.Values
    {
      hash := CalcRawHash(name);
      ghost var raw, k, values := hash, 0, ids.Values;
      ValuesSize(ids);
      ProbeFree(values, raw);
      ProbeBegins(values, raw);
      var taken := HashExists(hash);
      while taken
        invariant k < U32 && hash == At(raw, k) && (taken <==> hash in values) && Window(raw, k) <= values
        invariant Probe(values - Window(raw, k), hash) == Probe(values, raw)
        decreases U32 - k
      {
        ProbeStep(values, raw, k);
        hash := Next(hash);
        k := k + 1;
        taken := HashExists(hash);
      }
    }

    /** The id of a name; a new name is added. */
    method GetHash(name: Name) returns (hash: nat)
      requires Valid() && (name in ids || |ids| < U32)
      modifies this
      ensures Valid() && requests == old(requests) + [name] && ids == Registered(old(ids), name)
      ensures name in ids && hash == ids[name]
    {
      assert (requests + [name])[..|requests|] == requests;
      RegisteredInjective(ids, name);
      if name !in ids {
        var id := CalcHash(name);
        ids := ids[name := id];
      }
      requests := requests + [name];
      hash := ids[name];
    }
  }
}
