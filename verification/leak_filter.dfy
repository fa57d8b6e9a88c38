/**
 Leak filtering: removes every deallocation and every allocation that was freed later. One pass over
 the calls keeps an index from resources to the allocation that currently holds them.
 */
module LeakFilter {
  import opened TraceTypes

  type Key = (Option<Resource>, nat)

  function KeyOf(c: Call): Key {
    (c.resource, c.resId)
  }

  predicate IsCounted(k: Key) {
    k.0.Some? && k.0.value.refCounted
  }

  datatype Entry = Entry(pos: nat, count: int)

  /** The calls still in the list, by their original position, and the resource index. */
  datatype State = State(kept: seq<nat>, index: map<Key, Entry>)

  ghost function Drop(s: seq<nat>, p: nat): seq<nat> {
    if s == [] then [] else if s[0] == p then Drop(s[1..], p) else [s[0]] + Drop(s[1..], p)
  }

  /** What the callback does with the `n`-th call. */
  ghost function Step(st: State, c: Call, n: nat): State {
    var k := KeyOf(c);
    match c.kind
    case Other => st.(kept := st.kept + [n])
    case Alloc =>
      if k in st.index && IsCounted(k) then
        st.(index := st.index[k := st.index[k].(count := st.index[k].count + 1)])
      else
        State(st.kept + [n], st.index[k := Entry(n, 1)])
    case Free =>
      if k !in st.index then st
      else
        var e := st.index[k];
        if e.count - 1 == 0 || !IsCounted(k) then State(Drop(st.kept, e.pos), st.index - {k})
        else st.(index := st.index[k := e.(count := e.count - 1)])
  }

  ghost function Run(s: seq<Call>): State {
    if s == [] then State([], map[])
    else Step(Run(s[..|s| - 1]), s[|s| - 1], |s| - 1)
  }

  // ---------------------------------------------------------------- what survives, without an index

  /** Two calls are about one resource: the same type, or none, and the same id. */
  ghost predicate SameResource(c: Call, d: Call) {
    c.resource == d.resource && c.resId == d.resId
  }

  /** The index tells resources apart just as the calls do. */
  lemma KeyIsResource(c: Call, d: Call)
    ensures KeyOf(c) == KeyOf(d) <==> SameResource(c, d)
  {
  }

  ghost predicate Counts(c: Call) {
    c.resource.Some? && c.resource.value.refCounted
  }

  /** The call allocates or frees the resource of this type and id. */
  ghost predicate Touches(c: Call, k: Key) {
    !c.kind.Other? && c.resource == k.0 && c.resId == k.1
  }

  /** The next call on the resource of call `i` frees it. */
  ghost predicate NextIsFree(s: seq<Call>, i: nat)
    requires i < |s|
  {
    exists j :: i < j < |s| && FreesNext(s, i, j)
  }

  ghost predicate FreesNext(s: seq<Call>, i: nat, j: nat)
    requires i < j < |s|
  {
    && s[j].kind.Free? && SameResource(s[j], s[i])
    && (forall m :: i < m < j ==> s[m].kind.Other? || !SameResource(s[m], s[i]))
  }

  /** The reference count that the calls in `s` leave on resource `k`. */
  ghost function OpenCount(s: seq<Call>, k: Key): nat {
    if s == [] then 0
    else
      var n := OpenCount(s[..|s| - 1], k);
      var c := s[|s| - 1];
      if !Touches(c, k) then n else if c.kind.Alloc? then n + 1 else if n > 0 then n - 1 else 0
  }

  /** Call `i` opened a reference count that never came back to zero. */
  ghost predicate OpenedForGood(s: seq<Call>, i: nat)
    requires i < |s|
  {
    var k := (s[i].resource, s[i].resId);
    OpenCount(s[..i], k) == 0 && forall j :: i < j <= |s| ==> OpenCount(s[..j], k) > 0
  }

  ghost predicate Survives(s: seq<Call>, i: nat)
    requires i < |s|
  {
    match s[i].kind
    case Other => true
    case Free => false
    case Alloc => if Counts(s[i]) then OpenedForGood(s, i) else !NextIsFree(s, i)
  }

  /** The positions below `n` that survive in `s`, in order. */
  ghost function Survivors(s: seq<Call>, n: nat): seq<nat>
    requires n <= |s|
  {
    if n == 0 then [] else Survivors(s, n - 1) + (if Survives(s, n - 1) then [n - 1] else [])
  }

  // ---------------------------------------------------------------- one more call

  ghost function Fates(s: seq<Call>, n: nat): (f: seq<bool>)
    requires n <= |s|
    ensures |f| == n && forall i :: 0 <= i < n ==> (f[i] <==> Survives(s, i))
  {
    seq(n, i requires 0 <= i < n => Survives(s, i))
  }

  ghost function Positions(fates: seq<bool>): seq<nat> {
    if fates == [] then []
    else
      var n := |fates| - 1;
      Positions(fates[..n]) + if fates[n] then [n] else []
  }

  lemma {:induction false} FatesDecide(s: seq<Call>, n: nat)
    requires n <= |s|
    ensures Survivors(s, n) == Positions(Fates(s, n))
  {
    if n > 0 {
      FatesDecide(s, n - 1);
      assert Fates(s, n)[..n - 1] == Fates(s, n - 1);
    }
  }

  lemma SurvivorsAgree(s: seq<Call>, r: seq<Call>, n: nat)
    requires n <= |s| && n <= |r|
    requires forall i :: 0 <= i < n ==> (Survives(s, i) <==> Survives(r, i))
    ensures Survivors(s, n) == Survivors(r, n)
  {
    FatesDecide(s, n);
    FatesDecide(r, n);
    assert Fates(s, n) == Fates(r, n);
  }

  lemma {:induction false} DropConcat(a: seq<nat>, b: seq<nat>, p: nat)
    ensures Drop(a + b, p) == Drop(a, p) + Drop(b, p)
  {
    if a == [] {
      assert a + b == b;
    } else {
      DropConcat(a[1..], b, p);
      FirstOfConcat(a, b);
      Regrouped([a[0]], Drop(a[1..], p), Drop(b, p));
    }
  }

  lemma {:induction false} PositionsLose(a: seq<bool>, b: seq<bool>, p: nat)
    requires |a| == |b| && forall i :: 0 <= i < |a| ==> (b[i] <==> a[i] && i != p)
    ensures Positions(b) == Drop(Positions(a), p)
    decreases |a|
  {
    if a == [] {
      assert b == [];
    } else {
      var n := |a| - 1;
      PositionsLose(a[..n], b[..n], p);
      DropConcat(Positions(a[..n]), if a[n] then [n] else [], p);
      assert Drop([n], p) == if n == p then [] else [n];
    }
  }

  /** Losing one survivor drops its position and nothing else. */
  lemma SurvivorsLose(s: seq<Call>, r: seq<Call>, p: nat, n: nat)
    requires n <= |s| && n <= |r|
    requires forall i :: 0 <= i < n ==> (Survives(r, i) <==> Survives(s, i) && i != p)
    ensures Survivors(r, n) == Drop(Survivors(s, n), p)
  {
    FatesDecide(s, n);
    FatesDecide(r, n);
    PositionsLose(Fates(s, n), Fates(r, n), p);
  }

  /** The last call in `s` that touches `k`, or -1. */
  ghost function LastTouch(s: seq<Call>, k: Key): (p: int)
    ensures -1 <= p < |s|
    ensures p >= 0 ==> Touches(s[p], k)
    ensures forall m :: p < m < |s| ==> !Touches(s[m], k)
  {
    if s == [] then -1
    else if Touches(s[|s| - 1], k) then |s| - 1
    else LastTouch(s[..|s| - 1], k)
  }

  lemma FreesNextExtends(s: seq<Call>, c: Call, i: nat)
    requires i < |s|
    ensures NextIsFree(s + [c], i)
       <==> NextIsFree(s, i) || (c.kind.Free? && KeyOf(c) == KeyOf(s[i]) && forall m :: i < m < |s| ==> !Touches(s[m], KeyOf(s[i])))
  {
    var r := s + [c];
    assert forall m :: 0 <= m < |s| ==> r[m] == s[m];
    if NextIsFree(s, i) {
      var j :| i < j < |s| && FreesNext(s, i, j);
      assert FreesNext(r, i, j);
    }
    if NextIsFree(r, i) {
      var j :| i < j < |r| && FreesNext(r, i, j);
      if j < |s| {
        assert FreesNext(s, i, j);
      } else {
        assert forall m :: i < m < |s| ==> !Touches(r[m], KeyOf(s[i]));
      }
    }
    if c.kind.Free? && KeyOf(c) == KeyOf(s[i]) && forall m :: i < m < |s| ==> !Touches(s[m], KeyOf(s[i])) {
      assert FreesNext(r, i, |s|);
    }
  }

  lemma OpenedExtends(s: seq<Call>, c: Call, i: nat)
    requires i < |s|
    ensures OpenedForGood(s + [c], i) <==> OpenedForGood(s, i) && OpenCount(s + [c], KeyOf(s[i])) > 0
  {
    var r, k := s + [c], KeyOf(s[i]);
    SamePrefixCount(s, c, k, i);
    if OpenedForGood(r, i) {
      assert OpenCount(r[..|r|], k) > 0;
      assert r[..|r|] == r;
      forall j | i < j <= |s| ensures OpenCount(s[..j], k) > 0 {
        SamePrefixCount(s, c, k, j);
      }
    }
    if OpenedForGood(s, i) && OpenCount(r, k) > 0 {
      forall j | i < j <= |r| ensures OpenCount(r[..j], k) > 0 {
        if j <= |s| {
          SamePrefixCount(s, c, k, j);
        } else {
          assert r[..j] == r;
        }
      }
    }
  }

  lemma SamePrefixCount(s: seq<Call>, c: Call, k: Key, j: nat)
    requires j <= |s|
    ensures OpenCount((s + [c])[..j], k) == OpenCount(s[..j], k)
  {
    assert (s + [c])[..j] == s[..j];
  }

  lemma OpenCountStep(s: seq<Call>, c: Call, k: Key)
    ensures OpenCount(s + [c], k)
         == if !Touches(c, k) then OpenCount(s, k)
            else if c.kind.Alloc? then OpenCount(s, k) + 1
            else if OpenCount(s, k) > 0 then OpenCount(s, k) - 1 else 0
  {
    assert (s + [c])[..|s|] == s;
  }

  /** How one more call changes the fate of an earlier one. */
  lemma SurvivesStep(s: seq<Call>, c: Call, i: nat)
    requires i < |s|
    ensures var k := KeyOf(s[i]);
            Survives(s + [c], i) <==>
              && Survives(s, i)
              && !(s[i].kind.Alloc? && Touches(c, k) && c.kind.Free?
                   && (if IsCounted(k) then OpenCount(s, k) <= 1 else LastTouch(s, k) == i))
  {
    var k := KeyOf(s[i]);
    assert (s + [c])[i] == s[i];
    if s[i].kind.Alloc? {
      if IsCounted(k) {
        OpenedExtends(s, c, i);
        OpenCountStep(s, c, k);
        assert OpenedForGood(s, i) ==> OpenCount(s[..|s|], k) > 0;
        assert s[..|s|] == s;
      } else {
        FreesNextExtends(s, c, i);
        assert Touches(s[i], k);
      }
    }
  }

  // ---------------------------------------------------------------- the index

  /** Where the index must point for `k`: the allocation that would go with the next free. */
  ghost predicate Holds(s: seq<Call>, k: Key, p: nat) {
    && p < |s| && s[p].kind.Alloc? && KeyOf(s[p]) == k
    && (if IsCounted(k) then OpenedForGood(s, p) else LastTouch(s, k) == p)
  }

  ghost predicate IndexExact(s: seq<Call>, index: map<Key, Entry>) {
    forall k :: ExactFor(s, index, k)
  }

  ghost predicate IsHeld(s: seq<Call>, k: Key) {
    if IsCounted(k) then OpenCount(s, k) > 0
    else LastTouch(s, k) >= 0 && s[LastTouch(s, k)].kind.Alloc?
  }

  lemma UniqueHolder(s: seq<Call>, k: Key, p: nat, q: nat)
    requires Holds(s, k, p) && Holds(s, k, q)
    ensures p == q
  {
  }

  lemma LastTouchStep(s: seq<Call>, c: Call, k: Key)
    ensures LastTouch(s + [c], k) == if Touches(c, k) then |s| else LastTouch(s, k)
  {
    assert (s + [c])[..|s|] == s;
  }

  /** The call frees its resource for good, so that the indexed allocation goes. */
  ghost predicate Releases(c: Call, index: map<Key, Entry>) {
    var k := KeyOf(c);
    c.kind.Free? && k in index && (index[k].count == 1 || !IsCounted(k))
  }

  /** The survivors after one more call. */
  lemma KeptStep(s: seq<Call>, c: Call, st: State)
    requires ExactFor(s, st.index, KeyOf(c)) && st.kept == Survivors(s, |s|)
    ensures Step(st, c, |s|).kept == Survivors(s + [c], |s| + 1)
  {
    NewcomerKept(s, c, st);
    EarlierKept(s, c, st);
    LastSurvivor(s + [c], |s|);
    StepKeeps(st, c, |s|);
  }

  lemma LastSurvivor(s: seq<Call>, n: nat)
    requires n < |s|
    ensures Survivors(s, n + 1) == if Survives(s, n) then Survivors(s, n) + [n] else Survivors(s, n)
  {
  }

  /** What a step does to the calls kept: the released one goes, the new one comes if it stays. */
  lemma StepKeeps(st: State, c: Call, n: nat)
    ensures var earlier := if Releases(c, st.index) then Drop(st.kept, st.index[KeyOf(c)].pos) else st.kept;
            Step(st, c, n).kept
            == if c.kind.Other? || (c.kind.Alloc? && !(KeyOf(c) in st.index && IsCounted(KeyOf(c)))) then earlier + [n] else earlier
  {
  }

  lemma NewcomerKept(s: seq<Call>, c: Call, st: State)
    requires ExactFor(s, st.index, KeyOf(c))
    ensures Survives(s + [c], |s|)
       <==> c.kind.Other? || (c.kind.Alloc? && !(KeyOf(c) in st.index && IsCounted(KeyOf(c))))
  {
    NewcomerSurvives(s, c);
    if KeyOf(c) in st.index { HolderIsHeld(s, KeyOf(c), st.index[KeyOf(c)].pos); }
  }

  lemma EarlierKept(s: seq<Call>, c: Call, st: State)
    requires ExactFor(s, st.index, KeyOf(c)) && st.kept == Survivors(s, |s|)
    ensures Survivors(s + [c], |s|)
         == if Releases(c, st.index) then Drop(st.kept, st.index[KeyOf(c)].pos) else st.kept
  {
    forall i | 0 <= i < |s|
      ensures Survives(s + [c], i) <==> Survives(s, i) && !(Releases(c, st.index) && i == st.index[KeyOf(c)].pos)
    {
      FateStep(s, c, st.index, i);
    }
    if Releases(c, st.index) {
      SurvivorsLose(s, s + [c], st.index[KeyOf(c)].pos, |s|);
    } else {
      SurvivorsAgree(s, s + [c], |s|);
    }
  }

  /** One more call takes away the indexed allocation when it releases the resource, and no other. */
  lemma FateStep(s: seq<Call>, c: Call, index: map<Key, Entry>, i: nat)
    requires i < |s| && ExactFor(s, index, KeyOf(c))
    ensures Survives(s + [c], i) <==> Survives(s, i) && !(Releases(c, index) && i == index[KeyOf(c)].pos)
  {
    var k := KeyOf(c);
    SurvivesStep(s, c, i);
    if c.kind.Free? && s[i].kind.Alloc? && KeyOf(s[i]) == k && Survives(s, i) {
      FateOf(s, k, index, i);
    }
    if k in index {
      HolderIsHeld(s, k, index[k].pos);
    }
  }

  /** A surviving allocation of a counted resource, or a plain one that was touched last, is indexed. */
  lemma FateOf(s: seq<Call>, k: Key, index: map<Key, Entry>, i: nat)
    requires i < |s| && ExactFor(s, index, k)
    requires s[i].kind.Alloc? && KeyOf(s[i]) == k && Survives(s, i)
    ensures IsCounted(k) || LastTouch(s, k) == i ==> k in index && index[k].pos == i
  {
    if IsCounted(k) || LastTouch(s, k) == i {
      assert Holds(s, k, i);
      HolderIsHeld(s, k, i);
      UniqueHolder(s, k, i, index[k].pos);
    }
  }

  lemma HolderIsHeld(s: seq<Call>, k: Key, i: nat)
    requires Holds(s, k, i)
    ensures IsHeld(s, k)
  {
    if IsCounted(k) {
      assert OpenCount(s[..|s|], k) > 0;
      assert s[..|s|] == s;
    }
  }

  lemma NewcomerSurvives(s: seq<Call>, c: Call)
    ensures Survives(s + [c], |s|)
       <==> c.kind.Other? || (c.kind.Alloc? && !(IsCounted(KeyOf(c)) && OpenCount(s, KeyOf(c)) > 0))
  {
    if c.kind.Alloc? {
      if Counts(c) { NewcomerOpens(s, c); } else { assert !NextIsFree(s + [c], |s|); }
    }
  }

  lemma NewcomerOpens(s: seq<Call>, c: Call)
    requires c.kind.Alloc?
    ensures OpenedForGood(s + [c], |s|) <==> OpenCount(s, KeyOf(c)) == 0
  {
    var r := s + [c];
    assert r[..|s|] == s && r[..|r|] == r;
    OpenCountStep(s, c, KeyOf(c));
  }

  /** The index after one more call. */
  lemma IndexStep(s: seq<Call>, c: Call, st: State)
    requires IndexExact(s, st.index)
    ensures IndexExact(s + [c], Step(st, c, |s|).index)
  {
    forall k ensures ExactFor(s + [c], Step(st, c, |s|).index, k) {
      assert ExactFor(s, st.index, k);
      KeyStep(s, c, st, k);
    }
  }

  /** `index` is right about `k` after the calls in `s`. */
  ghost predicate ExactFor(s: seq<Call>, index: map<Key, Entry>, k: Key) {
    if k in index then Holds(s, k, index[k].pos) && index[k].count == if IsCounted(k) then OpenCount(s, k) else 1
    else !IsHeld(s, k)
  }

  lemma KeyStep(s: seq<Call>, c: Call, st: State, k: Key)
    requires ExactFor(s, st.index, k)
    ensures ExactFor(s + [c], Step(st, c, |s|).index, k)
  {
    OpenCountStep(s, c, k);
    LastTouchStep(s, c, k);
    if Touches(c, k) {
      TouchedStep(s, c, st);
    } else {
      UntouchedStep(s, c, st, k);
    }
  }

  lemma UntouchedStep(s: seq<Call>, c: Call, st: State, k: Key)
    requires !Touches(c, k) && ExactFor(s, st.index, k)
    requires OpenCount(s + [c], k) == OpenCount(s, k) && LastTouch(s + [c], k) == LastTouch(s, k)
    ensures ExactFor(s + [c], Step(st, c, |s|).index, k)
  {
    OtherEntries(st, c, |s|, k);
    if k in st.index {
      OpenedExtends(s, c, st.index[k].pos);
      HolderIsHeld(s, k, st.index[k].pos);
    }
  }

  lemma OtherEntries(st: State, c: Call, n: nat, k: Key)
    requires !Touches(c, k)
    ensures var index := Step(st, c, n).index; (k in index <==> k in st.index) && (k in index ==> index[k] == st.index[k])
  {
  }

  lemma TouchedStep(s: seq<Call>, c: Call, st: State)
    requires !c.kind.Other? && ExactFor(s, st.index, KeyOf(c))
    ensures ExactFor(s + [c], Step(st, c, |s|).index, KeyOf(c))
  {
    var r, k, index := s + [c], KeyOf(c), Step(st, c, |s|).index;
    OpenCountStep(s, c, k);
    LastTouchStep(s, c, k);
    if k in st.index {
      OpenedExtends(s, c, st.index[k].pos);
      HolderIsHeld(s, k, st.index[k].pos);
    }
    if c.kind.Alloc? && !(k in st.index && IsCounted(k)) {
      NewcomerSurvives(s, c);
      assert Holds(r, k, |s|);
    }
  }

  /** The one-pass filter with its index keeps exactly the calls that survive, in their order. */
  lemma {:induction false} RunExact(s: seq<Call>)
    ensures Run(s).kept == Survivors(s, |s|)
    ensures IndexExact(s, Run(s).index)
  {
    if s != [] {
      var t, c := s[..|s| - 1], s[|s| - 1];
      RunExact(t);
      assert ExactFor(t, Run(t).index, KeyOf(c));
      KeptStep(t, c, Run(t));
      IndexStep(t, c, Run(t));
      assert s == t + [c];
    }
  }

  // ---------------------------------------------------------------- filtering twice

  ghost function Pick(s: seq<Call>, kept: seq<nat>): seq<Call>
    requires forall i :: 0 <= i < |kept| ==> kept[i] < |s|
  {
    seq(|kept|, i requires 0 <= i < |kept| => s[kept[i]])
  }

  lemma {:induction false} SurvivorsAscend(s: seq<Call>, n: nat)
    requires n <= |s|
    ensures forall i :: 0 <= i < |Survivors(s, n)| ==> Survivors(s, n)[i] < n && Survives(s, Survivors(s, n)[i])
    ensures forall i, j :: 0 <= i < j < |Survivors(s, n)| ==> Survivors(s, n)[i] < Survivors(s, n)[j]
  {
    if n > 0 { SurvivorsAscend(s, n - 1); }
  }

  lemma {:induction false} AllSurvive(s: seq<Call>, n: nat)
    requires n <= |s| && forall i :: 0 <= i < n ==> Survives(s, i)
    ensures Survivors(s, n) == seq(n, i => i)
  {
    if n > 0 {
      AllSurvive(s, n - 1);
      assert seq(n - 1, i => i) + [n - 1] == seq(n, i => i);
    }
  }

  /** The calls the filter leaves in the list. */
  ghost function Leaks(s: seq<Call>): seq<Call> {
    SurvivorsAscend(s, |s|);
    Pick(s, Survivors(s, |s|))
  }

  lemma {:induction false} NoFreesNoLoss(r: seq<Call>, k: Key, i: nat)
    requires i <= |r| && forall j :: 0 <= j < |r| ==> !r[j].kind.Free?
    requires exists j :: 0 <= j < i && Touches(r[j], k)
    ensures OpenCount(r[..i], k) > 0
  {
    assert r[..i][..i - 1] == r[..i - 1];
    if !Touches(r[i - 1], k) { NoFreesNoLoss(r, k, i - 1); }
  }

  lemma {:induction false} NoTouchNoCount(r: seq<Call>, k: Key, i: nat)
    requires i <= |r| && forall j :: 0 <= j < i ==> !Touches(r[j], k)
    ensures OpenCount(r[..i], k) == 0
  {
    if i > 0 {
      assert r[..i][..i - 1] == r[..i - 1];
      NoTouchNoCount(r, k, i - 1);
    }
  }

  /** Nothing that the filter left would go in a second pass. */
  lemma LeakStays(s: seq<Call>, i: nat)
    requires i < |Leaks(s)|
    ensures Survives(Leaks(s), i)
  {
    var r, kept := Leaks(s), Survivors(s, |s|);
    SurvivorsAscend(s, |s|);
    var k := KeyOf(r[i]);
    assert forall j :: 0 <= j < |r| ==> r[j] == s[kept[j]] && Survives(s, kept[j]) && !r[j].kind.Free?;
    if r[i].kind.Alloc? && IsCounted(k) {
      forall j | 0 <= j < i ensures !Touches(r[j], k) {
        var p, q := kept[j], kept[i];
        assert p < q;
        if Touches(r[j], k) { UniqueHolder(s, k, p, q); }
      }
      NoTouchNoCount(r, k, i);
      forall j | i < j <= |r| ensures OpenCount(r[..j], k) > 0 {
        assert Touches(r[i], k);
        NoFreesNoLoss(r, k, j);
      }
    }
  }

  /** Filtering a filtered list changes nothing. */
  lemma FilterIdempotent(s: seq<Call>)
    ensures Leaks(Leaks(s)) == Leaks(s)
  {
    var r := Leaks(s);
    forall i | 0 <= i < |r| ensures Survives(r, i) {
      LeakStays(s, i);
    }
    AllSurvive(r, |r|);
  }
}
