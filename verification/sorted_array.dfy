/**
 The sorted array of the resolver: memory mappings are inserted in place by their start address, and an
 address is looked up by binary search with a comparison that takes "inside" for "equal".
 */
module SortedArray {
  import opened TraceTypes

  const HALF: int := 0x8000_0000_0000_0000

  type Address = x: int | 0 <= x < 2 * HALF

  datatype Range = Range(from: Address, to: Address)

  /** A difference of addresses, cut to a signed 64-bit number. */
  function Signed(x: int): int {
    if x >= HALF then x - 2 * HALF else if x < -HALF then x + 2 * HALF else x
  }

  predicate Contains(r: Range, addr: Address) {
    r.from <= addr <= r.to
  }

  /** Only the start of the first range takes part. */
  function Compare(addr: Address, r: Range): int {
    if Contains(r, addr) then 0 else Signed(addr - r.from)
  }

  predicate Fitting(addr: Address, r: Range) {
    -HALF <= addr - r.from < HALF
  }

  /** The sign of a comparison is right if and only if the difference is a signed 64-bit number. */
  lemma CompareSign(addr: Address, r: Range)
    requires !(r.from <= addr <= r.to)
    ensures (Compare(addr, r) < 0 <==> addr < r.from) <==> Fitting(addr, r)
    ensures r.from <= r.to ==> Compare(addr, r) != 0
  {
  }

  /** An address too far above a range compares below it. */
  lemma FarAddress()
    ensures Compare(HALF + 5, Range(0, 1)) < 0 && !Fitting(HALF + 5, Range(0, 1))
  {
  }

  ghost predicate AllFitting(s: seq<Range>, addr: Address) {
    forall i :: 0 <= i < |s| ==> Fitting(addr, s[i])
  }

  /** In address order; neighbours may share an end point. */
  ghost predicate Chain(s: seq<Range>) {
    && (forall i :: 0 <= i < |s| ==> s[i].from <= s[i].to)
    && (forall i, j :: 0 <= i < j < |s| ==> s[i].to <= s[j].from)
  }

  // ---------------------------------------------------------------- insertion

  /** Where a range goes among the first `n`: behind the last one it does not compare below. */
  function Place(s: seq<Range>, n: nat, item: Range): (k: nat)
    requires n <= |s|
    ensures k <= n
  {
    if n == 0 || Compare(item.from, s[n - 1]) >= 0 then n else Place(s, n - 1, item)
  }

  lemma {:induction false} PlaceFound(s: seq<Range>, n: nat, item: Range)
    requires n <= |s|
    ensures forall j :: Place(s, n, item) <= j < n ==> Compare(item.from, s[j]) < 0
    ensures Place(s, n, item) > 0 ==> Compare(item.from, s[Place(s, n, item) - 1]) >= 0
  {
    if n > 0 && Compare(item.from, s[n - 1]) < 0 { PlaceFound(s, n - 1, item); }
  }

  function Insert(s: seq<Range>, item: Range): seq<Range> {
    var k := Place(s, |s|, item);
    s[..k] + [item] + s[k..]
  }

  lemma InsertKeeps(s: seq<Range>, item: Range)
    ensures multiset(Insert(s, item)) == multiset(s) + multiset{item}
  {
    var k := Place(s, |s|, item);
    assert s == s[..k] + s[k..];
  }

  /** A range that begins behind another or at its end, or that begins and ends before it. */
  predicate Beside(item: Range, r: Range) {
    r.to <= item.from || (item.from < r.from && item.to <= r.from)
  }

  ghost predicate BesideAll(s: seq<Range>, item: Range) {
    forall i :: 0 <= i < |s| ==> Beside(item, s[i])
  }

  /** The `j`-th range is the last that does not begin above an address. */
  ghost predicate LastBelow(s: seq<Range>, addr: Address, j: nat) {
    j < |s| && s[j].from <= addr && (j + 1 < |s| ==> addr < s[j + 1].from)
  }

  /**
   The comparisons that decide the place are right: with every range that begins above the address, and with
   the last one below unless that contains it.
   */
  ghost predicate PlacedRight(s: seq<Range>, addr: Address) {
    && (forall j :: 0 <= j < |s| && addr < s[j].from ==> Fitting(addr, s[j]))
    && (forall j: nat :: LastBelow(s, addr, j) ==> s[j].from <= addr <= s[j].to || Fitting(addr, s[j]))
  }

  /** The array stays in order if and only if the new range lies beside every other and is placed right. */
  lemma InsertChain(s: seq<Range>, item: Range)
    requires Chain(s) && item.from <= item.to
    ensures Chain(Insert(s, item)) <==> BesideAll(s, item) && PlacedRight(s, item.from)
  {
    if BesideAll(s, item) && PlacedRight(s, item.from) {
      InsertInOrder(s, item);
    }
    if Chain(Insert(s, item)) {
      OrderShowsBeside(s, item);
      OrderShowsPlaced(s, item);
    }
  }

  /** The ranges before the place are those that do not begin above the address. */
  lemma PlaceSplits(s: seq<Range>, item: Range)
    requires Chain(s) && PlacedRight(s, item.from)
    ensures var k := Place(s, |s|, item);
            (forall i :: 0 <= i < k ==> s[i].from <= item.from) && (forall j :: k <= j < |s| ==> item.from < s[j].from)
  {
    var k := Place(s, |s|, item);
    PlaceFound(s, |s|, item);
    assert k > 0 ==> s[k - 1].from <= item.from;
    forall j | 0 <= j < |s| && s[j].from <= item.from ensures j < k {
      var p := FindLastBelow(s, item.from, j);
      LastBelowBefore(s, item, p);
    }
  }

  lemma LastBelowCompares(s: seq<Range>, addr: Address, p: nat)
    requires PlacedRight(s, addr) && LastBelow(s, addr, p)
    ensures Compare(addr, s[p]) >= 0
  {
  }

  lemma LastBelowBefore(s: seq<Range>, item: Range, p: nat)
    requires PlacedRight(s, item.from) && LastBelow(s, item.from, p)
    ensures p < Place(s, |s|, item)
  {
    LastBelowCompares(s, item.from, p);
    PlaceFound(s, |s|, item);
  }

  lemma FindLastBelow(s: seq<Range>, addr: Address, j: nat) returns (p: nat)
    requires j < |s| && s[j].from <= addr
    ensures j <= p && LastBelow(s, addr, p)
  {
    p := j;
    while p + 1 < |s| && s[p + 1].from <= addr
      invariant j <= p < |s| && s[p].from <= addr
    {
      p := p + 1;
    }
  }

  lemma InsertInOrder(s: seq<Range>, item: Range)
    requires Chain(s) && item.from <= item.to && BesideAll(s, item) && PlacedRight(s, item.from)
    ensures Chain(Insert(s, item))
  {
    var k := Place(s, |s|, item);
    PlaceSplits(s, item);
    forall i | 0 <= i < k ensures s[i].to <= item.from {
      assert Beside(item, s[i]);
    }
    forall j | k <= j < |s| ensures item.to <= s[j].from {
      assert Beside(item, s[j]);
    }
    InsertedParts(s, item, k);
  }

  lemma InsertedParts(s: seq<Range>, item: Range, k: nat)
    requires Chain(s) && k <= |s| && item.from <= item.to
    requires (forall i :: 0 <= i < k ==> s[i].to <= item.from) && (forall j :: k <= j < |s| ==> item.to <= s[j].from)
    ensures Chain(s[..k] + [item] + s[k..])
  {
    var t := s[..k] + [item] + s[k..];
    assert forall i :: 0 <= i < |t| ==> t[i] == if i < k then s[i] else if i == k then item else s[i - 1];
  }

  /** Where the other ranges are after an insertion in order. */
  lemma OrderParts(s: seq<Range>, item: Range)
    requires Chain(Insert(s, item))
    ensures var k := Place(s, |s|, item);
            (forall i :: 0 <= i < k ==> s[i].from <= s[i].to <= item.from) && (forall j :: k <= j < |s| ==> item.to <= s[j].from)
  {
    var k, t := Place(s, |s|, item), Insert(s, item);
    assert t[k] == item;
    forall i | 0 <= i < k ensures s[i].from <= s[i].to <= item.from { assert t[i] == s[i]; }
    forall j | k <= j < |s| ensures item.to <= s[j].from { assert t[j + 1] == s[j]; }
  }

  /** A range that compares below another without differing too much begins below it. */
  lemma CompareBelow(addr: Address, r: Range)
    requires r.from <= r.to && Compare(addr, r) < 0 && addr <= r.from
    ensures addr < r.from && Fitting(addr, r)
  {
  }

  lemma OrderShowsBeside(s: seq<Range>, item: Range)
    requires Chain(s) && item.from <= item.to && Chain(Insert(s, item))
    ensures BesideAll(s, item)
  {
    OrderParts(s, item);
    PlaceFound(s, |s|, item);
    forall i | 0 <= i < |s| ensures Beside(item, s[i]) {
      if i >= Place(s, |s|, item) { CompareBelow(item.from, s[i]); }
    }
  }

  lemma OrderShowsPlaced(s: seq<Range>, item: Range)
    requires Chain(s) && item.from <= item.to && Chain(Insert(s, item))
    ensures PlacedRight(s, item.from)
  {
    var k := Place(s, |s|, item);
    OrderParts(s, item);
    PlaceFound(s, |s|, item);
    forall j | 0 <= j < |s| && item.from < s[j].from ensures Fitting(item.from, s[j]) {
      CompareBelow(item.from, s[j]);
    }
    forall j: nat | LastBelow(s, item.from, j) ensures Contains(s[j], item.from) || Fitting(item.from, s[j]) {
      if j >= k { CompareBelow(item.from, s[j]); }
    }
  }

  /** Ranges that are not empty and have disjoint interiors lie beside each other. */
  lemma DisjointBeside(item: Range, r: Range)
    requires item.from < item.to && r.from < r.to && (item.to <= r.from || r.to <= item.from)
    ensures Beside(item, r)
  {
  }

  /** The array after adding ranges one by one. */
  ghost function InsertAll(items: seq<Range>): seq<Range> {
    if items == [] then [] else Insert(InsertAll(items[..|items| - 1]), items[|items| - 1])
  }

  /** Ranges that are not empty, with disjoint interiors. */
  ghost predicate Separate(items: seq<Range>) {
    && (forall i :: 0 <= i < |items| ==> items[i].from < items[i].to)
    && (forall i, j :: 0 <= i < j < |items| ==> items[i].to <= items[j].from || items[j].to <= items[i].from)
  }

  /** All starts are near enough to compare. */
  ghost predicate Near(items: seq<Range>) {
    forall i, j :: 0 <= i < |items| && 0 <= j < |items| ==> Fitting(items[i].from, items[j])
  }

  /** Each range, when it came, was placed right among those before it. */
  ghost predicate AllPlacedRight(items: seq<Range>) {
    items != [] ==>
      var n := |items| - 1;
      AllPlacedRight(items[..n]) && PlacedRight(InsertAll(items[..n]), items[n].from)
  }

  /**
   However the ranges arrive, the array holds just them, in address order if and only if each was placed
   right, as is always the case when all are near.
   */
  lemma {:induction false} AddedInAnyOrder(items: seq<Range>)
    requires Separate(items)
    ensures multiset(InsertAll(items)) == multiset(items)
    ensures Chain(InsertAll(items)) <==> AllPlacedRight(items)
    ensures Near(items) ==> Chain(InsertAll(items))
  {
    if items != [] {
      var n := |items| - 1;
      var front, item := items[..n], items[n];
      var s := InsertAll(front);
      FrontSeparate(items);
      AddedInAnyOrder(front);
      LastBeside(items, s);
      InsertKeeps(s, item);
      InsertSubchain(s, item);
      if Chain(s) { InsertChain(s, item); }
    }
  }

  /** An array in order was in order before the insertion. */
  lemma InsertSubchain(s: seq<Range>, item: Range)
    ensures Chain(Insert(s, item)) ==> Chain(s)
  {
    var k, t := Place(s, |s|, item), Insert(s, item);
    assert forall i :: 0 <= i < |s| ==> s[i] == t[if i < k then i else i + 1];
  }

  lemma FrontSeparate(items: seq<Range>)
    requires items != [] && Separate(items)
    ensures var n := |items| - 1;
            Separate(items[..n]) && items[n].from <= items[n].to && multiset(items) == multiset(items[..n]) + multiset{items[n]}
    ensures Near(items) ==> Near(items[..|items| - 1])
  {
    var n := |items| - 1;
    assert items == items[..n] + [items[n]];
  }

  lemma LastBeside(items: seq<Range>, s: seq<Range>)
    requires items != [] && Separate(items) && multiset(s) == multiset(items[..|items| - 1])
    ensures BesideAll(s, items[|items| - 1])
    ensures Near(items) ==> PlacedRight(s, items[|items| - 1].from)
  {
    var n := |items| - 1;
    forall i | 0 <= i < |s| ensures Beside(items[n], s[i]) && (Near(items) ==> Fitting(items[n].from, s[i])) {
      var j := SameElement(s, items[..n], i);
      assert items[j] == s[i];
      DisjointBeside(items[n], items[j]);
    }
    assert Near(items) ==> AllFitting(s, items[n].from);
  }

  ghost function SameElement(s: seq<Range>, t: seq<Range>, i: nat): (j: nat)
    requires multiset(s) == multiset(t) && i < |s|
    ensures j < |t| && t[j] == s[i]
  {
    assert s[i] in multiset(s);
    assert s[i] in t;
    var j :| 0 <= j < |t| && t[j] == s[i];
    j
  }

  /** An empty range at the start of another goes behind it and hides the addresses inside. */
  lemma EmptyRangeHides()
    ensures var s := Insert([Range(5, 9)], Range(5, 5));
            s == [Range(5, 9), Range(5, 5)] && !Chain(s) && Compare(7, s[0]) == 0 && Compare(7, s[1]) > 0
  {
    var s := Insert([Range(5, 9)], Range(5, 5));
    assert Place([Range(5, 9)], 1, Range(5, 5)) == 1;
    assert s == [Range(5, 9), Range(5, 5)];
    assert s[0].to == 9 && s[1].from == 5;
  }

  /** Moves ranges that compare above the new one up by one place. */
  method MakeRoom(data: array<Range>, size: nat, item: Range) returns (idx: nat)
    requires size < data.Length
    modifies data
    ensures idx == Place(old(data[..size]), size, item)
    ensures forall j :: 0 <= j < idx ==> data[j] == old(data[j])
    ensures forall j :: idx < j <= size ==> data[j] == old(data[j - 1])
  {
    ghost var s := data[..size];
    idx := size;
    while idx > 0 && Compare(item.from, data[idx - 1]) < 0
      invariant idx <= size && Place(s, idx, item) == Place(s, size, item)
      invariant forall j :: 0 <= j < idx ==> data[j] == s[j]
      invariant forall j :: idx < j <= size ==> data[j] == s[j - 1]
    {
      data[idx] := data[idx - 1];
      idx := idx - 1;
    }
  }

  lemma GapFilled(s: seq<Range>, r: seq<Range>, k: nat, item: Range)
    requires k <= |s| && |r| == |s| + 1 && r[k] == item
    requires (forall j :: 0 <= j < k ==> r[j] == s[j]) && (forall j :: k < j < |r| ==> r[j] == s[j - 1])
    ensures r == s[..k] + [item] + s[k..]
  {
    var t := s[..k] + [item] + s[k..];
    forall j | 0 <= j < |r| ensures r[j] == t[j] {
      if j > k { assert t[j] == s[j - 1]; }
    }
  }

  class SArray {
    var data: array<Range>
    var size: nat

    ghost predicate Valid()
      reads this, data
    {
      size <= data.Length && data.Length > 0
    }

    ghost function Contents(): seq<Range>
      requires Valid()
      reads this, data
    {
      data[..size]
    }

    constructor (limit: nat)
      requires limit > 0
      ensures Valid() && Contents() == [] && fresh(data)
    {
      data := new Range[limit](_ => Range(0, 0));
      size := 0;
    }

    /** Doubles the array when it is full. */
    method Expand()
      requires Valid()
      modifies this
      ensures Valid() && Contents() == old(Contents()) && size < data.Length && size == old(size)
      ensures data == old(data) || fresh(data)
    {
      if size == data.Length {
        var full, limit := data, 2 * size;
        var more := new Range[limit](i requires 0 <= i < limit reads full => if i < full.Length then full[i] else Range(0, 0));
        assert more[..size] == data[..size];
        data := more;
      }
    }

    /** Puts the new range in the gap that it needs. */
    method Add(item: Range)
      requires Valid()
      modifies this, data
      ensures Valid() && Contents() == Insert(old(Contents()), item) && (data == old(data) || fresh(data))
    {
      Expand();
      ghost var s := Contents();
      var idx := MakeRoom(data, size, item);
      size := size + 1;
      data[idx] := item;
      GapFilled(s, data[..size], idx, item);
    }

    /**
     Halves the part that can hold the address until a range contains it. A range found contains it unless
     it ends before it starts. None is missed while the array is in order and no difference of addresses
     leaves 64 signed bits.
     */
    method Find(addr: Address) returns (r: Option<Range>)
      requires Valid()
      ensures r.Some? ==> r.value in Contents() && (r.value.from <= addr <= r.value.to || r.value.to < r.value.from)
      ensures Chain(Contents()) && AllFitting(Contents(), addr) && r.None? ==>
        forall i :: 0 <= i < size ==> !(Contents()[i].from <= addr <= Contents()[i].to)
    {
      if size > 0 {
        var low, high := 0, size - 1;
        ghost var ordered := Chain(Contents()) && AllFitting(Contents(), addr);
        while low <= high
          invariant 0 <= low <= size && -1 <= high < size
          invariant ordered ==> forall i :: 0 <= i < low ==> !Contains(data[i], addr) && data[i].from < addr
          invariant ordered ==> forall i :: high < i < size ==> !Contains(data[i], addr) && addr < data[i].from
          decreases high - low + 1
        {
          var half := (high + low) / 2;
          var rc := Compare(addr, data[half]);
          if rc == 0 {
            return Some(data[half]);
          }
          if rc < 0 {
            high := half - 1;
          } else {
            low := half + 1;
          }
        }
      }
      r := None;
    }
  }
}
