/**
 The totals report of the timeline tool: a registry pairs frees with allocations, and the report keeps
 counters, the total of the context of all events, the overhead and the peak. Counters are unsigned
 32-bit numbers. One resource type without reference counts.
 */
module Totals {

  const U32: nat := 0x1_0000_0000

  datatype Event = Alloc(id: nat, size: nat, time: nat) | Free(id: nat)

  /** What the report is told: a free comes with the size of the allocation it ends. */
  datatype Report = Added(size: nat, time: nat) | Removed(size: nat)

  datatype Data = Data(count: nat, size: nat)

  datatype Peak = Peak(leaks: Data, totals: Data, time: nat)

  // ---------------------------------------------------------------- unsigned counters

  /** A number as an unsigned counter holds it. */
  function Wrap(x: int): (w: nat)
    ensures w < U32
    decreases if x < 0 then U32 - x else x
  {
    if x < 0 then Wrap(x + U32) else if x >= U32 then Wrap(x - U32) else x
  }

  lemma WrapShift(x: int)
    ensures Wrap(x + U32) == Wrap(x)
  {
  }

  /** It does not matter when a counter wraps around. */
  lemma {:induction false} WrapAdd(x: int, y: int)
    ensures Wrap(Wrap(x) + y) == Wrap(x + y)
    decreases if x < 0 then U32 - x else x
  {
    if x < 0 {
      WrapAdd(x + U32, y);
      WrapShift(x + y);
    } else if x >= U32 {
      WrapAdd(x - U32, y);
      WrapShift(x - U32 + y);
    }
  }

  // ---------------------------------------------------------------- what a history means

  /** The allocations that a free can end. */
  ghost function Live(h: seq<Event>): map<nat, nat> {
    if h == [] then map[] else
      Registered(Live(h[..|h| - 1]), h[|h| - 1])
  }

  ghost function Registered(live: map<nat, nat>, e: Event): map<nat, nat> {
    if e.Alloc? then live[e.id := e.size] else live - {e.id}
  }

  /** An allocation is reported always, a free only when the registry knows its allocation. */
  ghost function ReportOf(live: map<nat, nat>, e: Event): seq<Report> {
    if e.Alloc? then [Added(e.size, e.time)] else if e.id in live then [Removed(live[e.id])] else []
  }

  ghost function Reports(h: seq<Event>): seq<Report> {
    if h == [] then [] else Reports(h[..|h| - 1]) + ReportOf(Live(h[..|h| - 1]), h[|h| - 1])
  }

  /** The allocations that another one with the same id replaced: they are never reported as freed. */
  ghost function Lost(h: seq<Event>): Data {
    if h == [] then Data(0, 0) else
      var before, live := Lost(h[..|h| - 1]), Live(h[..|h| - 1]);
      var e := h[|h| - 1];
      if e.Alloc? && e.id in live then Data(before.count + 1, before.size + live[e.id]) else before
  }

  /** An allocation without a time ends the report. */
  ghost function Seen(r: seq<Report>): (s: seq<Report>)
    ensures |s| <= |r|
  {
    if r == [] then [] else
      var n := |r| - 1;
      var before := Seen(r[..n]);
      if before != r[..n] || (r[n].Added? && r[n].time == 0) then before else r
  }

  /** Allocations less frees. */
  ghost function Count(r: seq<Report>): int {
    if r == [] then 0 else Count(r[..|r| - 1]) + if r[|r| - 1].Added? then 1 else -1
  }

  ghost function Size(r: seq<Report>): int {
    if r == [] then 0 else Size(r[..|r| - 1]) + (if r[|r| - 1].Added? then 1 else -1) * r[|r| - 1].size
  }

  /** Allocations alone. */
  ghost function AllCount(r: seq<Report>): nat {
    if r == [] then 0 else AllCount(r[..|r| - 1]) + if r[|r| - 1].Added? then 1 else 0
  }

  ghost function AllSize(r: seq<Report>): nat {
    if r == [] then 0 else AllSize(r[..|r| - 1]) + if r[|r| - 1].Added? then r[|r| - 1].size else 0
  }

  ghost function LeaksAt(r: seq<Report>): Data {
    Data(Wrap(Count(r)), Wrap(Size(r)))
  }

  ghost function TotalsAt(r: seq<Report>): Data {
    Data(Wrap(AllCount(r)), Wrap(AllSize(r)))
  }

  // ---------------------------------------------------------------- nothing goes below zero

  ghost function Sum(m: map<nat, nat>): nat {
    if m == map[] then 0 else var k :| k in m; m[k] + Sum(m - {k})
  }

  lemma {:induction false} SumWithout(m: map<nat, nat>, k: nat)
    requires k in m
    ensures Sum(m) == m[k] + Sum(m - {k})
  {
    var j :| j in m && Sum(m) == m[j] + Sum(m - {j});
    if j != k {
      SumWithout(m - {j}, k);
      SumWithout(m - {k}, j);
      assert m - {j} - {k} == m - {k} - {j};
    }
  }

  lemma SumWith(m: map<nat, nat>, k: nat, x: nat)
    ensures Sum(m[k := x]) == Sum(m - {k}) + x && |m[k := x]| == |m - {k}| + 1
  {
    var m' := m[k := x];
    SumWithout(m', k);
    assert m' - {k} == m - {k};
    SizeWithout(m', k);
  }

  lemma SizeWithout(m: map<nat, nat>, k: nat)
    requires k in m
    ensures |m| == |m - {k}| + 1
  {
    assert m.Keys == (m - {k}).Keys + {k};
  }

  /** What is not freed is what a free can still end, and what was replaced. */
  lemma {:induction false} NonFreedIsLive(h: seq<Event>)
    ensures Count(Reports(h)) == |Live(h)| + Lost(h).count
    ensures Size(Reports(h)) == Sum(Live(h)) + Lost(h).size
  {
    if h != [] {
      var front, e := h[..|h| - 1], h[|h| - 1];
      NonFreedIsLive(front);
      NextCounted(Reports(front), ReportOf(Live(front), e));
      LiveChanges(Live(front), e.id, if e.Alloc? then e.size else 0);
    }
  }

  lemma LiveChanges(live: map<nat, nat>, id: nat, size: nat)
    ensures id in live ==> Sum(live) == live[id] + Sum(live - {id}) && |live| == |live - {id}| + 1
    ensures id !in live ==> live - {id} == live
    ensures Sum(live[id := size]) == Sum(live - {id}) + size && |live[id := size]| == |live - {id}| + 1
  {
    SumWith(live, id, size);
    if id in live {
      SumWith(live, id, live[id]);
      assert live[id := live[id]] == live;
    } else {
      assert live - {id} == live;
    }
  }

  lemma NextCounted(r: seq<Report>, more: seq<Report>)
    requires |more| <= 1
    ensures more == [] ==> r + more == r
    ensures |more| == 1 && more[0].Added? ==> Count(r + more) == Count(r) + 1 && Size(r + more) == Size(r) + more[0].size
    ensures |more| == 1 && more[0].Added? ==> AllCount(r + more) == AllCount(r) + 1 && AllSize(r + more) == AllSize(r) + more[0].size
    ensures |more| == 1 && more[0].Removed? ==> Count(r + more) == Count(r) - 1 && Size(r + more) == Size(r) - more[0].size
    ensures |more| == 1 && more[0].Removed? ==> AllCount(r + more) == AllCount(r) && AllSize(r + more) == AllSize(r)
  {
    if |more| == 1 { assert (r + more)[..|r|] == r; }
  }

  /** What the report has seen is what a beginning of the history tells. */
  lemma {:induction false} SeenIsBeginning(h: seq<Event>) returns (k: nat)
    ensures k <= |h| && Seen(Reports(h)) == Reports(h[..k])
  {
    if h == [] {
      k := 0;
    } else {
      var n := |h| - 1;
      k := SeenIsBeginning(h[..n]);
      SeenNext(Reports(h[..n]), ReportOf(Live(h[..n]), h[n]));
      assert h[..n][..k] == h[..k];
      if Seen(Reports(h)) == Reports(h) {
        k := |h|;
        assert h[..k] == h;
      }
    }
  }

  lemma SeenNext(r: seq<Report>, more: seq<Report>)
    requires |more| <= 1
    ensures more == [] ==> r + more == r
    ensures Seen(r + more) == if Seen(r) != r || (more != [] && more[0].Added? && more[0].time == 0) then Seen(r) else r + more
  {
    if more == [] {
      assert r + more == r;
    } else {
      assert (r + more)[..|r|] == r;
    }
  }

  /** The exact figures behind the counters are never negative. */
  lemma NeverNegative(h: seq<Event>)
    ensures Count(Seen(Reports(h))) >= 0 && Size(Seen(Reports(h))) >= 0
  {
    var k := SeenIsBeginning(h);
    NonFreedIsLive(h[..k]);
  }

  // ---------------------------------------------------------------- the peak

  /** The `i`-th report is an allocation and the figures behind it are these. */
  ghost predicate PeakIsAt(r: seq<Report>, p: Peak, i: nat) {
    && i < |r| && r[i].Added? && p.time == r[i].time
    && p.leaks == LeaksAt(r[..i + 1]) && p.totals == TotalsAt(r[..i + 1])
  }

  /** The largest size behind an allocation, where it is reached first; at the beginning there is none. */
  ghost predicate IsPeak(r: seq<Report>, p: Peak) {
    && (forall i :: 0 <= i < |r| && r[i].Added? ==> LeaksAt(r[..i + 1]).size <= p.leaks.size)
    && (p.leaks.size == 0 ==> p == Peak(Data(0, 0), Data(0, 0), 0))
    && (p.leaks.size > 0 ==> exists i: nat :: PeakIsAt(r, p, i) && FirstAt(r, p.leaks.size, i))
  }

  ghost predicate FirstAt(r: seq<Report>, size: nat, i: nat) {
    forall j :: 0 <= j < i && j < |r| && r[j].Added? ==> LeaksAt(r[..j + 1]).size < size
  }

  lemma PrefixSame(r: seq<Report>, x: Report, i: nat)
    requires i <= |r|
    ensures (r + [x])[..i] == r[..i]
  {
  }

  /** A report that raises nothing above the peak leaves it. */
  lemma PeakStays(r: seq<Report>, p: Peak, x: Report)
    requires IsPeak(r, p) && (x.Added? ==> LeaksAt(r + [x]).size <= p.leaks.size)
    ensures IsPeak(r + [x], p)
  {
    var s := r + [x];
    forall i | 0 <= i < |s| && s[i].Added? ensures LeaksAt(s[..i + 1]).size <= p.leaks.size {
      if i < |r| { PrefixSame(r, x, i + 1); } else { assert s[..i + 1] == s; }
    }
    if p.leaks.size > 0 {
      var i: nat :| PeakIsAt(r, p, i) && FirstAt(r, p.leaks.size, i);
      PrefixSame(r, x, i + 1);
      FirstStays(r, p.leaks.size, i, x);
      assert PeakIsAt(s, p, i);
    }
  }

  lemma FirstStays(r: seq<Report>, size: nat, i: nat, x: Report)
    requires FirstAt(r, size, i) && i <= |r|
    ensures FirstAt(r + [x], size, i)
  {
    forall j | 0 <= j < i && (r + [x])[j].Added? ensures LeaksAt((r + [x])[..j + 1]).size < size {
      PrefixSame(r, x, j + 1);
    }
  }

  /** An allocation that takes the size above the peak is the new one. */
  lemma PeakMoves(r: seq<Report>, p: Peak, x: Report)
    requires IsPeak(r, p) && x.Added? && LeaksAt(r + [x]).size > p.leaks.size
    ensures IsPeak(r + [x], Peak(LeaksAt(r + [x]), TotalsAt(r + [x]), x.time))
  {
    var s := r + [x];
    var q := Peak(LeaksAt(s), TotalsAt(s), x.time);
    assert s[..|r| + 1] == s;
    LowerBefore(r, p, x, q.leaks.size);
    assert PeakIsAt(s, q, |r|);
  }

  lemma LowerBefore(r: seq<Report>, p: Peak, x: Report, size: nat)
    requires IsPeak(r, p) && size > p.leaks.size
    ensures FirstAt(r + [x], size, |r|)
    ensures forall i :: 0 <= i < |r| && r[i].Added? ==> LeaksAt((r + [x])[..i + 1]).size < size
  {
    forall i | 0 <= i < |r| && r[i].Added? ensures LeaksAt((r + [x])[..i + 1]).size < size {
      PrefixSame(r, x, i + 1);
    }
  }

  lemma SizeFalls(r: seq<Report>, i: nat)
    requires i < |r| && r[i].Removed?
    ensures Size(r[..i + 1]) <= Size(r[..i])
  {
    assert r[..i + 1][..i] == r[..i];
  }

  /** While the figures fit the counters, the peak is the maximum over all times. */
  lemma {:induction false} PeakIsMaximum(r: seq<Report>, p: Peak, n: nat)
    requires IsPeak(r, p) && n <= |r| && forall i :: 0 <= i <= |r| ==> 0 <= Size(r[..i]) < U32
    ensures Size(r[..n]) <= p.leaks.size
  {
    if n > 0 {
      var i := n - 1;
      if r[i].Added? {
        assert LeaksAt(r[..i + 1]).size <= p.leaks.size;
        WrapExact(Size(r[..n]));
      } else {
        PeakIsMaximum(r, p, i);
        SizeFalls(r, i);
      }
    }
  }

  // ---------------------------------------------------------------- the report

  /** The figures of one resource type. */
  datatype Figures = Figures(leaks: Data, totals: Data, peak: Peak, allContext: nat, overhead: nat, totalAllocs: nat)

  ghost function OverheadAt(r: seq<Report>, each: nat): nat {
    if each == 0 then 0 else Wrap(Size(r) + each * Count(r))
  }

  /** All figures but the peak are those of the reports seen. */
  ghost predicate SumsOf(f: Figures, r: seq<Report>, each: nat) {
    && f.leaks == LeaksAt(r) && f.totals == TotalsAt(r) && f.allContext == LeaksAt(r).size
    && f.totalAllocs == TotalsAt(r).count && f.overhead == OverheadAt(r, each)
  }

  /** The figures are those of the reports seen. */
  ghost predicate FiguresOf(f: Figures, r: seq<Report>, each: nat) {
    SumsOf(f, r, each) && IsPeak(r, f.peak)
  }

  /** A figure is exact if and only if the number behind it fits the counter. */
  lemma FiguresExact(f: Figures, h: seq<Event>, each: nat)
    requires FiguresOf(f, Seen(Reports(h)), each)
    ensures var r := Seen(Reports(h));
            && (f.leaks.count == Count(r) <==> Count(r) < U32) && (f.leaks.size == Size(r) <==> Size(r) < U32)
            && (f.totals.count == AllCount(r) <==> AllCount(r) < U32) && f.totalAllocs == f.totals.count
            && (f.totals.size == AllSize(r) <==> AllSize(r) < U32) && f.allContext == f.leaks.size
  {
    NeverNegative(h);
    var r := Seen(Reports(h));
    WrapExact(Count(r));
    WrapExact(Size(r));
    WrapExact(AllSize(r));
    WrapExact(AllCount(r));
  }

  /** The overhead is the size not freed and a fixed amount for each allocation not freed. */
  lemma OverheadExact(f: Figures, h: seq<Event>, each: nat)
    requires FiguresOf(f, Seen(Reports(h)), each) && each > 0
    ensures var r := Seen(Reports(h));
            f.overhead == Size(r) + each * Count(r) <==> Size(r) + each * Count(r) < U32
  {
    NeverNegative(h);
    OverheadFits(Seen(Reports(h)), each);
  }

  lemma WrapExact(x: int)
    ensures Wrap(x) == x <==> 0 <= x < U32
  {
  }

  lemma OverheadFits(r: seq<Report>, each: nat)
    requires Count(r) >= 0 && Size(r) >= 0 && each > 0
    ensures OverheadAt(r, each) == Size(r) + each * Count(r) <==> Size(r) + each * Count(r) < U32
  {
    var more := each * Count(r);
    assert more >= 0;
    WrapExact(Size(r) + more);
  }

  ghost function AddedTo(f: Figures, size: nat, time: nat, each: nat): Figures {
    var leaks := Data(Wrap(f.leaks.count + 1), Wrap(f.leaks.size + size));
    var totals := Data(Wrap(f.totals.count + 1), Wrap(f.totals.size + size));
    Figures(leaks, totals, if leaks.size > f.peak.leaks.size then Peak(leaks, totals, time) else f.peak,
            Wrap(f.allContext + size), if each == 0 then f.overhead else Wrap(f.overhead + (size + each)),
            Wrap(f.totalAllocs + 1))
  }

  ghost function RemovedFrom(f: Figures, size: nat, each: nat): Figures {
    f.(leaks := Data(Wrap(f.leaks.count - 1), Wrap(f.leaks.size - size)), allContext := Wrap(f.allContext - size),
       overhead := if each == 0 then f.overhead else Wrap(f.overhead - (size + each)))
  }

  lemma AddedFigures(f: Figures, r: seq<Report>, size: nat, time: nat, each: nat)
    requires FiguresOf(f, r, each)
    ensures FiguresOf(AddedTo(f, size, time, each), r + [Added(size, time)], each)
  {
    AddedSumsOf(f, r, size, time, each);
    AddedPeak(f, r, size, time, each);
  }

  lemma AddedSumsOf(f: Figures, r: seq<Report>, size: nat, time: nat, each: nat)
    requires SumsOf(f, r, each)
    ensures SumsOf(AddedTo(f, size, time, each), r + [Added(size, time)], each)
  {
    AddedSums(r, size, time, each);
  }

  lemma AddedPeak(f: Figures, r: seq<Report>, size: nat, time: nat, each: nat)
    requires IsPeak(r, f.peak) && f.leaks == LeaksAt(r) && f.totals == TotalsAt(r)
    ensures IsPeak(r + [Added(size, time)], AddedTo(f, size, time, each).peak)
  {
    var x, g := Added(size, time), AddedTo(f, size, time, each);
    AddedSums(r, size, time, each);
    assert g.leaks == LeaksAt(r + [x]) && g.totals == TotalsAt(r + [x]);
    if g.leaks.size > f.peak.leaks.size {
      PeakMoves(r, f.peak, x);
    } else {
      PeakStays(r, f.peak, x);
    }
  }

  lemma AddedSums(r: seq<Report>, size: nat, time: nat, each: nat)
    ensures var s := r + [Added(size, time)];
            && LeaksAt(s) == Data(Wrap(LeaksAt(r).count + 1), Wrap(LeaksAt(r).size + size))
            && TotalsAt(s) == Data(Wrap(TotalsAt(r).count + 1), Wrap(TotalsAt(r).size + size))
            && OverheadAt(s, each) == if each == 0 then 0 else Wrap(OverheadAt(r, each) + (size + each))
  {
    NextCounted(r, [Added(size, time)]);
    AddWraps(r, size, each);
  }

  lemma RemovedFigures(f: Figures, r: seq<Report>, size: nat, each: nat)
    requires FiguresOf(f, r, each)
    ensures FiguresOf(RemovedFrom(f, size, each), r + [Removed(size)], each)
  {
    RemovedSumsOf(f, r, size, each);
    PeakStays(r, f.peak, Removed(size));
  }

  lemma RemovedSumsOf(f: Figures, r: seq<Report>, size: nat, each: nat)
    requires SumsOf(f, r, each)
    ensures SumsOf(RemovedFrom(f, size, each), r + [Removed(size)], each)
  {
    RemovedSums(r, size, each);
  }

  lemma RemovedSums(r: seq<Report>, size: nat, each: nat)
    ensures var s := r + [Removed(size)];
            && LeaksAt(s) == Data(Wrap(LeaksAt(r).count - 1), Wrap(LeaksAt(r).size - size))
            && TotalsAt(s) == TotalsAt(r)
            && OverheadAt(s, each) == if each == 0 then 0 else Wrap(OverheadAt(r, each) - (size + each))
  {
    NextCounted(r, [Removed(size)]);
    RemoveWraps(r, size, each);
  }

  class ResourceTotals {
    const overheadEach: nat
    var leaks: Data
    var totals: Data
    var peak: Peak
    var allContext: nat
    var overhead: nat
    var totalAllocs: nat
    ghost var seen: seq<Report>

    ghost function Now(): Figures
      reads this
    {
      Figures(leaks, totals, peak, allContext, overhead, totalAllocs)
    }

    ghost predicate Valid()
      reads this
    {
      FiguresOf(Now(), seen, overheadEach)
    }

    constructor (overheadEach: nat)
      ensures Valid() && seen == [] && this.overheadEach == overheadEach
    {
      this.overheadEach := overheadEach;
      leaks, totals := Data(0, 0), Data(0, 0);
      peak := Peak(Data(0, 0), Data(0, 0), 0);
      allContext, overhead, totalAllocs := 0, 0, 0;
      seen := [];
    }

    /** Adds an allocation to the figures; without a time the report is given up. */
    method ReportAlloc(size: nat, time: nat) returns (ok: bool)
      requires Valid()
      modifies this
      ensures Valid() && (ok <==> time != 0)
      ensures seen == if ok then old(seen) + [Added(size, time)] else old(seen)
    {
      if time == 0 {
        return false;
      }
      AddedFigures(Now(), seen, size, time, overheadEach);
      AddFigures(size, time);
      seen := seen + [Added(size, time)];
      ok := true;
    }

    method AddFigures(size: nat, time: nat)
      modifies this
      ensures Now() == AddedTo(old(Now()), size, time, overheadEach) && seen == old(seen)
    {
      allContext := Wrap(allContext + size);
      leaks := Data(Wrap(leaks.count + 1), Wrap(leaks.size + size));
      totals := Data(Wrap(totals.count + 1), Wrap(totals.size + size));
      if leaks.size > peak.leaks.size {
        peak := Peak(leaks, totals, time);
      }
      if overheadEach != 0 {
        overhead := Wrap(overhead + (size + overheadEach));
      }
      totalAllocs := Wrap(totalAllocs + 1);
    }

    /** Takes a freed allocation off the figures. */
    method ReportFree(size: nat)
      requires Valid()
      modifies this
      ensures Valid() && seen == old(seen) + [Removed(size)]
    {
      RemovedFigures(Now(), seen, size, overheadEach);
      allContext := Wrap(allContext - size);
      leaks := Data(Wrap(leaks.count - 1), Wrap(leaks.size - size));
      if overheadEach != 0 {
        overhead := Wrap(overhead - (size + overheadEach));
      }
      seen := seen + [Removed(size)];
      assert Now() == RemovedFrom(old(Now()), size, overheadEach);
    }
  }

  lemma AddWraps(r: seq<Report>, size: nat, each: nat)
    ensures Wrap(Wrap(Count(r)) + 1) == Wrap(Count(r) + 1) && Wrap(Wrap(Size(r)) + size) == Wrap(Size(r) + size)
    ensures Wrap(Wrap(AllCount(r)) + 1) == Wrap(AllCount(r) + 1) && Wrap(Wrap(AllSize(r)) + size) == Wrap(AllSize(r) + size)
    ensures Wrap(Wrap(Size(r) + each * Count(r)) + (size + each)) == Wrap(Size(r) + size + each * (Count(r) + 1))
  {
    WrapAdd(Count(r), 1);
    WrapAdd(Size(r), size);
    WrapAdd(AllCount(r), 1);
    WrapAdd(AllSize(r), size);
    WrapAdd(Size(r) + each * Count(r), size + each);
    assert each * (Count(r) + 1) == each * Count(r) + each;
  }

  lemma RemoveWraps(r: seq<Report>, size: nat, each: nat)
    ensures Wrap(Wrap(Count(r)) - 1) == Wrap(Count(r) - 1) && Wrap(Wrap(Size(r)) - size) == Wrap(Size(r) - size)
    ensures Wrap(Wrap(Size(r) + each * Count(r)) - (size + each)) == Wrap(Size(r) - size + each * (Count(r) - 1))
  {
    WrapAdd(Count(r), -1);
    WrapAdd(Size(r), 0 - size);
    WrapAdd(Size(r) + each * Count(r), 0 - size - each);
    assert each * (Count(r) - 1) == each * Count(r) - each;
  }

  /** The registry of one resource type and the report it tells, as long as that goes on. */
  class Processor {
    var events: map<nat, nat>
    const report: ResourceTotals
    var active: bool
    ghost var history: seq<Event>

    /** Registry and report are those of the history. */
    ghost predicate Valid()
      reads this, report
    {
      report.Valid() && Follows(events, report.seen, active, history)
    }

    constructor (overheadEach: nat)
      ensures Valid() && history == [] && fresh(report) && report.overheadEach == overheadEach
    {
      events, active, history := map[], true, [];
      report := new ResourceTotals(overheadEach);
    }

    method RegisterAlloc(id: nat, size: nat, time: nat)
      requires Valid()
      modifies this, report
      ensures Valid() && history == old(history) + [Alloc(id, size, time)]
    {
      FollowsAlloc(events, report.seen, active, history, id, size, time);
      if active {
        active := report.ReportAlloc(size, time);
      }
      events := events[id := size];
      history := history + [Alloc(id, size, time)];
    }

    method RegisterFree(id: nat)
      requires Valid()
      modifies this, report
      ensures Valid() && history == old(history) + [Free(id)]
    {
      FollowsFree(events, report.seen, active, history, id);
      if id in events {
        if active {
          report.ReportFree(events[id]);
        }
        events := events - {id};
      }
      history := history + [Free(id)];
    }
  }

  /** The registry holds what a free can end; the report has seen all there was to report while it is active. */
  ghost predicate Follows(events: map<nat, nat>, seen: seq<Report>, active: bool, h: seq<Event>) {
    events == Live(h) && seen == Seen(Reports(h)) && (active <==> Seen(Reports(h)) == Reports(h))
  }

  lemma FollowsAlloc(events: map<nat, nat>, seen: seq<Report>, active: bool, h: seq<Event>, id: nat, size: nat, time: nat)
    requires Follows(events, seen, active, h)
    ensures Follows(events[id := size], if active && time != 0 then seen + [Added(size, time)] else seen,
                    active && time != 0, h + [Alloc(id, size, time)])
  {
    NextEvent(h, Alloc(id, size, time));
  }

  lemma FollowsFree(events: map<nat, nat>, seen: seq<Report>, active: bool, h: seq<Event>, id: nat)
    requires Follows(events, seen, active, h)
    ensures id in events ==>
      Follows(events - {id}, if active then seen + [Removed(events[id])] else seen, active, h + [Free(id)])
    ensures id !in events ==> Follows(events, seen, active, h + [Free(id)])
  {
    NextEvent(h, Free(id));
  }

  lemma NextEvent(h: seq<Event>, e: Event)
    ensures Live(h + [e]) == Registered(Live(h), e)
    ensures Reports(h + [e]) == Reports(h) + ReportOf(Live(h), e)
    ensures ReportOf(Live(h), e) == [] ==> Reports(h + [e]) == Reports(h)
    ensures e.Free? && e.id !in Live(h) ==> Live(h + [e]) == Live(h)
    ensures var r, more := Reports(h), ReportOf(Live(h), e);
            Seen(r + more) == if Seen(r) != r || (more != [] && more[0].Added? && more[0].time == 0) then Seen(r) else r + more
  {
    assert (h + [e])[..|h|] == h;
    SeenNext(Reports(h), ReportOf(Live(h), e));
    if e.Free? && e.id !in Live(h) { assert Live(h) - {e.id} == Live(h); }
  }
}
