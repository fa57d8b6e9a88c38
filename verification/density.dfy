/**
 The density map of a memory area: one sweep over its allocations, in address order, gives for each page
 the number of bytes in use and a character for it.
 */
module Density {

  datatype Block = Block(at: nat, size: nat)

  /** How much of a block lies between two addresses. */
  function Overlap(b: Block, lo: nat, hi: nat): nat {
    var left := if b.at < lo then lo else b.at;
    var right := if b.at + b.size < hi then b.at + b.size else hi;
    if left < right then right - left else 0
  }

  /** The bytes between two addresses that the first `n` blocks use. */
  function UsedBy(blocks: seq<Block>, n: nat, lo: nat, hi: nat): nat
    requires n <= |blocks|
  {
    if n == 0 then 0 else UsedBy(blocks, n - 1, lo, hi) + Overlap(blocks[n - 1], lo, hi)
  }

  /** The bytes in use between two addresses. */
  function Used(blocks: seq<Block>, lo: nat, hi: nat): nat {
    UsedBy(blocks, |blocks|, lo, hi)
  }

  /** In address order and pairwise disjoint. */
  ghost predicate Apart(blocks: seq<Block>) {
    forall i, j :: 0 <= i < j < |blocks| ==> blocks[i].at + blocks[i].size <= blocks[j].at
  }

  // ---------------------------------------------------------------- sums of overlaps

  /** Blocks that do not reach the space add nothing to it. */
  lemma {:induction false} NothingAdded(s: seq<Block>, m: nat, n: nat, lo: nat, hi: nat)
    requires m <= n <= |s| && forall i :: m <= i < n ==> s[i].at + s[i].size <= lo || hi <= s[i].at
    ensures UsedBy(s, n, lo, hi) == UsedBy(s, m, lo, hi)
  {
    if m < n { NothingAdded(s, m, n - 1, lo, hi); }
  }

  /** Disjoint blocks use no more than the space up to the end of the last. */
  lemma {:induction false} UsedBounded(s: seq<Block>, n: nat, lo: nat, hi: nat)
    requires n <= |s| && Apart(s) && lo <= hi
    ensures UsedBy(s, n, lo, hi) <= hi - lo
    ensures n > 0 ==> UsedBy(s, n, lo, hi) == 0 || UsedBy(s, n, lo, hi) + lo <= s[n - 1].at + s[n - 1].size
  {
    if n > 0 { UsedBounded(s, n - 1, lo, hi); }
  }

  lemma {:induction false} UsedSplit(s: seq<Block>, n: nat, lo: nat, mid: nat, hi: nat)
    requires n <= |s| && lo <= mid <= hi
    ensures UsedBy(s, n, lo, hi) == UsedBy(s, n, lo, mid) + UsedBy(s, n, mid, hi)
  {
    if n > 0 { UsedSplit(s, n - 1, lo, mid, hi); }
  }

  function PageAt(from: nat, page: nat, pageSize: nat): nat {
    from + page * pageSize
  }

  lemma NextPage(from: nat, page: nat, pageSize: nat)
    ensures PageAt(from, page + 1, pageSize) == PageAt(from, page, pageSize) + pageSize
  {
    assert (page + 1) * pageSize == page * pageSize + pageSize;
  }

  function Total(sizes: seq<nat>): nat {
    if sizes == [] then 0 else Total(sizes[..|sizes| - 1]) + sizes[|sizes| - 1]
  }

  /** The bytes in use on each page. */
  ghost predicate PerPage(sizes: seq<nat>, blocks: seq<Block>, from: nat, pageSize: nat) {
    forall p :: 0 <= p < |sizes| ==> sizes[p] == Used(blocks, PageAt(from, p, pageSize), PageAt(from, p + 1, pageSize))
  }

  /** The pages add up to all bytes in use, cut to the area. */
  lemma {:induction false} PagesAddUp(sizes: seq<nat>, blocks: seq<Block>, from: nat, pageSize: nat)
    requires PerPage(sizes, blocks, from, pageSize)
    ensures Total(sizes) == Used(blocks, from, PageAt(from, |sizes|, pageSize))
  {
    if sizes == [] {
      NothingBetween(blocks, |blocks|, from);
    } else {
      var n := |sizes| - 1;
      PagesAddUp(sizes[..n], blocks, from, pageSize);
      NextPage(from, n, pageSize);
      UsedSplit(blocks, |blocks|, from, PageAt(from, n, pageSize), PageAt(from, n + 1, pageSize));
    }
  }

  lemma {:induction false} NothingBetween(s: seq<Block>, n: nat, at: nat)
    requires n <= |s|
    ensures UsedBy(s, n, at, at) == 0
  {
    if n > 0 { NothingBetween(s, n - 1, at); }
  }

  /** No page holds more than its size. */
  lemma NoPageOverfull(sizes: seq<nat>, blocks: seq<Block>, from: nat, pageSize: nat)
    requires PerPage(sizes, blocks, from, pageSize) && Apart(blocks)
    ensures forall p :: 0 <= p < |sizes| ==> sizes[p] <= pageSize
  {
    forall p | 0 <= p < |sizes| ensures sizes[p] <= pageSize {
      var lo, hi := PageAt(from, p, pageSize), PageAt(from, p + 1, pageSize);
      NextPage(from, p, pageSize);
      UsedBounded(blocks, |blocks|, lo, hi);
    }
  }

  // ---------------------------------------------------------------- the sweep

  /** What is left behind an address of the blocks before the `i`-th. */
  ghost predicate Carried(blocks: seq<Block>, i: nat, at: nat, overflow: nat) {
    && i <= |blocks|
    && (forall j :: i <= j < |blocks| ==> at + overflow <= blocks[j].at)
    && (forall j :: 0 <= j < i - 1 ==> blocks[j].at + blocks[j].size <= at)
    && (i == 0 ==> overflow == 0)
    && (i > 0 ==> blocks[i - 1].at <= at)
    && (i > 0 ==> overflow == if blocks[i - 1].at + blocks[i - 1].size <= at then 0 else blocks[i - 1].at + blocks[i - 1].size - at)
  }

  /** The blocks already passed put the overflow on the page, at most all of it. */
  lemma CarriedUsed(blocks: seq<Block>, i: nat, at: nat, overflow: nat, pageSize: nat)
    requires Carried(blocks, i, at, overflow)
    ensures UsedBy(blocks, i, at, at + pageSize) == if overflow < pageSize then overflow else pageSize
  {
    if i > 0 { NothingAdded(blocks, 0, i - 1, at, at + pageSize); }
  }

  /** The bytes of one page: the overflow of the last block, then the blocks that begin on it. */
  method SweepPage(blocks: seq<Block>, i: nat, at: nat, overflow: nat, pageSize: nat)
    returns (size: nat, next: nat, left: nat)
    requires pageSize > 0 && Apart(blocks) && Carried(blocks, i, at, overflow)
    ensures size == Used(blocks, at, at + pageSize) && Carried(blocks, next, at + pageSize, left)
  {
    CarriedUsed(blocks, i, at, overflow, pageSize);
    if overflow < pageSize {
      size, next, left := SweepBlocks(blocks, i, at, overflow, at + pageSize);
    } else {
      size, next, left := pageSize, i, overflow - pageSize;
      NothingAdded(blocks, next, |blocks|, at, at + pageSize);
    }
  }

  /** Adds the blocks that begin on a page which the overflow does not fill. */
  method SweepBlocks(blocks: seq<Block>, i: nat, at: nat, overflow: nat, end: nat) returns (size: nat, next: nat, left: nat)
    requires Apart(blocks) && Carried(blocks, i, at, overflow) && at + overflow < end
    requires UsedBy(blocks, i, at, end) == overflow
    ensures size == Used(blocks, at, end) && Carried(blocks, next, end, left)
  {
    size, next, left := overflow, i, 0;
    BeginPassed(blocks, i, at, overflow, end);
    while next < |blocks| && blocks[next].at < end
      invariant left == 0 && Passed(blocks, next, at, end) && size == UsedBy(blocks, next, at, end)
    {
      var b := blocks[next];
      if b.at + b.size > end {
        left := b.size - (end - b.at);
        size := size + b.size - left;
        EndOver(blocks, next, at, end);
        next := next + 1;
        break;
      } else {
        size := size + b.size;
        PassOne(blocks, next, at, end);
      }
      next := next + 1;
    }
    if left == 0 { EndPassed(blocks, next, at, end); }
  }

  lemma PassOne(blocks: seq<Block>, i: nat, at: nat, end: nat)
    requires Passed(blocks, i, at, end) && i < |blocks| && blocks[i].at + blocks[i].size <= end
    ensures Passed(blocks, i + 1, at, end) && Overlap(blocks[i], at, end) == blocks[i].size
  {
  }

  lemma BeginPassed(blocks: seq<Block>, i: nat, at: nat, overflow: nat, end: nat)
    requires Carried(blocks, i, at, overflow) && at + overflow < end
    ensures Passed(blocks, i, at, end)
  {
  }

  lemma EndPassed(blocks: seq<Block>, i: nat, at: nat, end: nat)
    requires Apart(blocks) && Passed(blocks, i, at, end) && (i < |blocks| ==> end <= blocks[i].at)
    ensures Carried(blocks, i, end, 0) && Used(blocks, at, end) == UsedBy(blocks, i, at, end)
  {
    NothingAdded(blocks, i, |blocks|, at, end);
  }

  lemma EndOver(blocks: seq<Block>, i: nat, at: nat, end: nat)
    requires Apart(blocks) && Passed(blocks, i, at, end) && i < |blocks|
    requires blocks[i].at < end < blocks[i].at + blocks[i].size
    ensures Carried(blocks, i + 1, end, blocks[i].at + blocks[i].size - end)
    ensures Used(blocks, at, end) == UsedBy(blocks, i + 1, at, end) && Overlap(blocks[i], at, end) == end - blocks[i].at
  {
    NothingAdded(blocks, i + 1, |blocks|, at, end);
  }

  /** The blocks before `i` end on the page or before, the others do not begin before it. */
  ghost predicate Passed(blocks: seq<Block>, i: nat, at: nat, end: nat) {
    && i <= |blocks| && (forall j :: 0 <= j < i ==> blocks[j].at + blocks[j].size <= end)
    && (forall j :: i <= j < |blocks| ==> at <= blocks[j].at)
  }

  /** The full tenths of a page in use. */
  function Tenths(size: nat, pageSize: nat): (d: nat)
    requires size < pageSize
    ensures d < 10 && d * pageSize <= 10 * size < (d + 1) * pageSize
  {
    var d := size * 10 / pageSize;
    assert size * 10 == d * pageSize + size * 10 % pageSize;
    assert (d + 1) * pageSize == d * pageSize + pageSize;
    assert d >= 10 ==> d * pageSize >= 10 * pageSize;
    d
  }

  function Mark(size: nat, pageSize: nat): char
    requires pageSize > 0
  {
    if size == 0 then ' '
    else if size == pageSize then '#'
    else if size < pageSize then '0' + Tenths(size, pageSize) as char
    else '*'
  }

  /** Sweeps over the pages of the area. */
  method WriteMemoryMap(blocks: seq<Block>, from: nat, to: nat, pageSize: nat) returns (sizes: seq<nat>, marks: string)
    requires pageSize > 0 && from <= to && Apart(blocks)
    requires forall j :: 0 <= j < |blocks| ==> from <= blocks[j].at
    ensures |sizes| == (to - from) / pageSize && PerPage(sizes, blocks, from, pageSize)
    ensures |marks| == |sizes| && forall p :: 0 <= p < |marks| ==> marks[p] == Mark(sizes[p], pageSize) && marks[p] != '*'
  {
    var pages := (to - from) / pageSize;
    var page, overflow, i := 0, 0, 0;
    sizes, marks := [], [];
    while page < pages
      invariant page <= pages && |sizes| == |marks| == page
      invariant Carried(blocks, i, PageAt(from, page, pageSize), overflow)
      invariant PerPage(sizes, blocks, from, pageSize)
      invariant forall p :: 0 <= p < page ==> marks[p] == Mark(sizes[p], pageSize)
    {
      var at := page * pageSize + from;
      NextPage(from, page, pageSize);
      var size;
      size, i, overflow := SweepPage(blocks, i, at, overflow, pageSize);
      sizes := sizes + [size];
      marks := marks + [Mark(size, pageSize)];
      page := page + 1;
    }
    NoPageOverfull(sizes, blocks, from, pageSize);
    forall p | 0 <= p < |marks| ensures marks[p] != '*' {
      MarkMeaning(sizes[p], pageSize);
    }
  }

  // ---------------------------------------------------------------- the characters

  /** The digit that the legend gives to a page: more than its tenths, up to the next. */
  ghost predicate InLegend(size: nat, pageSize: nat, digit: nat) {
    digit * pageSize < 10 * size <= (digit + 1) * pageSize
  }

  lemma MarkMeaning(size: nat, pageSize: nat)
    requires pageSize > 0
    ensures Mark(size, pageSize) == ' ' <==> size == 0
    ensures Mark(size, pageSize) == '#' <==> size == pageSize
    ensures Mark(size, pageSize) == '*' <==> size > pageSize
  {
  }

  /** A digit means what the legend says if and only if the page is not filled to whole tenths. */
  lemma DigitMeaning(size: nat, pageSize: nat)
    requires 0 < size < pageSize
    ensures Mark(size, pageSize) == '0' + Tenths(size, pageSize) as char
    ensures InLegend(size, pageSize, Tenths(size, pageSize)) <==> 10 * size % pageSize != 0
  {
    var d, r := Tenths(size, pageSize), size * 10 % pageSize;
    assert size * 10 == d * pageSize + r;
  }
}
