/**
 The bootstrap allocator of the memory tracing module, as values: chunks follow each other in a small
 array, each behind a header with its size plus four. Only the last chunk can be given back or resized
 in place. Every request is a computation on the bytes; what it keeps is proved about that computation.
 */
module EmuView {
  import opened TraceTypes
  import opened Bytes

  const HEAP_SIZE: nat := 4096
  const HEAP_ALIGN: nat := 8

  /** How many addresses a pointer of 4 or 8 bytes tells apart; sizes have the same width. */
  function Space(word: nat): nat {
    if word == 4 then 0x1_0000_0000 else 0x1_0000_0000_0000_0000
  }

  /** There is an address for every value of the bytes of a pointer. */
  lemma SpaceOfBytes()
    ensures Space(4) == Pow256(4) && Space(8) == Pow256(8)
  {
    Pow256Values();
    assert Pow256(8) == 256 * (256 * (256 * (256 * Pow256(4)))) by {
      assert Pow256(5) == 256 * Pow256(4) && Pow256(6) == 256 * Pow256(5) && Pow256(7) == 256 * Pow256(6);
    }
  }

  predicate PowerOfTwo(n: nat) {
    n == 1 || (n > 1 && n % 2 == 0 && PowerOfTwo(n / 2))
  }

  ghost function Power2(k: nat): nat {
    if k == 0 then 1 else 2 * Power2(k - 1)
  }

  lemma {:induction false} PowerFound(n: nat) returns (k: nat)
    requires PowerOfTwo(n)
    ensures n == Power2(k)
  {
    if n == 1 {
      k := 0;
    } else {
      k := PowerFound(n / 2);
      k := k + 1;
    }
  }

  lemma {:induction false} IsPower(k: nat)
    ensures PowerOfTwo(Power2(k))
  {
    if k > 0 { IsPower(k - 1); }
  }

  /** A pointer size times a power of two. */
  ghost predicate WordPower(n: nat, word: nat) {
    exists k: nat :: n == word * Power2(k)
  }

  /** The test of the alignment is right. */
  lemma GoodAlignments(n: nat, word: nat)
    requires word == 4 || word == 8
    ensures GoodAlignment(n, word) <==> WordPower(n, word)
  {
    if GoodAlignment(n, word) {
      var k := PowerFound(n);
      LowPowers(k);
      assert n == word * Power2(if word == 4 then k - 2 else k - 3);
    }
    if k: nat :| n == word * Power2(k) {
      IsPower(k + 2);
      IsPower(k + 3);
      FourPower(k);
      MultipleMod(Power2(k), word);
    }
  }

  lemma FourPower(k: nat)
    ensures Power2(k + 2) == 4 * Power2(k) && Power2(k + 3) == 8 * Power2(k)
  {
    assert Power2(k + 1) == 2 * Power2(k);
    assert Power2(k + 2) == 2 * Power2(k + 1);
  }

  lemma LowPowers(k: nat)
    ensures Power2(k) % 4 == 0 ==> k >= 2 && Power2(k) == 4 * Power2(k - 2)
    ensures Power2(k) % 8 == 0 ==> k >= 3 && Power2(k) == 8 * Power2(k - 3)
  {
    assert Power2(0) == 1 && Power2(1) == 2 && Power2(2) == 4;
    if k >= 2 { FourPower(k - 2); }
    if k >= 3 { FourPower(k - 3); }
  }

  /** The distance from `x` up to the next multiple of `align`. */
  function Gap(x: nat, align: nat): nat
    requires align > 0
  {
    var offset := x % align;
    if offset == 0 then 0 else align - offset
  }

  lemma GapAligns(x: nat, a: nat)
    requires a > 0
    ensures x % a != 0 ==> (x + a - x % a) % a == 0
  {
    MultipleMod(x / a + 1, a);
    assert x == a * (x / a) + x % a;
    assert a * (x / a + 1) == a * (x / a) + a;
  }

  lemma MultipleMod(k: nat, a: nat)
    requires a > 0
    ensures (a * k) % a == 0
  {
    var q, r := (a * k) / a, (a * k) % a;
    assert a * k == a * q + r;
    assert a * (k - q) == r;
    SmallMultiple(k - q, a, r);
  }

  lemma SmallMultiple(d: int, a: nat, r: nat)
    requires a * d == r && r < a
    ensures r == 0
  {
    assert d >= 1 ==> a * d >= a;
    assert d <= 0 ==> a * d <= 0;
  }

  /** A power of two from eight on is a multiple of eight. */
  lemma {:induction false} EightDivides(n: nat)
    requires PowerOfTwo(n) && n >= 8
    ensures n % 8 == 0
  {
    var half := n / 2;
    assert n == 2 * half;
    if half >= 8 {
      EightDivides(half);
    } else {
      var quarter := half / 2;
      assert half == 2 * quarter && PowerOfTwo(quarter);
      assert quarter == 2 * (quarter / 2);
    }
  }

  lemma CoarserAligned(x: nat, a: nat)
    requires a > 0 && a % 8 == 0 && x % a == 0
    ensures x % 8 == 0
  {
    var k, m := a / 8, x / a;
    assert a == 8 * k && x == a * m;
    assert x == 8 * (k * m) by { assert (8 * k) * m == 8 * (k * m); }
  }

  lemma GapAlignsBoth(x: nat, align: nat)
    requires PowerOfTwo(align) && align >= HEAP_ALIGN
    ensures (x + Gap(x, align)) % align == 0 && (x + Gap(x, align)) % HEAP_ALIGN == 0
  {
    EightDivides(align);
    GapAligns(x, align);
    CoarserAligned(x + Gap(x, align), align);
  }

  // ---------------------------------------------------------------- what holds of the heap

  /** The double word at an offset. */
  ghost function DwordAt(m: Bytes, at: nat): nat
    requires at + 4 <= |m|
  {
    Decode(m[at..at + 4])
  }

  /**
   The heap: its bytes, the address of the first one, the header of the last chunk, the chunks in use
   with the sizes asked for, and the size of a pointer.
   */
  datatype View = View(mem: Bytes, base: nat, tail: nat, live: map<nat, nat>, word: nat)

  ghost predicate Sized(v: View) {
    && |v.mem| == HEAP_SIZE && v.tail + 4 <= HEAP_SIZE
    && (v.word == 4 || v.word == 8) && v.base + HEAP_SIZE < Space(v.word)
  }

  /** A chunk lies inside the heap behind its header, aligned, and only the last one reaches past the tail. */
  ghost predicate ChunkSound(v: View, p: nat)
    requires Sized(v) && p in v.live
  {
    && 4 <= p && p + v.live[p] < HEAP_SIZE && (v.base + p) % HEAP_ALIGN == 0
    && DwordAt(v.mem, p - 4) == v.live[p] + 4
    && (p != v.tail + 4 ==> p + v.live[p] <= v.tail)
  }

  /** Chunks and their headers are pairwise disjoint. */
  ghost predicate Disjoint(live: map<nat, nat>) {
    forall p, q :: p in live && q in live && p < q ==> p + live[p] + 4 <= q
  }

  ghost predicate Sound(v: View) {
    && Sized(v) && v.tail + DwordAt(v.mem, v.tail) < HEAP_SIZE
    && (forall p :: p in v.live ==> ChunkSound(v, p))
    && Disjoint(v.live)
  }

  predicate SameMachine(v: View, w: View) {
    w.base == v.base && w.word == v.word
  }

  /** The first free byte behind the last chunk. */
  ghost function UsedEnd(v: View): nat
    requires Sized(v)
  {
    v.tail + DwordAt(v.mem, v.tail)
  }

  lemma BeforeUsedEnd(v: View, q: nat)
    requires Sound(v) && q in v.live
    ensures q + v.live[q] <= UsedEnd(v)
  {
    assert ChunkSound(v, q);
  }

  /** The bytes of a chunk in use. */
  ghost function Chunk(v: View, p: nat): Bytes {
    if p in v.live && p + v.live[p] <= |v.mem| then v.mem[p..p + v.live[p]] else []
  }

  /** A chunk that is in use before and after, with the same size and the same bytes. */
  ghost predicate Kept(v: View, w: View, p: nat) {
    p in v.live && p in w.live && w.live[p] == v.live[p] && Chunk(w, p) == Chunk(v, p)
  }

  /** No chunk changes, except perhaps the one named. */
  ghost predicate KeepsOthers(v: View, w: View, but: Option<nat>) {
    forall p :: p in v.live && Some(p) != but ==> Kept(v, w, p)
  }

  lemma KeepsOthersOn(u: View, v: View, w: View, but: Option<nat>)
    requires KeepsOthers(u, v, but) && (KeepsOthers(v, w, None) || KeepsOthers(v, w, but))
    ensures KeepsOthers(u, w, but)
  {
  }

  ghost predicate Zeros(s: Bytes) {
    forall i :: 0 <= i < |s| ==> s[i] == 0
  }

  ghost predicate SameOutside(m: Bytes, m': Bytes, from: nat, to: nat) {
    |m| == |m'| && forall i :: 0 <= i < |m| && !(from <= i < to) ==> m'[i] == m[i]
  }

  lemma SameSlice(m: Bytes, m': Bytes, from: nat, to: nat, a: nat, b: nat)
    requires SameOutside(m, m', from, to) && a <= b <= |m| && (b <= from || to <= a)
    ensures m'[a..b] == m[a..b]
  {
  }

  /** Writing a header behind everything in use makes a new last chunk and disturbs no other. */
  lemma PlacedSound(v: View, m: Bytes, p: nat, size: nat)
    requires Sound(v) && UsedEnd(v) + 4 <= p && p + size < HEAP_SIZE && (v.base + p) % HEAP_ALIGN == 0
    requires SameOutside(v.mem, m, p - 4, p) && DwordAt(m, p - 4) == size + 4
    ensures Placed(v, v.(mem := m, tail := p - 4, live := v.live[p := size]), p, size)
  {
    var w := v.(mem := m, tail := p - 4, live := v.live[p := size]);
    forall q | q in v.live
      ensures q + v.live[q] + 4 <= p && Kept(v, w, q) && ChunkSound(w, q)
    {
      PlacedBeside(v, m, p, size, q);
    }
    assert ChunkSound(w, p);
    PlacedDisjoint(v.live, p, size);
  }

  lemma PlacedBeside(v: View, m: Bytes, p: nat, size: nat, q: nat)
    requires Sound(v) && q in v.live && UsedEnd(v) + 4 <= p && p + size < HEAP_SIZE
    requires SameOutside(v.mem, m, p - 4, p)
    ensures q + v.live[q] + 4 <= p && Kept(v, v.(mem := m, tail := p - 4, live := v.live[p := size]), q)
    ensures ChunkSound(v.(mem := m, tail := p - 4, live := v.live[p := size]), q)
  {
    assert ChunkSound(v, q);
    var end := q + v.live[q];
    SameSlice(v.mem, m, p - 4, p, q, end);
    HeaderKept(v.mem, m, p - 4, p, q);
  }

  lemma HeaderKept(m: Bytes, m': Bytes, from: nat, to: nat, q: nat)
    requires SameOutside(m, m', from, to) && 4 <= q <= |m| && (q <= from || to <= q - 4)
    ensures DwordAt(m', q - 4) == DwordAt(m, q - 4)
  {
    SameSlice(m, m', from, to, q - 4, q);
  }

  lemma PlacedDisjoint(live: map<nat, nat>, p: nat, size: nat)
    requires Disjoint(live) && forall q :: q in live ==> q + live[q] + 4 <= p
    ensures Disjoint(live[p := size])
  {
  }

  /** The alignment used for one that is asked for. */
  function Coarsened(alignment: nat): nat {
    if alignment < HEAP_ALIGN then HEAP_ALIGN else alignment
  }

  /** Where the next chunk with this alignment would begin. */
  ghost function NextAt(v: View, align: nat): nat
    requires Sized(v) && align > 0
  {
    UsedEnd(v) + 4 + Gap(v.base + UsedEnd(v) + 4, align)
  }

  /** Where a resized chunk goes. */
  ghost function ResizedAt(v: View, ptr: Option<nat>): nat
    requires Sized(v)
  {
    if ptr == Some(v.tail + 4) then v.tail + 4 else NextAt(v, HEAP_ALIGN)
  }

  /** One chunk more is in use, aligned, and every other chunk is as before. */
  ghost predicate OneMore(v: View, w: View, p: nat, size: nat) {
    && SameMachine(v, w) && (w.base + p) % HEAP_ALIGN == 0
    && p !in v.live && w.live == v.live[p := size] && KeepsOthers(v, w, None)
  }

  /** The heap is sound with one chunk more. */
  ghost predicate Allocated(v: View, w: View, p: nat, size: nat) {
    Sound(w) && OneMore(v, w, p, size)
  }

  /** A new last chunk, with nothing written but its header. */
  ghost predicate Placed(v: View, w: View, p: nat, size: nat) {
    && Allocated(v, w, p, size) && w.tail + 4 == p && SameOutside(v.mem, w.mem, p - 4, p)
  }

  lemma AllocatedStays(v: View, w: View, x: View, p: nat, size: nat)
    requires Allocated(v, w, p, size) && Sound(x) && x == w.(mem := x.mem) && KeepsOthers(w, x, Some(p))
    ensures Allocated(v, x, p, size)
  {
    KeepsOthersApart(v, w, x, None, p);
  }

  /** A change to a chunk that was not in use before the earlier step, or not kept by it, keeps as much. */
  lemma KeepsOthersApart(v: View, w: View, x: View, but: Option<nat>, p: nat)
    requires KeepsOthers(v, w, but) && KeepsOthers(w, x, Some(p)) && (p !in v.live || Some(p) == but)
    ensures KeepsOthers(v, x, but)
  {
    forall q | q in v.live && Some(q) != but ensures Kept(v, x, q) {
      assert Kept(v, w, q) && Kept(w, x, q);
    }
  }

  /** One chunk fewer is in use, and every other chunk is as before. */
  ghost predicate OneLess(v: View, w: View, p: nat) {
    SameMachine(v, w) && w.tail == v.tail && w.live == v.live - {p} && KeepsOthers(v, w, Some(p))
  }

  /** One chunk fewer; if it was the last, its place is free again, else no byte changed. */
  ghost predicate Freed(v: View, w: View, p: nat) {
    && Sound(w) && OneLess(v, w, p)
    && if p == v.tail + 4 then UsedEnd(w) == w.tail && SameOutside(v.mem, w.mem, v.tail, v.tail + 4) else w.mem == v.mem
  }

  lemma SmallPowers(n: nat, pointerSize: nat)
    requires PowerOfTwo(n) && (pointerSize == 4 || pointerSize == 8) && n % pointerSize == 0
    ensures n < HEAP_ALIGN ==> n == 4
  {
  }

  /** What is aligned for the larger boundary is aligned for the one asked for. */
  lemma CoarsenedAligned(x: nat, alignment: nat, pointerSize: nat)
    requires PowerOfTwo(alignment) && (pointerSize == 4 || pointerSize == 8) && alignment % pointerSize == 0
    requires x % Coarsened(alignment) == 0 && x % HEAP_ALIGN == 0
    ensures x % alignment == 0
  {
    SmallPowers(alignment, pointerSize);
    FinerAligned(x, alignment);
  }

  lemma FinerAligned(x: nat, n: nat)
    requires x % HEAP_ALIGN == 0 && n > 0 && (n < HEAP_ALIGN ==> n == 4) && (n >= HEAP_ALIGN ==> x % n == 0)
    ensures x % n == 0
  {
    if n == 4 { assert x == 4 * (2 * (x / 8)); }
  }

  /** Without a chunk, and with its header cleared if it was the last one, the heap is sound. */
  lemma FreedSound(v: View, m: Bytes, p: nat)
    requires Sound(v) && p in v.live
    requires if p == v.tail + 4 then SameOutside(v.mem, m, v.tail, v.tail + 4) && DwordAt(m, v.tail) == 0 else m == v.mem
    ensures Freed(v, v.(mem := m, live := v.live - {p}), p)
  {
    var w := v.(mem := m, live := v.live - {p});
    forall q | q in v.live && q != p
      ensures ChunkSound(w, q) && Kept(v, w, q)
    {
      FreedBeside(v, m, p, q);
    }
  }

  lemma FreedBeside(v: View, m: Bytes, p: nat, q: nat)
    requires Sound(v) && p in v.live && q in v.live && q != p
    requires if p == v.tail + 4 then SameOutside(v.mem, m, v.tail, v.tail + 4) else m == v.mem
    ensures ChunkSound(v.(mem := m, live := v.live - {p}), q) && Kept(v, v.(mem := m, live := v.live - {p}), q)
  {
    assert ChunkSound(v, q);
    if p == v.tail + 4 {
      HeaderKept(v.mem, m, v.tail, v.tail + 4, q);
      SameSlice(v.mem, m, v.tail, v.tail + 4, q, q + v.live[q]);
    }
  }

  /** After freeing the last chunk the next place is where it was; after freeing another, nothing moved. */
  lemma PlaceAfterFree(v: View, w: View, p: nat)
    requires Sound(v) && p in v.live && Freed(v, w, p)
    ensures NextAt(w, HEAP_ALIGN) == ResizedAt(v, Some(p))
  {
    if p == v.tail + 4 {
      LastFreed(v, w, p);
      PlaceOfLast(w, p);
    } else {
      SamePlace(v, w);
    }
  }

  lemma LastFreed(v: View, w: View, p: nat)
    requires Sound(v) && p in v.live && Freed(v, w, p) && p == v.tail + 4
    ensures Sized(w) && p == w.tail + 4 && UsedEnd(w) == w.tail && (w.base + p) % HEAP_ALIGN == 0
  {
    ChunkAligned(v, p, w.base);
  }

  lemma ChunkAligned(v: View, p: nat, base: nat)
    requires Sound(v) && p in v.live && base == v.base
    ensures (base + p) % HEAP_ALIGN == 0
  {
    assert ChunkSound(v, p);
  }

  /** Behind an empty last chunk the next place is its own. */
  lemma PlaceOfLast(w: View, p: nat)
    requires Sized(w) && p == w.tail + 4 && UsedEnd(w) == w.tail && (w.base + p) % HEAP_ALIGN == 0
    ensures NextAt(w, HEAP_ALIGN) == p
  {
    NoGap(w.base + UsedEnd(w) + 4, HEAP_ALIGN);
  }

  lemma SamePlace(v: View, w: View)
    requires Sized(v) && Sized(w) && v.mem == w.mem && v.tail == w.tail && v.base == w.base
    ensures NextAt(w, HEAP_ALIGN) == NextAt(v, HEAP_ALIGN)
  {
  }

  lemma NoGap(x: nat, align: nat)
    requires align > 0 && x % align == 0
    ensures Gap(x, align) == 0
  {
  }

  /** Two chunks hold the same bytes up to the smaller size. */
  ghost predicate SameFront(s: Bytes, t: Bytes) {
    forall i :: 0 <= i < |s| && i < |t| ==> t[i] == s[i]
  }

  ghost predicate BytesAt(m: Bytes, p: nat, s: Bytes) {
    p + |s| <= |m| && m[p..p + |s|] == s
  }

  /** The first `n` bytes of a chunk are those that memory has at `src`. */
  ghost predicate FrontFrom(t: Bytes, n: nat, m: Bytes, src: nat) {
    n <= |t| && src + n <= |m| && t[..n] == m[src..src + n]
  }

  /** Which chunks are in use after one got a new place, and what the others keep. */
  ghost predicate Replaced(v: View, w: View, p: nat, dst: nat, size: nat) {
    && p in v.live && w.live == (v.live - {p})[dst := size] && (w.base + dst) % HEAP_ALIGN == 0
    && KeepsOthers(v, w, Some(p)) && SameMachine(v, w) && (dst != p ==> dst !in v.live)
  }

  /** The bytes of the chunk are still at the old address, and not in the way of the new place. */
  ghost predicate StillAt(v: View, m: Bytes, p: nat, dst: nat) {
    p in v.live && BytesAt(m, p, Chunk(v, p)) && |Chunk(v, p)| == v.live[p] && (dst != p ==> p + v.live[p] + 4 <= dst)
  }

  /** A chunk's place changed and its bytes are still in memory, at the old address. */
  ghost predicate Moved(v: View, w: View, p: nat, dst: nat, size: nat) {
    Sound(w) && Replaced(v, w, p, dst, size) && StillAt(v, w.mem, p, dst)
  }

  /** A chunk has its new size, the bytes that fit, and no other chunk changed. */
  ghost predicate Resized(v: View, w: View, p: nat, dst: nat, size: nat) {
    && Sound(w) && p in v.live && w.live == (v.live - {p})[dst := size] && (w.base + dst) % HEAP_ALIGN == 0
    && KeepsOthers(v, w, Some(p)) && SameMachine(v, w)
    && |Chunk(v, p)| == v.live[p] && |Chunk(w, dst)| == size && SameFront(Chunk(v, p), Chunk(w, dst))
  }

  lemma FreedThenPlaced(v: View, f: View, w: View, p: nat, dst: nat, size: nat)
    requires Freed(v, f, p) && Placed(f, w, dst, size) && StillAt(v, w.mem, p, dst)
    ensures Moved(v, w, p, dst, size)
  {
    FreedThenReplaced(v, f, w, p, dst, size);
  }

  lemma FreedThenReplaced(v: View, f: View, w: View, p: nat, dst: nat, size: nat)
    requires p in v.live && OneLess(v, f, p) && OneMore(f, w, dst, size)
    ensures Replaced(v, w, p, dst, size)
  {
    KeepsOthersOn(v, f, w, Some(p));
  }

  lemma StillThere(v: View, f: View, m: Bytes, p: nat, dst: nat)
    requires Sound(v) && p in v.live && Freed(v, f, p) && 4 <= dst <= HEAP_SIZE
    requires SameOutside(f.mem, m, dst - 4, dst) && dst == ResizedAt(v, Some(p))
    ensures StillAt(v, m, p, dst)
  {
    var end := p + v.live[p];
    OldPlace(v, p);
    BytesStay(v.mem, f.mem, m, v.tail, dst, p, end);
  }

  /** Where a chunk lies that is to be resized. */
  lemma OldPlace(v: View, p: nat)
    requires Sound(v) && p in v.live
    ensures p + v.live[p] < HEAP_SIZE
    ensures if ResizedAt(v, Some(p)) == p then p == v.tail + 4 else p != v.tail + 4 && p + v.live[p] + 4 <= ResizedAt(v, Some(p))
  {
    assert ChunkSound(v, p);
    BeforeUsedEnd(v, p);
  }

  lemma BytesStay(before: Bytes, freed: Bytes, m: Bytes, tail: nat, dst: nat, p: nat, end: nat)
    requires p <= end <= |before| && dst >= 4 && SameOutside(freed, m, dst - 4, dst)
    requires if p == tail + 4 then SameOutside(before, freed, tail, tail + 4) else freed == before
    requires dst == p || end + 4 <= dst
    ensures |m| == |before| && m[p..end] == before[p..end]
  {
    if p == tail + 4 { SameSlice(before, freed, tail, tail + 4, p, end); }
    SameSlice(freed, m, dst - 4, dst, p, end);
  }

  /** Bytes of one chunk were copied from before it. */
  ghost predicate Copied(v: View, w: View, p: nat, src: nat, n: nat) {
    && w == v.(mem := w.mem) && Sound(w) && KeepsOthers(v, w, Some(p))
    && FrontFrom(Chunk(w, p), n, v.mem, src)
  }

  lemma CopiedSound(v: View, m: Bytes, p: nat, src: nat, n: nat)
    requires Sound(v) && p in v.live && n <= v.live[p] && src + n <= p && SameOutside(v.mem, m, p, p + n)
    requires p + n <= |v.mem| && m[p..p + n] == v.mem[src..src + n]
    ensures Copied(v, v.(mem := m), p, src, n)
  {
    ChunkRewritten(v, m, p);
    assert ChunkSound(v, p);
    FrontOfSlice(m, p, n, v.live[p]);
  }

  lemma FrontOfSlice(m: Bytes, p: nat, n: nat, size: nat)
    requires n <= size && p + size <= |m|
    ensures m[p..p + size][..n] == m[p..p + n]
  {
  }

  lemma MovedThenCopied(v: View, w: View, x: View, p: nat, dst: nat, size: nat)
    requires Moved(v, w, p, dst, size)
    requires if dst == p then x == w else Copied(w, x, dst, p, CopyLength(v, p, size))
    ensures Resized(v, x, p, dst, size)
  {
    ChunkLength(x, dst);
    if dst == p {
      FrontKept(x.mem, p, Chunk(v, p), size);
    } else {
      KeepsOthersApart(v, w, x, Some(p), dst);
      CopiedFront(Chunk(v, p), Chunk(x, dst), w.mem, p, CopyLength(v, p, size));
    }
  }

  lemma ChunkLength(v: View, p: nat)
    requires Sound(v) && p in v.live
    ensures |Chunk(v, p)| == v.live[p] && p + v.live[p] <= |v.mem|
  {
    assert ChunkSound(v, p);
  }

  lemma FrontKept(m: Bytes, p: nat, s: Bytes, size: nat)
    requires BytesAt(m, p, s) && p + size <= |m|
    ensures SameFront(s, m[p..p + size])
  {
    forall i | 0 <= i < |s| && i < size ensures m[p..p + size][i] == s[i] {
      assert m[p..p + |s|][i] == m[p + i];
    }
  }

  lemma CopiedFront(s: Bytes, t: Bytes, m: Bytes, p: nat, n: nat)
    requires BytesAt(m, p, s) && FrontFrom(t, n, m, p)
    requires n == if |t| > |s| + 4 then |s| + 4 else |t|
    ensures SameFront(s, t)
  {
    forall i | 0 <= i < |s| && i < |t| ensures t[i] == s[i] {
      assert t[..n][i] == m[p..p + n][i] && m[p..p + |s|][i] == m[p + i];
    }
  }

  lemma EightIsPower()
    ensures PowerOfTwo(HEAP_ALIGN)
  {
    assert PowerOfTwo(4) && PowerOfTwo(2) && PowerOfTwo(1);
  }

  /** The size that `calloc` computes in an integer. */
  function CallocSize(count: nat, size: nat): int {
    Signed32(count * size)
  }

  lemma CallocExact(count: nat, size: nat)
    ensures CallocSize(count, size) == count * size <==> count * size < 0x8000_0000
  {
  }

  /** Changing only the bytes of one chunk leaves the heap sound and the other chunks as they are. */
  lemma ChunkRewritten(v: View, m: Bytes, p: nat)
    requires Sound(v) && p in v.live && SameOutside(v.mem, m, p, p + v.live[p])
    ensures Sound(v.(mem := m)) && KeepsOthers(v, v.(mem := m), Some(p))
  {
    var w := v.(mem := m);
    assert ChunkSound(v, p);
    forall q | q in v.live ensures ChunkSound(w, q) && (q != p ==> Kept(v, w, q)) {
      RewrittenBeside(v, m, p, q);
    }
    TailKept(v, m, p);
  }

  lemma RewrittenBeside(v: View, m: Bytes, p: nat, q: nat)
    requires Sound(v) && p in v.live && q in v.live && SameOutside(v.mem, m, p, p + v.live[p])
    ensures ChunkSound(v.(mem := m), q)
    ensures q != p ==> Kept(v, v.(mem := m), q)
  {
    assert ChunkSound(v, p) && ChunkSound(v, q);
    var end, stop := p + v.live[p], q + v.live[q];
    HeaderKept(v.mem, m, p, end, q);
    if q != p { SameSlice(v.mem, m, p, end, q, stop); }
  }

  lemma TailKept(v: View, m: Bytes, p: nat)
    requires Sound(v) && p in v.live && SameOutside(v.mem, m, p, p + v.live[p])
    ensures DwordAt(m, v.tail) == DwordAt(v.mem, v.tail)
  {
    assert ChunkSound(v, p);
    HeaderKept(v.mem, m, p, p + v.live[p], v.tail + 4);
  }

  // ---------------------------------------------------------------- the requests, computed

  /** A double word written over four bytes. */
  ghost function PutAt(m: Bytes, at: nat, x: nat): Bytes
    requires at + 4 <= |m|
  {
    m[..at] + Dword(x) + m[at + 4..]
  }

  lemma PutThere(m: Bytes, at: nat, x: nat)
    requires at + 4 <= |m| && x < U32
    ensures DwordAt(PutAt(m, at, x), at) == x && SameOutside(m, PutAt(m, at, x), at, at + 4)
  {
    assert PutAt(m, at, x)[at..at + 4] == Dword(x);
    DecodeDword(x);
  }

  /** `n` zero bytes. */
  ghost function Blank(n: nat): (s: Bytes)
    ensures |s| == n && Zeros(s)
  {
    seq(n, i => 0)
  }

  /** Bytes written over others. */
  ghost function Over(m: Bytes, at: nat, s: Bytes): Bytes
    requires at + |s| <= |m|
  {
    m[..at] + s + m[at + |s|..]
  }

  lemma OverThere(m: Bytes, at: nat, s: Bytes)
    requires at + |s| <= |m|
    ensures Over(m, at, s)[at..at + |s|] == s && SameOutside(m, Over(m, at, s), at, at + |s|)
  {
  }

  lemma OverIs(m: Bytes, m': Bytes, at: nat, s: Bytes)
    requires at + |s| <= |m| && SameOutside(m, m', at, at + |s|) && m'[at..at + |s|] == s
    ensures m' == Over(m, at, s)
  {
  }

  /** What a request comes back with; `Astray` stands for a write outside the array of the heap. */
  datatype Reply = Given(at: nat) | Done | Refused | Exited | Astray

  datatype Effect = Effect(view: View, reply: Reply)

  datatype Request =
    | Malloc(size: nat)
    | Calloc(count: nat, size: nat)
    | Memalign(alignment: nat, size: nat)
    | Realloc(ptr: Option<nat>, size: nat)
    | Free(ptr: Option<nat>)
    | Store(p: nat, at: nat, b: Byte)

  /** What callers owe: pointers to chunks in use, writes inside them, and arguments of their C types. */
  ghost predicate Legal(v: View, r: Request) {
    match r
    case Malloc(size) => size < Space(v.word)
    case Calloc(count, size) => count < Space(v.word) && size < Space(v.word)
    case Memalign(alignment, size) => alignment < Space(v.word) && size < Space(v.word)
    case Realloc(ptr, size) => (ptr.Some? ==> ptr.value in v.live) && size < Space(v.word)
    case Free(ptr) => ptr.Some? ==> ptr.value in v.live
    case Store(p, at, _) => p in v.live && at < v.live[p]
  }

  /** A sum of two addresses, as a pointer holds it. */
  function Cut(x: nat, word: nat): nat {
    if x >= Space(word) then x - Space(word) else x
  }

  /** The test against the end of the heap, in the arithmetic of pointers. */
  predicate Passes(v: View, at: nat, size: nat) {
    Cut(Cut(v.base + at, v.word) + size, v.word) < v.base + HEAP_SIZE
  }

  predicate Wraps(v: View, at: nat, size: nat) {
    v.base + at + size >= Space(v.word)
  }

  /** The sum wraps around to an address that passes the test. */
  predicate Slips(v: View, at: nat, size: nat) {
    Wraps(v, at, size) && Passes(v, at, size)
  }

  /** Without wrapping the test is right; a wrapping sum for a place inside the heap always passes it. */
  lemma PassesExactly(v: View, at: nat, size: nat)
    requires Sized(v) && size < Space(v.word)
    ensures !Wraps(v, at, size) ==> (Passes(v, at, size) <==> at + size < HEAP_SIZE)
    ensures at <= HEAP_SIZE ==> (Slips(v, at, size) <==> Wraps(v, at, size))
  {
  }

  /** A number as a header holds it. */
  function Low32(x: nat): nat {
    if x < U32 then x else x % U32
  }

  /** A header in front of the place, which becomes the last chunk. */
  ghost function Headed(v: View, at: nat, size: nat): View
    requires Sized(v) && 4 <= at <= HEAP_SIZE
  {
    v.(mem := PutAt(v.mem, at - 4, Low32(size + 4)), tail := at - 4, live := v.live[at := size])
  }

  ghost function AllocStep(v: View, size: nat, align: nat): Effect
    requires Sized(v) && align > 0
  {
    var at := NextAt(v, align);
    if !Passes(v, at, size) then Effect(v, Exited)
    else if at > HEAP_SIZE then Effect(v, Astray)
    else Effect(Headed(v, at, size), Given(at))
  }

  ghost function FreeStep(v: View, ptr: Option<nat>): View
    requires Sized(v)
  {
    if ptr.None? then v
    else v.(mem := if ptr.value == v.tail + 4 then PutAt(v.mem, v.tail, 0) else v.mem, live := v.live - {ptr.value})
  }

  /** The size argument that a signed 32-bit number becomes. */
  function SizeArg(total: int, word: nat): int {
    if total < 0 then total + Space(word) else total
  }

  ghost function CallocStep(v: View, count: nat, size: nat): Effect
    requires Sized(v)
  {
    CallocRange(count, size);
    var total := CallocSize(count, size);
    ClearStep(AllocStep(v, SizeArg(total, v.word), HEAP_ALIGN), total)
  }

  /** Zeros from the start of a chunk on; a count that is not positive clears nothing. */
  ghost function ClearStep(e: Effect, total: int): Effect
    requires |e.view.mem| == HEAP_SIZE
  {
    if !e.reply.Given? || total <= 0 then e
    else if e.reply.at + total > HEAP_SIZE then Effect(e.view, Astray)
    else e.(view := e.view.(mem := Over(e.view.mem, e.reply.at, Blank(total))))
  }

  predicate GoodAlignment(alignment: nat, word: nat)
    requires word > 0
  {
    alignment % word == 0 && PowerOfTwo(alignment)
  }

  /** How much a moved chunk is copied: its header counts itself too. */
  ghost function CopyLength(v: View, ptr: nat, size: nat): nat
    requires ptr in v.live
  {
    if size > v.live[ptr] + 4 then v.live[ptr] + 4 else size
  }

  ghost function ReallocStep(v: View, ptr: Option<nat>, size: nat): Effect
    requires Sized(v) && (ptr.Some? ==> ptr.value in v.live)
  {
    CopyStep(v, AllocStep(FreeStep(v, ptr), size, HEAP_ALIGN), ptr, size)
  }

  ghost function Perform(v: View, r: Request): Effect
    requires Sound(v) && Legal(v, r)
  {
    match r
    case Malloc(size) => AllocStep(v, size, HEAP_ALIGN)
    case Calloc(count, size) => CallocStep(v, count, size)
    case Memalign(alignment, size) =>
      if GoodAlignment(alignment, v.word) then AllocStep(v, size, Coarsened(alignment)) else Effect(v, Refused)
    case Realloc(ptr, size) => ReallocStep(v, ptr, size)
    case Free(ptr) => Effect(FreeStep(v, ptr), Done)
    case Store(p, at, b) =>
      assert ChunkSound(v, p);
      Effect(v.(mem := v.mem[p + at := b]), Done)
  }

  /** The request asks for a size whose end wraps around past the test. */
  ghost predicate RequestSlips(v: View, r: Request)
    requires Sized(v)
  {
    match r
    case Malloc(size) => Slips(v, NextAt(v, HEAP_ALIGN), size)
    case Calloc(count, size) =>
      CallocRange(count, size);
      Slips(v, NextAt(v, HEAP_ALIGN), SizeArg(CallocSize(count, size), v.word))
    case Memalign(alignment, size) =>
      GoodAlignment(alignment, v.word) && Slips(v, NextAt(v, Coarsened(alignment)), size)
    case Realloc(ptr, size) => Slips(v, ResizedAt(v, ptr), size)
    case _ => false
  }

  // ---------------------------------------------------------------- what an allocation keeps

  /** The heap is sound still, and nothing was written outside it. */
  ghost predicate Intact(e: Effect) {
    e.reply != Astray && Sound(e.view)
  }

  /** A chunk reaches past the end. */
  ghost predicate Oversized(v: View) {
    exists p: nat :: p in v.live && p + v.live[p] >= HEAP_SIZE
  }

  lemma SoundFits(v: View)
    requires Sound(v)
    ensures !Oversized(v)
  {
    forall p: nat | p in v.live ensures p + v.live[p] < HEAP_SIZE {
      assert ChunkSound(v, p);
    }
  }

  lemma OversizedUnsound(v: View)
    ensures Oversized(v) ==> !Sound(v)
  {
    if Sound(v) { SoundFits(v); }
  }

  /** The next place lies behind everything in use and is aligned as asked and to eight. */
  lemma NextFits(v: View, align: nat)
    requires Sized(v) && PowerOfTwo(align) && align >= HEAP_ALIGN
    ensures UsedEnd(v) + 4 <= NextAt(v, align)
    ensures (v.base + NextAt(v, align)) % align == 0 && (v.base + NextAt(v, align)) % HEAP_ALIGN == 0
  {
    var x := v.base + UsedEnd(v) + 4;
    GapAlignsBoth(x, align);
    assert v.base + NextAt(v, align) == x + Gap(x, align);
  }

  lemma HeadedPlaced(v: View, size: nat, align: nat)
    requires Sound(v) && PowerOfTwo(align) && align >= HEAP_ALIGN && NextAt(v, align) + size < HEAP_SIZE
    ensures var at := NextAt(v, align);
            Placed(v, Headed(v, at, size), at, size) && (v.base + at) % align == 0
  {
    NextFits(v, align);
    HeaderPlaced(v, NextAt(v, align), size);
  }

  lemma HeaderPlaced(v: View, at: nat, size: nat)
    requires Sound(v) && UsedEnd(v) + 4 <= at && at + size < HEAP_SIZE && (v.base + at) % HEAP_ALIGN == 0
    ensures Placed(v, Headed(v, at, size), at, size)
  {
    var m := PutAt(v.mem, at - 4, size + 4);
    PutThere(v.mem, at - 4, size + 4);
    assert Headed(v, at, size) == v.(mem := m, tail := at - 4, live := v.live[at := size]);
    PlacedSound(v, m, at, size);
  }

  lemma AllocPlace(v: View, size: nat, align: nat)
    requires Sized(v) && align > 0
    ensures var e := AllocStep(v, size, align);
            Sized(e.view) && SameMachine(v, e.view) && (e.reply.Given? ==> e.reply.at == NextAt(v, align) <= HEAP_SIZE)
  {
  }

  /** An allocation places a chunk or ends the process; it breaks the heap if and only if its size slips. */
  lemma AllocKeeps(v: View, size: nat, align: nat)
    requires Sound(v) && PowerOfTwo(align) && align >= HEAP_ALIGN && size < Space(v.word)
    ensures var at, e := NextAt(v, align), AllocStep(v, size, align);
            && (Intact(e) <==> !Slips(v, at, size))
            && (Slips(v, at, size) ==> e.reply == Astray || (e.reply.Given? && Oversized(e.view)))
            && (!Slips(v, at, size) ==>
                  if e.reply.Given? then
                    Placed(v, e.view, at, size) && e.reply.at == at && (v.base + at) % align == 0
                  else e == Effect(v, Exited))
  {
    var at, e := NextAt(v, align), AllocStep(v, size, align);
    PassesExactly(v, at, size);
    if Slips(v, at, size) {
      if at <= HEAP_SIZE {
        assert at in e.view.live && at + e.view.live[at] >= HEAP_SIZE;
        OversizedUnsound(e.view);
      }
    } else if Passes(v, at, size) {
      HeadedPlaced(v, size, align);
    }
  }

  lemma CallocRange(count: nat, size: nat)
    ensures -0x8000_0000 <= CallocSize(count, size) < 0x8000_0000
  {
  }

  /** Clearing a placed chunk leaves it allocated, with nothing but zeros. */
  lemma ClearKeeps(v: View, e: Effect, size: nat)
    requires e.reply.Given? && Placed(v, e.view, e.reply.at, size)
    ensures var f := ClearStep(e, size);
            f.reply == e.reply && Allocated(v, f.view, e.reply.at, size) && Zeros(Chunk(f.view, e.reply.at))
  {
    var p, w := e.reply.at, e.view;
    assert ChunkSound(w, p);
    if size > 0 {
      var m := Over(w.mem, p, Blank(size));
      OverThere(w.mem, p, Blank(size));
      ChunkRewritten(w, m, p);
      AllocatedStays(v, w, w.(mem := m), p, size);
    }
  }

  lemma ClearOversized(e: Effect, total: int)
    requires |e.view.mem| == HEAP_SIZE && (e.reply == Astray || (e.reply.Given? && Oversized(e.view)))
    ensures var f := ClearStep(e, total); f.reply == Astray || (f.reply.Given? && Oversized(f.view))
  {
    var f := ClearStep(e, total);
    assert f.view.live == e.view.live;
    if e.reply != Astray {
      var p: nat :| p in e.view.live && p + e.view.live[p] >= HEAP_SIZE;
      assert p in f.view.live && p + f.view.live[p] >= HEAP_SIZE;
    }
  }

  /** A size argument that was negative does not get a chunk without slipping. */
  lemma NegativeExits(v: View, at: nat, total: int)
    requires Sized(v) && -0x8000_0000 <= total < 0 && !Slips(v, at, SizeArg(total, v.word))
    ensures !Passes(v, at, SizeArg(total, v.word))
  {
  }

  /** `calloc` gives a chunk of zeros or ends the process; it breaks the heap if and only if its size slips. */
  lemma CallocKeeps(v: View, count: nat, size: nat)
    requires Sound(v) && Legal(v, Calloc(count, size))
    ensures var e, slips := CallocStep(v, count, size), RequestSlips(v, Calloc(count, size));
            && (Intact(e) <==> !slips)
            && (slips ==> e.reply == Astray || (e.reply.Given? && Oversized(e.view)))
            && (!slips ==>
                  if e.reply.Given? then
                    && CallocSize(count, size) >= 0 && Allocated(v, e.view, e.reply.at, CallocSize(count, size))
                    && Zeros(Chunk(e.view, e.reply.at))
                  else e == Effect(v, Exited))
  {
    CallocRange(count, size);
    EightIsPower();
    var total, at := CallocSize(count, size), NextAt(v, HEAP_ALIGN);
    var arg := SizeArg(total, v.word);
    AllocKeeps(v, arg, HEAP_ALIGN);
    var e := AllocStep(v, arg, HEAP_ALIGN);
    if Slips(v, at, arg) {
      ClearOversized(e, total);
      OversizedUnsound(ClearStep(e, total).view);
    } else if total < 0 {
      NegativeExits(v, at, total);
    } else if e.reply.Given? {
      ClearKeeps(v, e, total);
    }
  }

  /**
   The product of the arguments is cut to a signed 32-bit number: a chunk given is sound and has the size
   asked for if and only if the product is below 2^31 and does not slip.
   */
  lemma CallocExactly(v: View, count: nat, size: nat)
    requires Sound(v) && Legal(v, Calloc(count, size)) && CallocStep(v, count, size).reply.Given?
    ensures var e := CallocStep(v, count, size);
            (Sound(e.view) && e.view.live[e.reply.at] == count * size)
            <==> (count * size < 0x8000_0000 && !RequestSlips(v, Calloc(count, size)))
  {
    CallocKeeps(v, count, size);
    CallocExact(count, size);
  }

  // ---------------------------------------------------------------- what the other requests keep

  lemma FreeKeeps(v: View, p: nat)
    requires Sound(v) && p in v.live
    ensures Freed(v, FreeStep(v, Some(p)), p)
  {
    if p == v.tail + 4 { PutThere(v.mem, v.tail, 0); }
    FreedSound(v, FreeStep(v, Some(p)).mem, p);
  }

  /** Where the chunk goes that a freed one makes room for, and that its bytes are not in the way. */
  lemma ReallocPlace(v: View, ptr: Option<nat>)
    requires Sound(v) && (ptr.Some? ==> ptr.value in v.live)
    ensures Sound(FreeStep(v, ptr)) && NextAt(FreeStep(v, ptr), HEAP_ALIGN) == ResizedAt(v, ptr)
    ensures SameMachine(v, FreeStep(v, ptr))
    ensures ptr.Some? && ResizedAt(v, ptr) != ptr.value ==> ptr.value + v.live[ptr.value] + 4 <= ResizedAt(v, ptr)
  {
    if ptr.None? {
      if v.tail + 4 in v.live { assert ChunkSound(v, v.tail + 4); }
    } else {
      FreeKeeps(v, ptr.value);
      PlaceAfterFree(v, FreeStep(v, ptr), ptr.value);
      BeforeUsedEnd(v, ptr.value);
    }
  }

  /** Copying the old bytes into the new place. */
  lemma CopyKeeps(v: View, w: View, p: nat, dst: nat, size: nat, n: nat)
    requires Moved(v, w, p, dst, size) && dst != p && n == CopyLength(v, p, size)
    ensures dst + n <= |w.mem| && p + n <= |w.mem|
    ensures Resized(v, w.(mem := Over(w.mem, dst, w.mem[p..p + n])), p, dst, size)
  {
    CopyRoom(v, w, p, dst, size);
    CopiedOver(v, w, p, dst, size, n);
  }

  lemma CopiedOver(v: View, w: View, p: nat, dst: nat, size: nat, n: nat)
    requires Moved(v, w, p, dst, size) && dst != p && p in v.live && n == CopyLength(v, p, size)
    requires dst in w.live && n <= w.live[dst] && dst + n <= |w.mem| && p + n <= dst
    ensures Resized(v, w.(mem := Over(w.mem, dst, w.mem[p..p + n])), p, dst, size)
  {
    OverCopied(w, dst, p, n);
    MovedThenCopied(v, w, w.(mem := Over(w.mem, dst, w.mem[p..p + n])), p, dst, size);
  }

  lemma OverCopied(w: View, dst: nat, src: nat, n: nat)
    requires Sound(w) && dst in w.live && n <= w.live[dst] && dst + n <= |w.mem| && src + n <= dst
    ensures Copied(w, w.(mem := Over(w.mem, dst, w.mem[src..src + n])), dst, src, n)
  {
    OverThere(w.mem, dst, w.mem[src..src + n]);
    CopiedSound(w, Over(w.mem, dst, w.mem[src..src + n]), dst, src, n);
  }

  /** The new chunk has room for the copy, which comes from before it. */
  lemma CopyRoom(v: View, w: View, p: nat, dst: nat, size: nat)
    requires Moved(v, w, p, dst, size) && dst != p
    ensures dst in w.live && w.live[dst] == size && CopyLength(v, p, size) <= size && dst + size <= |w.mem|
    ensures p + CopyLength(v, p, size) <= dst && Sized(w)
  {
    ChunkLength(w, dst);
  }

  /** The part of `realloc` behind the allocation. */
  ghost function CopyStep(v: View, e: Effect, ptr: Option<nat>, size: nat): Effect
    requires |e.view.mem| == HEAP_SIZE && (ptr.Some? ==> ptr.value in v.live)
  {
    if ptr.None? || !e.reply.Given? || e.reply.at == ptr.value then e
    else
      var n := CopyLength(v, ptr.value, size);
      if e.reply.at + n > HEAP_SIZE || ptr.value + n > HEAP_SIZE then Effect(e.view, Astray)
      else e.(view := e.view.(mem := Over(e.view.mem, e.reply.at, e.view.mem[ptr.value..ptr.value + n])))
  }

  lemma CopyOversized(v: View, e: Effect, ptr: Option<nat>, size: nat)
    requires |e.view.mem| == HEAP_SIZE && (ptr.Some? ==> ptr.value in v.live)
    requires e.reply == Astray || (e.reply.Given? && Oversized(e.view))
    ensures var f := CopyStep(v, e, ptr, size); f.reply == Astray || (f.reply.Given? && Oversized(f.view))
  {
    var f := CopyStep(v, e, ptr, size);
    assert f.view.live == e.view.live;
    if e.reply != Astray {
      var p: nat :| p in e.view.live && p + e.view.live[p] >= HEAP_SIZE;
      assert p in f.view.live && p + f.view.live[p] >= HEAP_SIZE;
    }
  }

  lemma CopyResizes(v: View, e: Effect, p: nat, size: nat)
    requires Sound(v) && e.reply.Given? && Moved(v, e.view, p, e.reply.at, size)
    ensures var f := CopyStep(v, e, Some(p), size); f.reply == e.reply && Resized(v, f.view, p, e.reply.at, size)
  {
    if e.reply.at == p {
      MovedThenCopied(v, e.view, e.view, p, p, size);
    } else {
      CopyKeeps(v, e.view, p, e.reply.at, size, CopyLength(v, p, size));
    }
  }

  /**
   `realloc` keeps the bytes up to the smaller size and all other chunks, or ends the process; it breaks
   the heap if and only if its size slips.
   */
  lemma ReallocKeeps(v: View, ptr: Option<nat>, size: nat)
    requires Sound(v) && Legal(v, Realloc(ptr, size))
    ensures var e, slips := ReallocStep(v, ptr, size), RequestSlips(v, Realloc(ptr, size));
            (Intact(e) <==> !slips) && (!slips ==> ReallocGives(v, ptr, size, e))
  {
    ReallocPlace(v, ptr);
    if Slips(v, ResizedAt(v, ptr), size) {
      ReallocSlips(v, ptr, size);
    } else {
      ReallocWorks(v, ptr, size);
    }
  }

  ghost predicate ReallocGives(v: View, ptr: Option<nat>, size: nat, e: Effect)
    requires Sized(v)
  {
    if !e.reply.Given? then e == Effect(FreeStep(v, ptr), Exited)
    else if ptr.None? then Placed(v, e.view, e.reply.at, size)
    else Resized(v, e.view, ptr.value, e.reply.at, size) && e.reply.at == ResizedAt(v, ptr)
  }

  /** The allocation that `realloc` makes once the chunk is freed. */
  ghost function Reallocated(v: View, ptr: Option<nat>, size: nat): Effect
    requires Sized(v)
  {
    AllocStep(FreeStep(v, ptr), size, HEAP_ALIGN)
  }

  lemma ReallocatedKeeps(v: View, ptr: Option<nat>, size: nat)
    requires Sound(v) && Legal(v, Realloc(ptr, size))
    ensures var at, e := ResizedAt(v, ptr), Reallocated(v, ptr, size);
            && |e.view.mem| == HEAP_SIZE
            && (Slips(v, at, size) ==> e.reply == Astray || (e.reply.Given? && Oversized(e.view)))
            && (!Slips(v, at, size) ==>
                  if e.reply.Given? then Placed(FreeStep(v, ptr), e.view, at, size) && e.reply.at == at
                  else e == Effect(FreeStep(v, ptr), Exited))
  {
    var f := FreeStep(v, ptr);
    EightIsPower();
    ReallocPlace(v, ptr);
    AllocKeeps(f, size, HEAP_ALIGN);
    AllocPlace(f, size, HEAP_ALIGN);
    SameSlips(v, f, ResizedAt(v, ptr), size);
  }

  lemma SameSlips(v: View, w: View, at: nat, size: nat)
    requires SameMachine(v, w)
    ensures Slips(w, at, size) <==> Slips(v, at, size)
  {
  }

  lemma ReallocSlips(v: View, ptr: Option<nat>, size: nat)
    requires Sound(v) && Legal(v, Realloc(ptr, size)) && Slips(v, ResizedAt(v, ptr), size)
    ensures !Intact(ReallocStep(v, ptr, size))
  {
    ReallocatedKeeps(v, ptr, size);
    CopyOversized(v, Reallocated(v, ptr, size), ptr, size);
    OversizedUnsound(ReallocStep(v, ptr, size).view);
  }

  lemma ReallocWorks(v: View, ptr: Option<nat>, size: nat)
    requires Sound(v) && Legal(v, Realloc(ptr, size)) && !Slips(v, ResizedAt(v, ptr), size)
    ensures Intact(ReallocStep(v, ptr, size)) && ReallocGives(v, ptr, size, ReallocStep(v, ptr, size))
  {
    ReallocPlace(v, ptr);
    ReallocatedKeeps(v, ptr, size);
    var e := Reallocated(v, ptr, size);
    assert ReallocStep(v, ptr, size) == CopyStep(v, e, ptr, size);
    if e.reply.Given? && ptr.Some? {
      ReallocCopies(v, e, ptr.value, size);
    }
  }

  lemma ReallocCopies(v: View, e: Effect, p: nat, size: nat)
    requires Sound(v) && p in v.live && e.reply.Given? && e.reply.at == ResizedAt(v, Some(p))
    requires Placed(FreeStep(v, Some(p)), e.view, e.reply.at, size)
    ensures var f := CopyStep(v, e, Some(p), size); f.reply == e.reply && Resized(v, f.view, p, e.reply.at, size)
  {
    FreeKeeps(v, p);
    StillThere(v, FreeStep(v, Some(p)), e.view.mem, p, e.reply.at);
    FreedThenPlaced(v, FreeStep(v, Some(p)), e.view, p, e.reply.at, size);
    CopyResizes(v, e, p, size);
  }

  /** A chunk aligned as asked, an alignment refused, or the end of the process. */
  ghost predicate MemalignGives(v: View, alignment: nat, size: nat, e: Effect, slips: bool) {
    && (Intact(e) <==> !slips) && (e.reply == Refused <==> !WordPower(alignment, v.word))
    && (!slips ==>
          if e.reply.Given? then
            Placed(v, e.view, e.reply.at, size) && alignment != 0 && (v.base + e.reply.at) % alignment == 0
          else e.view == v)
  }

  /** `posix_memalign` gives a chunk aligned as asked, refuses the alignment, or ends the process. */
  lemma MemalignKeeps(v: View, alignment: nat, size: nat)
    requires Sound(v) && Legal(v, Memalign(alignment, size))
    ensures var r := Memalign(alignment, size); MemalignGives(v, alignment, size, Perform(v, r), RequestSlips(v, r))
  {
    GoodAlignments(alignment, v.word);
    if GoodAlignment(alignment, v.word) {
      AlignedKeeps(v, alignment, size);
    } else {
      RefusedKeeps(v, alignment, size);
    }
  }

  lemma RefusedExactly(v: View, alignment: nat, size: nat)
    requires Sound(v) && Legal(v, Memalign(alignment, size))
    ensures Perform(v, Memalign(alignment, size)).reply == Refused <==> !WordPower(alignment, v.word)
  {
    MemalignKeeps(v, alignment, size);
  }

  lemma RefusedKeeps(v: View, alignment: nat, size: nat)
    requires Sound(v) && !WordPower(alignment, v.word)
    ensures MemalignGives(v, alignment, size, Effect(v, Refused), false)
  {
  }

  lemma AlignedKeeps(v: View, alignment: nat, size: nat)
    requires Sound(v) && GoodAlignment(alignment, v.word) && WordPower(alignment, v.word) && size < Space(v.word)
    ensures MemalignGives(v, alignment, size, AllocStep(v, size, Coarsened(alignment)),
                          Slips(v, NextAt(v, Coarsened(alignment)), size))
  {
    EightIsPower();
    AllocKeeps(v, size, Coarsened(alignment));
    NextAligned(v, alignment);
  }

  lemma NextAligned(v: View, alignment: nat)
    requires Sized(v) && GoodAlignment(alignment, v.word)
    ensures (v.base + NextAt(v, Coarsened(alignment))) % alignment == 0
  {
    EightIsPower();
    var align, x := Coarsened(alignment), v.base + UsedEnd(v) + 4;
    GapAlignsBoth(x, align);
    CoarsenedAligned(x + Gap(x, align), alignment, v.word);
  }

  // ---------------------------------------------------------------- first fit

  /** A place aligned as asked and to eight. */
  ghost predicate AlignedAt(v: View, x: nat, a: nat)
    requires a > 0
  {
    (v.base + x) % a == 0 && (v.base + x) % HEAP_ALIGN == 0
  }

  /** The first such place that leaves room for a header behind the last chunk. */
  ghost predicate FirstPlace(v: View, at: nat, a: nat)
    requires Sized(v) && a > 0
  {
    UsedEnd(v) + 4 <= at && AlignedAt(v, at, a) && forall x: nat :: UsedEnd(v) + 4 <= x < at ==> !AlignedAt(v, x, a)
  }

  lemma NoneInGap(x: nat, a: nat, i: nat)
    requires a > 0 && i < Gap(x, a)
    ensures (x + i) % a != 0
  {
    var o, k := x % a, (x + i) / a;
    assert x == a * (x / a) + o && x + i == a * k + (x + i) % a;
    if (x + i) % a == 0 {
      assert (k - x / a) * a == o + i;
      NoMultipleBetween(k - x / a, a, o + i);
    }
  }

  lemma NextIsFirst(v: View, alignment: nat)
    requires Sized(v) && GoodAlignment(alignment, v.word)
    ensures alignment > 0 && FirstPlace(v, NextAt(v, Coarsened(alignment)), alignment)
  {
    EightIsPower();
    var align, first := Coarsened(alignment), UsedEnd(v) + 4;
    NextAligned(v, alignment);
    GapAlignsBoth(v.base + first, align);
    forall x: nat | first <= x < NextAt(v, align) ensures !AlignedAt(v, x, alignment) {
      NoneInGap(v.base + first, align, x - first);
    }
  }

  /** The chunk goes to the first place if it ends before the heap does; otherwise the process ends. */
  ghost predicate FitsFirst(v: View, alignment: nat, size: nat, reply: Reply)
    requires Sized(v)
  {
    alignment > 0 && exists at: nat :: FirstPlace(v, at, alignment) && reply == if at + size < HEAP_SIZE then Given(at) else Exited
  }

  lemma AllocFits(v: View, size: nat, alignment: nat)
    requires Sized(v) && GoodAlignment(alignment, v.word) && size < Space(v.word)
    requires !Slips(v, NextAt(v, Coarsened(alignment)), size)
    ensures FitsFirst(v, alignment, size, AllocStep(v, size, Coarsened(alignment)).reply)
  {
    NextIsFirst(v, alignment);
    PassesExactly(v, NextAt(v, Coarsened(alignment)), size);
  }

  lemma EightIsGood(word: nat)
    requires word == 4 || word == 8
    ensures GoodAlignment(HEAP_ALIGN, word) && Coarsened(HEAP_ALIGN) == HEAP_ALIGN
  {
    EightIsPower();
  }

  /** How a request that does not slip is answered. */
  ghost predicate AnsweredRight(v: View, r: Request, reply: Reply)
    requires Sized(v)
  {
    match r
    case Malloc(size) => FitsFirst(v, HEAP_ALIGN, size, reply)
    case Calloc(count, size) =>
      var total := CallocSize(count, size);
      if total < 0 then reply == Exited else FitsFirst(v, HEAP_ALIGN, total, reply)
    case Memalign(alignment, size) =>
      if WordPower(alignment, v.word) then FitsFirst(v, alignment, size, reply) else reply == Refused
    case Realloc(ptr, size) =>
      if ptr == Some(v.tail + 4) then reply == (if v.tail + 4 + size < HEAP_SIZE then Given(v.tail + 4) else Exited)
      else FitsFirst(v, HEAP_ALIGN, size, reply)
    case _ => reply == Done
  }

  /**
   First fit: every request that does not slip gets the first aligned place behind the last chunk, the place
   it has if it resizes that chunk, or ends the process exactly when the chunk would reach the end.
   */
  lemma FirstFit(v: View, r: Request)
    requires Sound(v) && Legal(v, r) && !RequestSlips(v, r)
    ensures AnsweredRight(v, r, Perform(v, r).reply)
  {
    EightIsGood(v.word);
    match r
    case Malloc(size) => AllocFits(v, size, HEAP_ALIGN);
    case Calloc(count, size) => CallocFits(v, count, size);
    case Memalign(alignment, size) =>
      GoodAlignments(alignment, v.word);
      if GoodAlignment(alignment, v.word) { AllocFits(v, size, alignment); }
    case Realloc(ptr, size) => ReallocFits(v, ptr, size);
    case _ =>
  }

  lemma CallocFits(v: View, count: nat, size: nat)
    requires Sound(v) && Legal(v, Calloc(count, size)) && !RequestSlips(v, Calloc(count, size))
    ensures AnsweredRight(v, Calloc(count, size), CallocStep(v, count, size).reply)
  {
    CallocRange(count, size);
    EightIsGood(v.word);
    var total := CallocSize(count, size);
    AllocFits(v, SizeArg(total, v.word), HEAP_ALIGN);
    CallocKeeps(v, count, size);
    if total < 0 { NegativeExits(v, NextAt(v, HEAP_ALIGN), total); }
  }

  lemma ReallocFits(v: View, ptr: Option<nat>, size: nat)
    requires Sound(v) && Legal(v, Realloc(ptr, size)) && !RequestSlips(v, Realloc(ptr, size))
    ensures AnsweredRight(v, Realloc(ptr, size), ReallocStep(v, ptr, size).reply)
  {
    EightIsGood(v.word);
    ReallocReply(v, ptr, size);
    NextIsFirst(v, HEAP_ALIGN);
  }

  lemma ReallocReply(v: View, ptr: Option<nat>, size: nat)
    requires Sound(v) && Legal(v, Realloc(ptr, size)) && !Slips(v, ResizedAt(v, ptr), size)
    ensures var at := ResizedAt(v, ptr); ReallocStep(v, ptr, size).reply == if at + size < HEAP_SIZE then Given(at) else Exited
  {
    ReallocWorks(v, ptr, size);
    ReallocatedReply(v, ptr, size);
    CopyReplies(v, Reallocated(v, ptr, size), ptr, size);
  }

  lemma CopyReplies(v: View, e: Effect, ptr: Option<nat>, size: nat)
    requires |e.view.mem| == HEAP_SIZE && (ptr.Some? ==> ptr.value in v.live) && CopyStep(v, e, ptr, size).reply != Astray
    ensures CopyStep(v, e, ptr, size).reply == e.reply
  {
  }

  lemma ReallocatedReply(v: View, ptr: Option<nat>, size: nat)
    requires Sound(v) && Legal(v, Realloc(ptr, size)) && !Slips(v, ResizedAt(v, ptr), size)
    ensures |Reallocated(v, ptr, size).view.mem| == HEAP_SIZE
    ensures var at := ResizedAt(v, ptr); Reallocated(v, ptr, size).reply == if at + size < HEAP_SIZE then Given(at) else Exited
  {
    var f, at := FreeStep(v, ptr), ResizedAt(v, ptr);
    ReallocPlace(v, ptr);
    ReallocatedKeeps(v, ptr, size);
    PassesExactly(f, at, size);
    SameSlips(v, f, at, size);
  }

  lemma StoreKeeps(v: View, p: nat, at: nat, b: Byte)
    requires Sound(v) && Legal(v, Store(p, at, b))
    ensures var w := Perform(v, Store(p, at, b)).view;
            Sound(w) && KeepsOthers(v, w, Some(p)) && w.live == v.live && Chunk(w, p) == Chunk(v, p)[at := b]
  {
    StoredKeeps(v, p, at, b);
    StoreIs(v, p, at, b);
  }

  lemma StoreIs(v: View, p: nat, at: nat, b: Byte)
    requires Sound(v) && Legal(v, Store(p, at, b)) && p + at < |v.mem|
    ensures Perform(v, Store(p, at, b)) == Effect(v.(mem := v.mem[p + at := b]), Done)
  {
  }

  lemma StoredKeeps(v: View, p: nat, at: nat, b: Byte)
    requires Sound(v) && p in v.live && at < v.live[p]
    ensures p + v.live[p] <= |v.mem| && |Chunk(v, p)| == v.live[p]
    ensures var w := v.(mem := v.mem[p + at := b]);
            Sound(w) && KeepsOthers(v, w, Some(p)) && Chunk(w, p) == Chunk(v, p)[at := b]
  {
    ChunkLength(v, p);
    var m := v.mem[p + at := b];
    StoredByte(v.mem, p, v.live[p], at, b);
    ChunkRewritten(v, m, p);
  }

  lemma StoredByte(m: Bytes, p: nat, size: nat, at: nat, b: Byte)
    requires p + size <= |m| && at < size
    ensures m[p + at := b][p..p + size] == m[p..p + size][at := b] && SameOutside(m, m[p + at := b], p, p + size)
  {
  }

  // ---------------------------------------------------------------- runs

  /** The chunk that a request names. */
  function Named(r: Request): Option<nat> {
    match r
    case Realloc(ptr, _) => ptr
    case Free(ptr) => ptr
    case Store(p, _, _) => Some(p)
    case _ => None
  }

  /**
   A request keeps the heap sound if and only if its size does not wrap around past the test; then it
   keeps every chunk that it does not name.
   */
  lemma PerformKeeps(v: View, r: Request)
    requires Sound(v) && Legal(v, r)
    ensures Intact(Perform(v, r)) <==> !RequestSlips(v, r)
    ensures !RequestSlips(v, r) ==> KeepsOthers(v, Perform(v, r).view, Named(r))
  {
    match r
    case Malloc(size) =>
      EightIsPower();
      AllocKeeps(v, size, HEAP_ALIGN);
    case Calloc(count, size) => CallocKeeps(v, count, size);
    case Memalign(alignment, size) => MemalignKeeps(v, alignment, size);
    case Realloc(ptr, size) =>
      ReallocKeeps(v, ptr, size);
      if ptr.Some? { FreeKeeps(v, ptr.value); }
    case Free(ptr) =>
      if ptr.Some? { FreeKeeps(v, ptr.value); }
    case Store(p, at, b) => StoreKeeps(v, p, at, b);
  }

  /** The heap before the first request: zeros, wherever the array lies. */
  ghost predicate IsStart(v: View) {
    Sized(v) && v.mem == Blank(HEAP_SIZE) && v.tail == 0 && v.live == map[]
  }

  lemma StartSound(v: View)
    requires IsStart(v)
    ensures Sound(v) && DwordAt(v.mem, 0) == 0
  {
    assert v.mem[0..4] == [0, 0, 0, 0];
    assert Decode([0]) == 0 + 256 * Decode([]);
    assert [0, 0][1..] == [0] && [0, 0, 0][1..] == [0, 0] && [0, 0, 0, 0][1..] == [0, 0, 0];
  }

  /** A request is answered as computed, and the process goes on. Nothing is said of a broken heap. */
  ghost predicate Answers(v: View, r: Request, w: View) {
    Sound(v) ==>
      && Legal(v, r) && w == Perform(v, r).view
      && Perform(v, r).reply != Exited && Perform(v, r).reply != Astray
  }

  ghost predicate IsRun(run: seq<View>, rs: seq<Request>) {
    && |run| == |rs| + 1 && IsStart(run[0])
    && forall i :: 0 <= i < |rs| ==> Answers(run[i], rs[i], run[i + 1])
  }

  ghost predicate SlipsAt(v: View, r: Request) {
    Sized(v) && RequestSlips(v, r)
  }

  lemma AnswerKeeps(v: View, r: Request, w: View)
    requires Sound(v) && Answers(v, r, w)
    ensures Sound(w) <==> !SlipsAt(v, r)
    ensures !SlipsAt(v, r) ==> KeepsOthers(v, w, Named(r))
  {
    PerformKeeps(v, r);
  }

  lemma {:induction false} RunSound(run: seq<View>, rs: seq<Request>, j: nat)
    requires IsRun(run, rs) && j < |run| && forall i :: 0 <= i < j ==> !SlipsAt(run[i], rs[i])
    ensures Sound(run[j])
  {
    if j == 0 {
      StartSound(run[0]);
    } else {
      RunSound(run, rs, j - 1);
      AnswerKeeps(run[j - 1], rs[j - 1], run[j]);
    }
  }

  /** The heap is sound throughout a run if and only if no request slips. */
  lemma RunSoundExactly(run: seq<View>, rs: seq<Request>)
    requires IsRun(run, rs)
    ensures (forall j :: 0 <= j < |run| ==> Sound(run[j])) <==> (forall i :: 0 <= i < |rs| ==> !SlipsAt(run[i], rs[i]))
  {
    if forall i :: 0 <= i < |rs| ==> !SlipsAt(run[i], rs[i]) {
      forall j | 0 <= j < |run| ensures Sound(run[j]) { RunSound(run, rs, j); }
    }
    if forall j :: 0 <= j < |run| ==> Sound(run[j]) {
      forall i | 0 <= i < |rs| ensures !SlipsAt(run[i], rs[i]) { AnswerKeeps(run[i], rs[i], run[i + 1]); }
    }
  }

  ghost predicate NoneSlips(run: seq<View>, rs: seq<Request>, j: nat)
    requires |run| == |rs| + 1 && j <= |rs|
  {
    forall i :: 0 <= i < j ==> !SlipsAt(run[i], rs[i])
  }

  /** In every run without a slip, chunks and headers are pairwise disjoint, inside the heap and aligned. */
  lemma ChunksApart(run: seq<View>, rs: seq<Request>, j: nat, p: nat, q: nat)
    requires IsRun(run, rs) && j < |run| && NoneSlips(run, rs, j)
    requires p in run[j].live && q in run[j].live && p < q
    ensures 4 <= p && p + run[j].live[p] + 4 <= q && q + run[j].live[q] < HEAP_SIZE
    ensures (run[j].base + p) % HEAP_ALIGN == 0
  {
    RunSound(run, rs, j);
    assert ChunkSound(run[j], p) && ChunkSound(run[j], q);
  }

  lemma LastsOn(u: View, v: View, r: Request, w: View, p: nat)
    requires Sound(v) && Answers(v, r, w) && !SlipsAt(v, r)
    requires Kept(u, v, p) && Named(r) != Some(p)
    ensures Kept(u, w, p)
  {
    AnswerKeeps(v, r, w);
    assert Kept(v, w, p);
  }

  /** In every run without a slip a chunk keeps place, size and bytes as long as no request names it. */
  lemma {:induction false} ChunkLasts(run: seq<View>, rs: seq<Request>, p: nat, i: nat, j: nat)
    requires IsRun(run, rs) && i <= j < |run| && p in run[i].live && NoneSlips(run, rs, j)
    requires forall k :: i <= k < j ==> Named(rs[k]) != Some(p)
    ensures Kept(run[i], run[j], p)
  {
    if i < j {
      ChunkLasts(run, rs, p, i, j - 1);
      RunSound(run, rs, j - 1);
      LastsOn(run[i], run[j - 1], rs[j - 1], run[j], p);
    }
  }

  /** A first `calloc` of 2^31 bytes is let through wherever the array lies above 2^31, and breaks the heap. */
  lemma CallocBreaks(v: View)
    requires IsStart(v) && v.base >= 0x8000_0000
    ensures Sound(v) && Legal(v, Calloc(1, 0x8000_0000)) && RequestSlips(v, Calloc(1, 0x8000_0000))
    ensures Perform(v, Calloc(1, 0x8000_0000)).reply.Given? && !Sound(Perform(v, Calloc(1, 0x8000_0000)).view)
  {
    StartSound(v);
    PerformKeeps(v, Calloc(1, 0x8000_0000));
  }
}
