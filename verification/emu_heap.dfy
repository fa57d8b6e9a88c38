/** The bootstrap allocator over its byte array. Every method does what the request of that name computes. */
module EmuHeap {
  import opened TraceTypes
  import opened Bytes
  import opened EmuView

  class Heap {
    const mem: array<Byte>
    const base: nat
    const word: nat
    var tail: nat
    ghost var live: map<nat, nat>

    ghost function Now(): View
      reads this, mem
    {
      View(mem[..], base, tail, live, word)
    }

    ghost predicate Valid()
      reads this, mem
    {
      Sound(Now())
    }

    constructor (base: nat, word: nat)
      requires (word == 4 || word == 8) && base + HEAP_SIZE < Space(word)
      ensures IsStart(Now()) && Valid() && this.base == base && this.word == word
    {
      mem := new Byte[HEAP_SIZE](_ => 0);
      this.base, this.word := base, word;
      tail := 0;
      live := map[];
      new;
      assert mem[..] == Blank(HEAP_SIZE);
      StartSound(Now());
    }

    method PutDword(at: nat, x: nat)
      requires at + 4 <= mem.Length
      modifies mem
      ensures mem[..] == PutAt(old(mem[..]), at, x)
    {
      ghost var m := mem[..];
      var bytes := Dword(x);
      for i := 0 to 4
        invariant forall j :: 0 <= j < mem.Length ==> mem[j] == if at <= j < at + i then bytes[j - at] else m[j]
      {
        mem[at + i] := bytes[i];
      }
      assert mem[..] == m[..at] + bytes + m[at + 4..];
    }

    /** The first place behind the last chunk that is aligned as asked. */
    method FindPlace(align: nat) returns (at: nat)
      requires Sized(Now()) && align > 0
      ensures at == NextAt(Now(), align)
    {
      var chunk := Decode(mem[tail..tail + 4]);
      assert mem[..][tail..tail + 4] == mem[tail..tail + 4];
      at := tail + chunk + 4;
      var offset := (base + at) % align;
      if offset != 0 {
        at := at + (align - offset);
      }
    }

    /** Makes a place the last chunk. */
    method SetHeader(at: nat, size: nat)
      requires Sized(Now()) && 4 <= at <= HEAP_SIZE
      modifies this, mem
      ensures Now() == Headed(old(Now()), at, size)
    {
      tail := at - 4;
      PutDword(tail, Low32(size + 4));
      live := live[at := size];
    }

    /** Takes the next free place, or ends the process when the heap is used up. */
    method AllocMem(size: nat, align: nat) returns (r: Reply)
      requires Sized(Now()) && align > 0
      modifies this, mem
      ensures Effect(Now(), r) == AllocStep(old(Now()), size, align)
    {
      var at := FindPlace(align);
      if Cut(Cut(base + at, word) + size, word) >= base + HEAP_SIZE {
        return Exited;
      }
      if at > HEAP_SIZE {
        return Astray;
      }
      SetHeader(at, size);
      r := Given(at);
    }

    method EmuMalloc(size: nat) returns (r: Reply)
      requires Valid() && Legal(Now(), Malloc(size))
      modifies this, mem
      ensures Effect(Now(), r) == Perform(old(Now()), Malloc(size))
      ensures (r != Astray && Valid()) <==> !RequestSlips(old(Now()), Malloc(size))
    {
      PerformKeeps(Now(), Malloc(size));
      r := AllocMem(size, HEAP_ALIGN);
    }

    /** Allocates and clears. */
    method EmuCalloc(count: nat, size: nat) returns (r: Reply)
      requires Valid() && Legal(Now(), Calloc(count, size))
      modifies this, mem
      ensures Effect(Now(), r) == Perform(old(Now()), Calloc(count, size))
      ensures (r != Astray && Valid()) <==> !RequestSlips(old(Now()), Calloc(count, size))
    {
      PerformKeeps(Now(), Calloc(count, size));
      CallocRange(count, size);
      var total := CallocSize(count, size);
      r := AllocMem(SizeArg(total, word), HEAP_ALIGN);
      if r.Given? && total > 0 {
        if r.at + total > HEAP_SIZE {
          return Astray;
        }
        Zero(r.at, total);
      }
    }

    method Zero(p: nat, n: nat)
      requires p + n <= mem.Length
      modifies mem
      ensures mem[..] == Over(old(mem[..]), p, Blank(n))
    {
      var i := 0;
      while i < n
        invariant i <= n && SameOutside(old(mem[..]), mem[..], p, p + n)
        invariant forall j :: p <= j < p + i ==> mem[j] == 0
      {
        mem[p + i] := 0;
        i := i + 1;
      }
      assert mem[..][p..p + n] == Blank(n);
      OverIs(old(mem[..]), mem[..], p, Blank(n));
    }

    /** Allocates at a given alignment; one that is not a power of two of pointer size is refused. */
    method EmuPosixMemalign(alignment: nat, size: nat) returns (r: Reply)
      requires Valid() && Legal(Now(), Memalign(alignment, size))
      modifies this, mem
      ensures r == Refused <==> !WordPower(alignment, word)
      ensures Effect(Now(), r) == Perform(old(Now()), Memalign(alignment, size))
      ensures (r != Astray && Valid()) <==> !RequestSlips(old(Now()), Memalign(alignment, size))
    {
      PerformKeeps(Now(), Memalign(alignment, size));
      RefusedExactly(Now(), alignment, size);
      if alignment % word != 0 || !PowerOfTwo(alignment) {
        return Refused;
      }
      var align := if alignment < HEAP_ALIGN then HEAP_ALIGN else alignment;
      r := AllocMem(size, align);
    }

    /** Gives a chunk back; only the last one makes room. */
    method EmuFree(ptr: Option<nat>)
      requires Sized(Now())
      modifies this, mem
      ensures Now() == FreeStep(old(Now()), ptr)
      ensures old(Valid() && Legal(Now(), Request.Free(ptr))) ==> Valid()
    {
      ghost var v := Now();
      if ptr.Some? {
        if tail + 4 == ptr.value {
          PutDword(tail, 0);
        }
        live := live - {ptr.value};
      }
      if Sound(v) && Legal(v, Request.Free(ptr)) { PerformKeeps(v, Request.Free(ptr)); }
    }

    /** Copies `n` bytes forwards to a place behind them. */
    method CopyBytes(dst: nat, src: nat, n: nat)
      requires src + n <= dst && dst + n <= mem.Length
      modifies mem
      ensures mem[..] == Over(old(mem[..]), dst, old(mem[src..src + n]))
    {
      var i := 0;
      while i < n
        invariant i <= n && SameOutside(old(mem[..]), mem[..], dst, dst + n)
        invariant mem[dst..dst + i] == old(mem[src..src + i])
      {
        assert mem[..][src + i] == old(mem[..])[src + i];
        mem[dst + i] := mem[src + i];
        i := i + 1;
      }
      OverIs(old(mem[..]), mem[..], dst, old(mem[src..src + n]));
    }

    /**
     Resizes a chunk: in place if it is the last one, else by copying. The size in its header counts the
     header too.
     */
    method EmuRealloc(ptr: Option<nat>, size: nat) returns (r: Reply)
      requires Valid() && Legal(Now(), Realloc(ptr, size))
      modifies this, mem
      ensures Effect(Now(), r) == Perform(old(Now()), Realloc(ptr, size))
      ensures (r != Astray && Valid()) <==> !RequestSlips(old(Now()), Realloc(ptr, size))
    {
      ghost var v := Now();
      PerformKeeps(v, Realloc(ptr, size));
      ReallocPlace(v, ptr);
      var chunk := 0;
      if ptr.Some? {
        chunk := HeaderOf(ptr.value);
      }
      EmuFree(ptr);
      ghost var f := Now();
      r := AllocMem(size, HEAP_ALIGN);
      AllocPlace(f, size, HEAP_ALIGN);
      r := CopyOver(ptr, r, size, chunk, v);
    }

    /** Copies the chunk when it moved. */
    method CopyOver(ptr: Option<nat>, given: Reply, size: nat, chunk: nat, ghost v: View) returns (r: Reply)
      requires Sized(Now()) && (ptr.Some? ==> ptr.value in v.live && chunk == v.live[ptr.value] + 4)
      requires ptr.Some? && given.Given? && given.at != ptr.value ==> ptr.value + chunk <= given.at <= HEAP_SIZE
      modifies mem
      ensures Effect(Now(), r) == CopyStep(v, Effect(old(Now()), given), ptr, size)
    {
      r := given;
      if ptr.Some? && r.Given? && r.at != ptr.value {
        var n := if size > chunk then chunk else size;
        if r.at + n > HEAP_SIZE {
          return Astray;
        }
        CopyBytes(r.at, ptr.value, n);
      }
    }

    method HeaderOf(p: nat) returns (x: nat)
      requires Valid() && p in live
      ensures x == live[p] + 4
    {
      assert ChunkSound(Now(), p);
      x := Decode(mem[p - 4..p]);
      assert mem[..][p - 4..p] == mem[p - 4..p];
    }

    /** What the owner of a chunk does with it: any change to its bytes. */
    method Write(p: nat, at: nat, b: Byte)
      requires Valid() && Legal(Now(), Store(p, at, b))
      modifies mem
      ensures Now() == Perform(old(Now()), Store(p, at, b)).view && Valid()
    {
      PerformKeeps(Now(), Store(p, at, b));
      assert ChunkSound(Now(), p);
      mem[p + at] := b;
    }
  }
}
