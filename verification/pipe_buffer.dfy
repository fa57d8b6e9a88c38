/**
 The pipe buffer that the threads of a traced process share. A spin lock guards it; a thread that
 holds the lock writes one group of packets behind the buffered bytes and releases the lock, which
 flushes the buffer when it is full. Every step below is one that other threads may come between.
 */
module PipeBuffer {
  import opened TraceTypes
  import opened Bytes

  type Tid = nat

  /** Where a thread is between taking the lock and giving it back. */
  datatype Pc =
    | Idle
    | Filling(ptr: nat, group: Bytes)          // holds the lock, fills the area behind the head
    | Flushing(ptr: nat, group: Bytes)         // the group does not fit, the buffer goes out first
    | Moving(ptr: nat, group: Bytes, k: nat)   // moves its group to the start of the buffer
    | Buffered                                 // the head has passed the group
    | Releasing
    | Stuck                                    // returned from the unlock without giving the lock back

  /**
   `writes` are the calls of write() so far. The last four fields record history: the groups in the order
   their threads took the lock, those that are complete, which of them each write carried, and those
   still buffered.
   */
  datatype State = State(
    locked: bool, buffer: Bytes, head: nat, pcs: map<Tid, Pc>, writes: seq<Bytes>,
    taken: seq<Bytes>, groups: seq<Bytes>, batches: seq<seq<Bytes>>, pending: seq<Bytes>)

  ghost predicate Init(s: State) {
    && !s.locked && |s.buffer| == 2 * BUFFER_SIZE && s.head == 0
    && (forall t :: t in s.pcs ==> s.pcs[t] == Idle)
    && s.writes == [] && s.taken == [] && s.groups == [] && s.batches == [] && s.pending == []
  }

  // ---------------------------------------------------------------- steps of one thread

  /** The compare-and-swap that succeeds. A group has at most BUFFER_SIZE bytes. */
  ghost predicate Lock(s: State, s': State, t: Tid, group: Bytes) {
    && t in s.pcs && s.pcs[t] == Idle && !s.locked && |group| <= BUFFER_SIZE
    && s' == s.(locked := true, pcs := s.pcs[t := Filling(s.head, group)], taken := s.taken + [group])
  }

  /** Writes one byte of the area, in any order: packet lengths are filled in last. */
  ghost predicate Fill(s: State, s': State, t: Tid, i: nat, b: Byte) {
    && t in s.pcs && s.pcs[t].Filling? && i < |s.pcs[t].group| && s.pcs[t].ptr + i < |s.buffer|
    && s' == s.(buffer := s.buffer[s.pcs[t].ptr + i := b])
  }

  /** Enters the unlock once the area holds the group. */
  ghost predicate Unlock(s: State, s': State, t: Tid) {
    && t in s.pcs && s.pcs[t].Filling?
    && var Filling(ptr, group) := s.pcs[t];
    && ptr + |group| <= |s.buffer| && s.buffer[ptr..ptr + |group|] == group
    && s' ==
       if ptr != s.head then s.(pcs := s.pcs[t := Stuck])
       else if ptr + |group| > BUFFER_SIZE then s.(pcs := s.pcs[t := Flushing(ptr, group)])
       else s.(head := s.head + |group|, pcs := s.pcs[t := Buffered],
               groups := s.groups + [group], pending := s.pending + [group])
  }

  /** Writes the buffered bytes to the pipe and moves the head back. */
  ghost function Flushed(s: State): State
    requires s.head <= |s.buffer|
  {
    s.(writes := s.writes + [s.buffer[..s.head]], head := 0, batches := s.batches + [s.pending], pending := [])
  }

  ghost predicate Flush(s: State, s': State, t: Tid) {
    && t in s.pcs && s.pcs[t].Flushing? && s.head <= |s.buffer|
    && s' == Flushed(s).(pcs := s.pcs[t := Moving(s.pcs[t].ptr, s.pcs[t].group, 0)])
  }

  /** Moves one byte of the group, or notices that the whole group has been moved. */
  ghost predicate Move(s: State, s': State, t: Tid) {
    && t in s.pcs && s.pcs[t].Moving?
    && var Moving(ptr, group, k) := s.pcs[t];
    && (if s.head < |group| then
          && ptr + k < |s.buffer| && s.head < |s.buffer|
          && s' == s.(buffer := s.buffer[s.head := s.buffer[ptr + k]], head := s.head + 1,
                      pcs := s.pcs[t := Moving(ptr, group, k + 1)])
        else
          s' == s.(pcs := s.pcs[t := Releasing], groups := s.groups + [group], pending := s.pending + [group]))
  }

  /** Leaves the buffer alone, or flushes it because packet buffering is disabled. */
  ghost predicate AfterAdvance(s: State, s': State, t: Tid, buffering: bool) {
    && t in s.pcs && s.pcs[t].Buffered? && s.head <= |s.buffer|
    && s' == (if buffering then s else Flushed(s)).(pcs := s.pcs[t := Releasing])
  }

  ghost predicate Release(s: State, s': State, t: Tid) {
    && t in s.pcs && s.pcs[t].Releasing?
    && s' == s.(locked := false, pcs := s.pcs[t := Idle])
  }

  /** One step of thread `t`. */
  ghost predicate StepOf(s: State, s': State, t: Tid) {
    || (exists group :: Lock(s, s', t, group))
    || (exists i, b :: Fill(s, s', t, i, b))
    || Unlock(s, s', t) || Flush(s, s', t) || Move(s, s', t) || Release(s, s', t)
    || (exists buffering :: AfterAdvance(s, s', t, buffering))
  }

  ghost predicate Next(s: State, s': State) {
    s' == s || exists t :: StepOf(s, s', t)
  }

  // ---------------------------------------------------------------- invariant

  /** The buffered bytes are the pending groups. */
  ghost predicate Holds(s: State)
    requires |s.buffer| == 2 * BUFFER_SIZE
  {
    s.head <= BUFFER_SIZE && s.buffer[..s.head] == Concat(s.pending)
  }

  /** What the buffer holds while the thread at `pc` has the lock. */
  ghost predicate BufferAt(s: State, pc: Pc)
    requires |s.buffer| == 2 * BUFFER_SIZE
  {
    match pc
    case Idle => Holds(s)
    case Filling(ptr, group) => Holds(s) && ptr == s.head && |group| <= BUFFER_SIZE
    case Flushing(ptr, group) =>
      Holds(s) && ptr == s.head && |group| <= BUFFER_SIZE && s.buffer[ptr..ptr + |group|] == group
    case Moving(ptr, group, k) =>
      && s.pending == [] && s.head == k <= |group| <= BUFFER_SIZE && ptr <= BUFFER_SIZE
      && s.buffer[..k] == group[..k] && s.buffer[ptr + k..ptr + |group|] == group[k..]
    case Buffered => Holds(s)
    case Releasing => Holds(s)
    case Stuck => false
  }

  /** The group of a thread that has not completed it. */
  function InHand(pc: Pc): seq<Bytes> {
    match pc
    case Filling(_, group) => [group]
    case Flushing(_, group) => [group]
    case Moving(_, group, _) => [group]
    case _ => []
  }

  ghost predicate OwnerAt(s: State, owner: Tid, pc: Pc)
    requires |s.buffer| == 2 * BUFFER_SIZE
  {
    && BufferAt(s, pc) && s.taken == s.groups + InHand(pc)
    && (forall t :: t in s.pcs && s.pcs[t] != Idle ==> t == owner && s.pcs[t] == pc)
    && (s.locked ==> owner in s.pcs && s.pcs[owner] == pc && pc != Idle)
    && (!s.locked ==> pc == Idle)
  }

  ghost predicate History(s: State) {
    && |s.writes| == |s.batches|
    && (forall i :: 0 <= i < |s.writes| ==> s.writes[i] == Concat(s.batches[i]) && |s.writes[i]| <= BUFFER_SIZE)
    && s.groups == Flatten(s.batches) + s.pending
  }

  ghost predicate Inv(s: State) {
    && |s.buffer| == 2 * BUFFER_SIZE && History(s)
    && exists owner, pc :: OwnerAt(s, owner, pc)
  }

  lemma {:induction false} FlattenSnoc(bs: seq<seq<Bytes>>, b: seq<Bytes>)
    ensures Flatten(bs + [b]) == Flatten(bs) + b
  {
    if bs == [] {
      assert bs + [b] == [b];
      assert Flatten([b]) == b + Flatten([]);
    } else {
      FlattenSnoc(bs[1..], b);
      FirstOfConcat(bs, [b]);
      Regrouped(bs[0], Flatten(bs[1..]), b);
    }
  }

  lemma InitInv(s: State)
    requires Init(s)
    ensures Inv(s)
  {
    assert OwnerAt(s, 0, Idle);
  }

  lemma LockInv(s: State, s': State, t: Tid, group: Bytes)
    requires Inv(s) && Lock(s, s', t, group)
    ensures Inv(s')
  {
    var owner, pc :| OwnerAt(s, owner, pc);
    assert OwnerAt(s', t, Filling(s.head, group));
  }

  lemma FillInv(s: State, s': State, t: Tid, i: nat, b: Byte)
    requires Inv(s) && Fill(s, s', t, i, b)
    ensures Inv(s')
  {
    var owner, pc :| OwnerAt(s, owner, pc);
    assert s'.buffer[..s.head] == s.buffer[..s.head];
    assert OwnerAt(s', t, pc);
  }

  lemma UnlockInv(s: State, s': State, t: Tid)
    requires Inv(s) && Unlock(s, s', t)
    ensures Inv(s') && s'.pcs[t] != Stuck
  {
    var owner, pc :| OwnerAt(s, owner, pc);
    var Filling(ptr, group) := s.pcs[t];
    if ptr + |group| > BUFFER_SIZE {
      assert OwnerAt(s', t, Flushing(ptr, group));
    } else {
      ConcatSnoc(s.pending, group);
      assert s'.buffer[..s'.head] == s.buffer[..ptr] + s.buffer[ptr..ptr + |group|];
      assert OwnerAt(s', t, Buffered);
    }
  }

  lemma FlushedHistory(s: State)
    requires |s.buffer| == 2 * BUFFER_SIZE && History(s) && Holds(s)
    ensures History(Flushed(s))
  {
    FlattenSnoc(s.batches, s.pending);
  }

  lemma FlushInv(s: State, s': State, t: Tid)
    requires Inv(s) && Flush(s, s', t)
    ensures Inv(s')
  {
    var owner, pc :| OwnerAt(s, owner, pc);
    FlushedHistory(s);
    assert OwnerAt(s', t, Moving(s.pcs[t].ptr, s.pcs[t].group, 0));
  }

  lemma MoveInv(s: State, s': State, t: Tid)
    requires Inv(s) && Move(s, s', t)
    ensures Inv(s')
  {
    if s.head < |s.pcs[t].group| { MoveByteInv(s, s', t); } else { MoveDoneInv(s, s', t); }
  }

  lemma MoveByteInv(s: State, s': State, t: Tid)
    requires Inv(s) && Move(s, s', t) && s.head < |s.pcs[t].group|
    ensures Inv(s')
  {
    var owner, pc :| OwnerAt(s, owner, pc);
    var Moving(ptr, group, k) := s.pcs[t];
    MovedHolds(s, s', ptr, group, k);
    assert OwnerAt(s', t, Moving(ptr, group, k + 1));
  }

  lemma MovedHolds(s: State, s': State, ptr: nat, group: Bytes, k: nat)
    requires |s.buffer| == |s'.buffer| == 2 * BUFFER_SIZE && k < |group| && BufferAt(s, Moving(ptr, group, k))
    requires ptr + k < |s.buffer| && s'.buffer == s.buffer[k := s.buffer[ptr + k]]
    requires s'.head == k + 1 && s'.pending == s.pending
    ensures BufferAt(s', Moving(ptr, group, k + 1))
  {
    MovedByte(s.buffer, group, ptr, k);
  }

  lemma MoveDoneInv(s: State, s': State, t: Tid)
    requires Inv(s) && Move(s, s', t) && s.head >= |s.pcs[t].group|
    ensures Inv(s')
  {
    var owner, pc :| OwnerAt(s, owner, pc);
    var Moving(ptr, group, k) := s.pcs[t];
    ConcatSnoc([], group);
    assert group[..k] == group;
    assert OwnerAt(s', t, Releasing);
  }

  /** Copying forwards never overwrites a byte that is still to be copied. */
  lemma MovedByte(buffer: Bytes, group: Bytes, ptr: nat, k: nat)
    requires k < |group| && ptr + |group| <= |buffer|
    requires buffer[..k] == group[..k] && buffer[ptr + k..ptr + |group|] == group[k..]
    ensures var b := buffer[k := buffer[ptr + k]];
            b[..k + 1] == group[..k + 1] && b[ptr + k + 1..ptr + |group|] == group[k + 1..]
  {
    var b := buffer[k := buffer[ptr + k]];
    assert buffer[ptr + k] == buffer[ptr + k..ptr + |group|][0] == group[k..][0] == group[k];
    assert b[..k + 1] == b[..k] + [b[k]] && b[..k] == buffer[..k];
    assert group[..k + 1] == group[..k] + [group[k]];
    assert b[ptr + k + 1..ptr + |group|] == buffer[ptr + k..ptr + |group|][1..];
    assert group[k + 1..] == group[k..][1..];
  }

  lemma AfterAdvanceInv(s: State, s': State, t: Tid, buffering: bool)
    requires Inv(s) && AfterAdvance(s, s', t, buffering)
    ensures Inv(s')
  {
    var owner, pc :| OwnerAt(s, owner, pc);
    FlushedHistory(s);
    assert OwnerAt(s', t, Releasing);
  }

  lemma ReleaseInv(s: State, s': State, t: Tid)
    requires Inv(s) && Release(s, s', t)
    ensures Inv(s') && s'.head <= BUFFER_SIZE
  {
    var owner, pc :| OwnerAt(s, owner, pc);
    assert OwnerAt(s', t, Idle);
  }

  lemma StepInv(s: State, s': State, t: Tid)
    requires Inv(s) && StepOf(s, s', t)
    ensures Inv(s')
  {
    if group :| Lock(s, s', t, group) {
      LockInv(s, s', t, group);
    } else if i, b :| Fill(s, s', t, i, b) {
      FillInv(s, s', t, i, b);
    } else if Unlock(s, s', t) {
      UnlockInv(s, s', t);
    } else if Flush(s, s', t) {
      FlushInv(s, s', t);
    } else if Move(s, s', t) {
      MoveInv(s, s', t);
    } else if Release(s, s', t) {
      ReleaseInv(s, s', t);
    } else if buffering :| AfterAdvance(s, s', t, buffering) {
      AfterAdvanceInv(s, s', t, buffering);
    }
  }

  lemma NextInv(s: State, s': State)
    requires Inv(s) && Next(s, s')
    ensures Inv(s')
  {
    if t :| StepOf(s, s', t) { StepInv(s, s', t); }
  }

  // ---------------------------------------------------------------- all interleavings

  ghost predicate Run(run: seq<State>) {
    && run != [] && Init(run[0])
    && (forall i :: 0 <= i < |run| - 1 ==> Next(run[i], run[i + 1]))
  }

  lemma {:induction false} RunInv(run: seq<State>, n: nat)
    requires Run(run) && n < |run|
    ensures Inv(run[n])
  {
    if n == 0 {
      InitInv(run[0]);
    } else {
      RunInv(run, n - 1);
      NextInv(run[n - 1], run[n]);
    }
  }

  /** A thread that fills its area either has more to write or can give the lock back. */
  lemma FillerCanStep(s: State, t: Tid) returns (s': State)
    requires t in s.pcs && s.pcs[t].Filling? && s.pcs[t].ptr + |s.pcs[t].group| <= |s.buffer| && s.pcs[t].ptr == s.head
    ensures s' != s && StepOf(s, s', t)
  {
    var ptr, group := s.pcs[t].ptr, s.pcs[t].group;
    if s.buffer[ptr..ptr + |group|] == group {
      s' := if ptr + |group| > BUFFER_SIZE then s.(pcs := s.pcs[t := Flushing(ptr, group)])
            else s.(head := s.head + |group|, pcs := s.pcs[t := Buffered],
                    groups := s.groups + [group], pending := s.pending + [group]);
      assert Unlock(s, s', t);
      assert s'.pcs[t] != s.pcs[t];
    } else {
      var i :| 0 <= i < |group| && s.buffer[ptr..ptr + |group|][i] != group[i];
      s' := s.(buffer := s.buffer[ptr + i := group[i]]);
      assert Fill(s, s', t, i, group[i]);
      assert s'.buffer[ptr + i] != s.buffer[ptr + i];
    }
  }

  /** A thread that is giving the lock back can go on. */
  lemma OwnerCanStep(s: State, t: Tid) returns (s': State)
    requires |s.buffer| == 2 * BUFFER_SIZE && t in s.pcs && BufferAt(s, s.pcs[t])
    requires s.pcs[t].Flushing? || s.pcs[t].Moving? || s.pcs[t].Buffered? || s.pcs[t].Releasing?
    ensures s' != s && StepOf(s, s', t)
  {
    match s.pcs[t]
    case Flushing(ptr, group) =>
      s' := Flushed(s).(pcs := s.pcs[t := Moving(ptr, group, 0)]);
      assert Flush(s, s', t) && s'.pcs[t] != s.pcs[t];
    case Moving(ptr, group, k) =>
      s' := if s.head < |group| then
              s.(buffer := s.buffer[s.head := s.buffer[ptr + k]], head := s.head + 1, pcs := s.pcs[t := Moving(ptr, group, k + 1)])
            else s.(pcs := s.pcs[t := Releasing], groups := s.groups + [group], pending := s.pending + [group]);
      assert Move(s, s', t) && s'.pcs[t] != s.pcs[t];
    case Buffered =>
      s' := s.(pcs := s.pcs[t := Releasing]);
      assert AfterAdvance(s, s', t, true) && s'.pcs[t] != s.pcs[t];
    case Releasing =>
      s' := s.(locked := false, pcs := s.pcs[t := Idle]);
      assert Release(s, s', t) && s'.pcs[t] != s.pcs[t];
  }

  /** In every interleaving the thread that has the lock is never blocked: it can take a step itself. */
  lemma NeverBlocked(run: seq<State>, n: nat)
    requires Run(run) && n < |run| && run[n].locked
    ensures exists t, s' :: t in run[n].pcs && run[n].pcs[t] != Idle && s' != run[n] && StepOf(run[n], s', t)
  {
    RunInv(run, n);
    var s := run[n];
    var owner, pc :| OwnerAt(s, owner, pc);
    if pc.Filling? {
      var s' := FillerCanStep(s, owner);
    } else {
      var s' := OwnerCanStep(s, owner);
    }
  }

  ghost predicate Moves(s: State) {
    exists t :: t in s.pcs && s.pcs[t].Moving?
  }

  /** Every write has the bytes of whole groups, in lock order, and no more than the sending size. */
  ghost predicate WholeGroups(s: State) {
    && |s.writes| == |s.batches| && Flatten(s.batches) <= s.groups
    && (forall i :: 0 <= i < |s.writes| ==> s.writes[i] == Concat(s.batches[i]) && |s.writes[i]| <= BUFFER_SIZE)
  }

  lemma {:induction false} WritesAreBatches(writes: seq<Bytes>, batches: seq<seq<Bytes>>)
    requires |writes| == |batches| && forall i :: 0 <= i < |writes| ==> writes[i] == Concat(batches[i])
    ensures Concat(writes) == Concat(Flatten(batches))
  {
    if writes != [] {
      WritesAreBatches(writes[1..], batches[1..]);
      ConcatConcat(batches[0], Flatten(batches[1..]));
    }
  }

  /**
   Safety of every interleaving: at most one thread is inside and none gets stuck with the lock; no
   write to the buffer leaves it; the head is within the sending size whenever the lock is free; no
   group is split between two writes; and what was written plus what is buffered is the concatenation
   of the groups in lock order.
   */
  lemma EveryInterleavingSafe(run: seq<State>, n: nat)
    requires Run(run) && n < |run|
    ensures var s := run[n];
            && (forall t, u :: t in s.pcs && u in s.pcs && s.pcs[t] != Idle && s.pcs[u] != Idle ==> t == u)
            && (forall t :: t in s.pcs ==> s.pcs[t] != Stuck)
            && (forall t :: t in s.pcs && s.pcs[t].Filling? ==> s.pcs[t].ptr + |s.pcs[t].group| <= |s.buffer|)
            && (!s.locked ==> s.head <= BUFFER_SIZE)
            && WholeGroups(s)
            && s.groups <= s.taken && |s.taken| <= |s.groups| + 1 && (!s.locked ==> s.groups == s.taken)
            && s.head <= |s.buffer|
            && (!Moves(s) ==> Concat(s.writes) + s.buffer[..s.head] == Concat(s.groups))
            && (Moves(s) ==> Concat(s.writes) == Concat(s.groups))
  {
    RunInv(run, n);
    var s := run[n];
    var owner, pc :| OwnerAt(s, owner, pc);
    WritesAreBatches(s.writes, s.batches);
    ConcatConcat(Flatten(s.batches), s.pending);
    assert pc.Moving? ==> Concat(s.pending) == [];
    assert pc.Moving? <==> Moves(s) by {
      if pc.Moving? { assert s.pcs[owner].Moving?; }
    }
  }

  // ---------------------------------------------------------------- the code of one unlock

  class Pipe {
    const buffer: array<Byte>
    var head: nat
    var locked: bool
    /** The calls of write() so far. */
    var writes: seq<Bytes>

    ghost predicate Valid()
      reads this
    {
      buffer.Length == 2 * BUFFER_SIZE && head <= buffer.Length
    }

    /** All bytes that have passed the head so far. */
    ghost function Stream(): Bytes
      requires Valid()
      reads this, buffer
    {
      Concat(writes) + buffer[..head]
    }

    constructor ()
      ensures Valid() && !locked && head == 0 && Stream() == []
    {
      buffer := new Byte[2 * BUFFER_SIZE];
      head, locked, writes := 0, false, [];
    }

    method Flush()
      requires Valid()
      modifies this
      ensures Valid() && head == 0 && locked == old(locked)
      ensures writes == old(writes) + [buffer[..old(head)]] && Concat(writes) == old(Stream())
    {
      ConcatSnoc(writes, buffer[..head]);
      writes := writes + [buffer[..head]];
      head := 0;
    }

    /** Moves the `size` bytes at `ptr` to the start of the buffer, behind which the head then stands. */
    method MoveToStart(ptr: nat, size: nat)
      requires Valid() && head == 0 && ptr + size <= buffer.Length
      modifies `head, buffer
      ensures head == size && buffer[..size] == old(buffer[ptr..ptr + size])
    {
      ghost var group := buffer[ptr..ptr + size];
      var src := ptr;
      while head < size
        invariant head <= size && src == ptr + head
        invariant buffer[..head] == group[..head] && buffer[src..ptr + size] == group[head..]
      {
        MovedByte(buffer[..], group, ptr, head);
        buffer[head] := buffer[src];
        head, src := head + 1, src + 1;
      }
    }

    /** Sends what is buffered and moves the group behind it to the start. */
    method MakeRoom(ptr: nat, size: nat)
      requires Valid() && ptr == head && ptr + size <= buffer.Length
      modifies this, buffer
      ensures Valid() && head == size && writes == old(writes) + [old(buffer[..ptr])] && locked == old(locked)
      ensures Stream() == old(Stream()) + old(buffer[ptr..ptr + size])
    {
      Flush();
      MoveToStart(ptr, size);
    }

    /** Moves the head past the group, and sends everything when buffering is disabled. */
    method Advance(size: nat, buffering: bool)
      requires Valid() && head + size <= buffer.Length
      modifies this
      ensures Valid() && head == (if buffering then old(head) + size else 0) && locked == old(locked)
      ensures writes == old(writes) + if buffering then [] else [old(buffer[..head + size])]
      ensures Stream() == old(Stream()) + old(buffer[head..head + size])
    {
      ghost var stream, group := Stream(), buffer[head..head + size];
      assert buffer[..head + size] == buffer[..head] + group;
      Regrouped(Concat(writes), buffer[..head], group);
      head := head + size;
      if !buffering {
        Flush();
        assert Concat(writes) + buffer[..0] == Concat(writes);
      }
    }

    /**
     Takes in the `size` bytes at `ptr` and gives the lock back. No byte is lost whatever the size, but
     the head stays within the sending size exactly when the group does.
     */
    method Unlock(ptr: nat, size: nat, buffering: bool)
      requires Valid() && locked && ptr + size <= buffer.Length
      modifies this, buffer
      ensures Valid()
      ensures ptr != old(head) ==> locked && head == old(head) && writes == old(writes) && buffer[..] == old(buffer[..])
      ensures ptr == old(head) ==> !locked && Stream() == old(Stream()) + old(buffer[ptr..ptr + size])
      ensures ptr == old(head) <= BUFFER_SIZE ==> (head <= BUFFER_SIZE <==> size <= BUFFER_SIZE)
      ensures ptr == old(head) && ptr + size <= BUFFER_SIZE ==>
                writes == old(writes) + if buffering then [] else [old(buffer[..ptr + size])]
      ensures ptr == old(head) && ptr + size > BUFFER_SIZE ==> writes == old(writes) + [old(buffer[..ptr])]
    {
      if ptr != head {
        return;
      }
      if ptr + size > BUFFER_SIZE {
        MakeRoom(ptr, size);
      } else {
        Advance(size, buffering);
      }
      locked := false;
    }
  }
}
