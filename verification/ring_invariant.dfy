/** The occupancy invariant of the ring and the proof that, while it holds,
    `push` and `read` behave exactly like the bounded FIFO queue of module
    BoundedQueue. The invariant survives a step when the capacity divides
    2^64 (so `counter % capacity` runs on without a jump when a counter
    wraps) or when the step does not wrap a counter. */
module RingInvariant {
  import opened Usize
  import opened Wrappers
  import opened ModArith
  import opened RingBuffer
  import BoundedQueue

  /** `n` divides 2^64: the counters' wrap is invisible modulo `n`. */
  predicate Aligned(n: int)
  {
    n > 0 && MODULUS % n == 0
  }

  /** The slot of the counter `k` steps after `read`, both as the source
      computes them: the counter wraps at 2^64 before the slot is taken. */
  function SlotOf<T>(ring: Ring<T>, k: nat): (i: nat)
    requires |ring.buffer| > 0
    ensures i < |ring.buffer|
  {
    ((ring.read + k) % MODULUS) % |ring.buffer|
  }

  /** Slot `i` is occupied exactly when it lies fewer than `len()` steps after
      the slot of `read`; the counters never run more than `capacity` apart;
      and unless the capacity divides 2^64, `write` has not wrapped below
      `read`. */
  predicate Inv<T>(ring: Ring<T>)
  {
    var n := |ring.buffer|;
    && n > 0
    && Len(ring) <= n
    && (Aligned(n) || ring.read <= ring.write)
    && forall i :: 0 <= i < n ==> (ring.buffer[i].Some? <==> (i - ring.read) % n < Len(ring))
  }

  /** The slots the counters `read, read+1, ..., write-1` name, in order. */
  function Window<T>(ring: Ring<T>): (w: seq<Option<T>>)
    requires |ring.buffer| > 0
    ensures |w| == Len(ring)
  {
    seq(Len(ring), k requires 0 <= k < Len(ring) => ring.buffer[SlotOf(ring, k)])
  }

  /** Under the invariant, counters at most `len()` past `read` do not feel
      the 2^64 wrap in their slot. */
  lemma SlotOfInv<T>(ring: Ring<T>, k: nat)
    requires Inv(ring) && k <= Len(ring)
    ensures SlotOf(ring, k) == (ring.read + k) % |ring.buffer|
  {
    var n := |ring.buffer|;
    if Aligned(n) {
      ModOfMod(ring.read + k, MODULUS, n);
    } else {
      assert ring.read + k <= ring.write;
      ModUnique(ring.read + k, MODULUS, 0, ring.read + k);
    }
  }

  /** Every counter in `[read, write)` names an occupied slot. */
  lemma WindowOccupied<T>(ring: Ring<T>)
    requires Inv(ring)
    ensures forall k :: 0 <= k < Len(ring) ==> Window(ring)[k].Some?
  {
    forall k | 0 <= k < Len(ring)
      ensures Window(ring)[k].Some?
    {
      SlotOfInv(ring, k);
      OffsetOfSlot(ring.read, k, |ring.buffer|);
    }
  }

  /** The items in the ring, oldest first. */
  function Contents<T>(ring: Ring<T>): (q: seq<T>)
    requires Inv(ring)
    ensures |q| == Len(ring)
    ensures forall k :: 0 <= k < |q| ==> Window(ring)[k] == Some(q[k])
  {
    WindowOccupied(ring);
    seq(Len(ring), k requires 0 <= k < Len(ring) => Window(ring)[k].value)
  }

  /** The invariant's occupancy rule in the words of the source's design:
      slot `i` holds a value iff `i` is the slot of some counter in
      `[read, write)`. */
  lemma OccupiedIffCounter<T>(ring: Ring<T>, i: nat)
    requires Inv(ring) && i < |ring.buffer|
    ensures ring.buffer[i].Some? <==> exists k :: 0 <= k < Len(ring) && SlotOf(ring, k) == i
  {
    var n := |ring.buffer|;
    var o := (i - ring.read) % n;
    assert ring.buffer[i].Some? <==> o < Len(ring);
    if o < Len(ring) {
      SlotOfInv(ring, o);
      SlotOfOffset(i, ring.read, n);
      assert SlotOf(ring, o) == i;
    }
    forall k | 0 <= k < Len(ring) && SlotOf(ring, k) == i
      ensures o < Len(ring)
    {
      SlotOfInv(ring, k);
      OffsetOfSlot(ring.read, k, n);
    }
  }

  /** A fresh ring from `with_size` satisfies the invariant and is empty. */
  lemma WithSizeEstablishesInv<T>(len: usize)
    requires WithSize<T>(len).Some?
    ensures Inv(WithSize<T>(len).value)
    ensures Contents(WithSize<T>(len).value) == []
  {
  }

  /** Under the invariant a push never finds its slot occupied, so the
      source's skip branch is dead code. */
  lemma SkipIsDead<T>(ring: Ring<T>)
    requires Inv(ring) && Len(ring) < |ring.buffer|
    ensures ring.buffer[ring.write % |ring.buffer|] == None
  {
    var n := |ring.buffer|;
    SlotOfInv(ring, Len(ring));
    OffsetOfSlot(ring.read, Len(ring), n);
    assert SlotOf(ring, Len(ring)) == ring.write % n by {
      assert (ring.read + Len(ring)) % MODULUS == ring.write;
    }
  }

  /** The slot `push` writes is the one `len()` steps after `read`'s slot. */
  lemma PushSlot<T>(ring: Ring<T>)
    requires Inv(ring) && Len(ring) < |ring.buffer|
    ensures ring.write % |ring.buffer| == (ring.read + Len(ring)) % |ring.buffer|
    ensures (ring.write % |ring.buffer| - ring.read) % |ring.buffer| == Len(ring)
  {
    var n := |ring.buffer|;
    SlotOfInv(ring, Len(ring));
    assert (ring.read + Len(ring)) % MODULUS == ring.write;
    OffsetOfSlot(ring.read, Len(ring), n);
  }

  /** Slot `i` after a push that has room follows the occupancy rule. */
  lemma PushSlotOccupancy<T>(ring: Ring<T>, x: T, i: nat)
    requires Inv(ring) && Len(ring) < |ring.buffer| && i < |ring.buffer|
    ensures var r1 := Push(ring, x).1;
      r1.buffer[i].Some? <==> (i - r1.read) % |r1.buffer| < Len(r1)
  {
    var n := |ring.buffer|;
    var len := Len(ring);
    var r1 := Push(ring, x).1;
    var s := ring.write % n;
    SkipIsDead(ring);
    PushSlot(ring);
    assert r1.read == ring.read && Len(r1) == len + 1 && |r1.buffer| == n;
    var o := (i - ring.read) % n;
    if i == s {
      assert r1.buffer[i] == Some(x);
      assert o == len;
    } else {
      assert r1.buffer[i] == ring.buffer[i];
      assert ring.buffer[i].Some? <==> o < len;
      SlotOfOffset(i, ring.read, n);
      assert o != len;
    }
  }

  lemma PushKeepsInv<T>(ring: Ring<T>, x: T)
    requires Inv(ring) && Len(ring) < |ring.buffer|
    requires Aligned(|ring.buffer|) || ring.write < MAX
    ensures Inv(Push(ring, x).1)
    ensures Len(Push(ring, x).1) == Len(ring) + 1
  {
    var r1 := Push(ring, x).1;
    SkipIsDead(ring);
    forall i | 0 <= i < |r1.buffer|
      ensures r1.buffer[i].Some? <==> (i - r1.read) % |r1.buffer| < Len(r1)
    {
      PushSlotOccupancy(ring, x, i);
    }
  }

  /** The `k`-th counter after a push names the slot it named before, or,
      for the new last counter, the slot that received the item. */
  lemma PushWindowAt<T>(ring: Ring<T>, x: T, k: nat)
    requires Inv(ring) && Len(ring) < |ring.buffer|
    requires Aligned(|ring.buffer|) || ring.write < MAX
    requires k <= Len(ring)
    ensures Inv(Push(ring, x).1)
    ensures Window(Push(ring, x).1)[k] == (Window(ring) + [Some(x)])[k]
  {
    var n := |ring.buffer|;
    var r1 := Push(ring, x).1;
    PushKeepsInv(ring, x);
    SkipIsDead(ring);
    PushSlot(ring);
    SlotOfInv(r1, k);
    if k < Len(ring) {
      SlotOfInv(ring, k);
      SlotsDistinct(ring.read, k, Len(ring), n);
    }
  }

  /** A push on a ring in the invariant is the bounded queue's push: on a
      full ring the item comes back, otherwise it joins the back of the
      queue; the invariant, and so `len() <= capacity`, is kept. */
  lemma PushRefines<T>(ring: Ring<T>, x: T)
    requires Inv(ring)
    requires Aligned(|ring.buffer|) || ring.write < MAX
    ensures Inv(Push(ring, x).1)
    ensures (Push(ring, x).0, Contents(Push(ring, x).1))
         == BoundedQueue.Push(Contents(ring), |ring.buffer|, x)
  {
    var r1 := Push(ring, x).1;
    if Len(ring) < |ring.buffer| {
      PushKeepsInv(ring, x);
      forall k | 0 <= k < Len(ring) + 1
        ensures Window(r1)[k] == (Window(ring) + [Some(x)])[k]
      {
        PushWindowAt(ring, x, k);
      }
      assert Contents(r1) == Contents(ring) + [x];
    }
  }

  /** After a read that advanced `read`, offsets from the new `read` are
      offsets from `read + 1`: in the aligned case the wrap is invisible,
      otherwise there is no wrap. */
  lemma ReadOffset<T>(ring: Ring<T>, r1: Ring<T>, j: int)
    requires Inv(ring) && !IsEmpty(ring)
    requires |r1.buffer| == |ring.buffer| && r1.read == (ring.read + 1) % MODULUS
    ensures (j - r1.read) % |ring.buffer| == (j - (ring.read + 1)) % |ring.buffer|
  {
    if Aligned(|ring.buffer|) {
      OffsetOfReduced(j, ring.read + 1, MODULUS, |ring.buffer|);
    } else {
      assert ring.read < ring.write;
    }
  }

  /** Slot `i` after a read of a non-empty ring follows the occupancy rule. */
  lemma ReadSlotOccupancy<T>(ring: Ring<T>, r1: Ring<T>, i: nat)
    requires Inv(ring) && !IsEmpty(ring) && i < |ring.buffer|
    requires ReadTook(ring, r1)
    ensures r1.buffer[i].Some? <==> (i - r1.read) % |r1.buffer| < Len(r1)
  {
    var n := |ring.buffer|;
    var s := ring.read % n;
    ReadOffset(ring, r1, i);
    OffsetStep(i, ring.read, n);
    var o := (i - ring.read) % n;
    if i == s {
      OffsetOfSlot(ring.read, 0, n);
      assert o == 0;
    } else {
      SlotOfOffset(i, ring.read, n);
      assert o != 0;
      assert r1.buffer[i] == ring.buffer[i];
    }
  }

  lemma ReadKeepsInv<T>(ring: Ring<T>)
    requires Inv(ring) && !IsEmpty(ring)
    ensures Inv(Read(ring).1)
    ensures Len(Read(ring).1) == Len(ring) - 1
  {
    var r1 := Read(ring).1;
    ReadTakes(ring);
    forall i | 0 <= i < |r1.buffer|
      ensures r1.buffer[i].Some? <==> (i - r1.read) % |r1.buffer| < Len(r1)
    {
      ReadSlotOccupancy(ring, r1, i);
    }
    assert Aligned(|r1.buffer|) || r1.read <= r1.write;
  }

  /** A read that advanced `read` shifts every counter's slot by one. */
  lemma ReadShiftsSlots<T>(ring: Ring<T>, r1: Ring<T>, k: nat)
    requires |ring.buffer| > 0 && |r1.buffer| == |ring.buffer|
    requires r1.read == (ring.read + 1) % MODULUS
    ensures SlotOf(r1, k) == SlotOf(ring, k + 1)
  {
    var q := (ring.read + 1) / MODULUS;
    assert r1.read + k == ring.read + k + 1 + MODULUS * (-q);
    ModAddMultiple(ring.read + k + 1, MODULUS, -q);
  }

  /** The result of a read that took a value from a non-empty ring. */
  ghost predicate ReadTook<T>(ring: Ring<T>, r1: Ring<T>)
    requires |ring.buffer| > 0
  {
    && r1.buffer == ring.buffer[ring.read % |ring.buffer| := None]
    && r1.write == ring.write
    && r1.read == (ring.read + 1) % MODULUS
    && Len(r1) == Len(ring) - 1
  }

  /** A read of a non-empty ring in the invariant takes a value. */
  lemma ReadTakes<T>(ring: Ring<T>)
    requires Inv(ring) && !IsEmpty(ring)
    ensures Read(ring).0.Some? && ReadTook(ring, Read(ring).1)
  {
    OffsetOfSlot(ring.read, 0, |ring.buffer|);
    assert ring.buffer[ring.read % |ring.buffer|].Some?;
  }

  /** The `k`-th counter after a read names the slot the `k+1`-th named
      before, and that slot was not the one the read emptied. */
  lemma ReadWindowAt<T>(ring: Ring<T>, r1: Ring<T>, k: nat)
    requires Inv(ring) && !IsEmpty(ring) && k + 1 < Len(ring)
    requires ReadTook(ring, r1)
    ensures Window(r1)[k] == Window(ring)[k + 1]
  {
    var n := |ring.buffer|;
    ReadShiftsSlots(ring, r1, k);
    SlotOfInv(ring, k + 1);
    SlotOfInv(ring, 0);
    SlotsDistinct(ring.read, 0, k + 1, n);
  }

  /** A read on a ring in the invariant is the bounded queue's read: `None`
      on an empty ring, otherwise the oldest item, which leaves the queue;
      the invariant is kept. */
  lemma ReadRefines<T>(ring: Ring<T>)
    requires Inv(ring)
    ensures Inv(Read(ring).1)
    ensures (Read(ring).0, Contents(Read(ring).1)) == BoundedQueue.Read(Contents(ring))
  {
    var r1 := Read(ring).1;
    if !IsEmpty(ring) {
      ReadKeepsInv(ring);
      SlotOfInv(ring, 0);
      assert Read(ring).0 == Window(ring)[0];
      ReadTakes(ring);
      forall k | 0 <= k < Len(ring) - 1
        ensures Window(r1)[k] == Window(ring)[k + 1]
      {
        ReadWindowAt(ring, r1, k);
      }
      assert Contents(r1) == Contents(ring)[1..];
    }
  }

  /** One call on the ring. */
  function Step<T>(ring: Ring<T>, op: BoundedQueue.Op<T>): (p: (Option<T>, Ring<T>))
    requires |ring.buffer| > 0
    ensures |p.1.buffer| == |ring.buffer|
  {
    match op
    case PushOp(x) => Push(ring, x)
    case ReadOp => Read(ring)
  }

  /** The answers of the ring to `ops`, in order, and the ring afterwards. */
  function Run<T>(ring: Ring<T>, ops: seq<BoundedQueue.Op<T>>): (r: (seq<Option<T>>, Ring<T>))
    requires |ring.buffer| > 0
    ensures |r.0| == |ops|
    ensures |r.1.buffer| == |ring.buffer|
    decreases |ops|
  {
    if ops == [] then ([], ring)
    else
      var (out, r1) := Step(ring, ops[0]);
      var (outs, r2) := Run(r1, ops[1..]);
      ([out] + outs, r2)
  }

  /** Under the invariant and before the wrap, one call moves `write`
      forward by at most one slot: a push with room never skips. */
  lemma StepWriteBound<T>(ring: Ring<T>, op: BoundedQueue.Op<T>)
    requires Inv(ring) && ring.write < MAX
    ensures Step(ring, op).1.write <= ring.write + 1
  {
    if op.PushOp? && Len(ring) < |ring.buffer| {
      SkipIsDead(ring);
    }
  }

  /** FIFO over a whole run of calls. Every sequence of pushes and reads on
      a ring in the invariant answers exactly as the bounded queue holding
      the ring's contents, and leaves a ring in the invariant (so
      `len() <= capacity` throughout). This holds across any number of
      counter wraps when the capacity divides 2^64, and for any capacity
      while `write` cannot reach the wrap. */
  lemma {:induction false} RunRefines<T>(ring: Ring<T>, ops: seq<BoundedQueue.Op<T>>)
    requires Inv(ring)
    requires Aligned(|ring.buffer|) || ring.write + |ops| <= MAX
    ensures Inv(Run(ring, ops).1)
    ensures Run(ring, ops).0 == BoundedQueue.Run(Contents(ring), |ring.buffer|, ops).0
    ensures Contents(Run(ring, ops).1) == BoundedQueue.Run(Contents(ring), |ring.buffer|, ops).1
    decreases |ops|
  {
    if ops != [] {
      var (out, r1) := Step(ring, ops[0]);
      match ops[0] {
        case PushOp(x) => PushRefines(ring, x);
        case ReadOp => ReadRefines(ring);
      }
      if !Aligned(|ring.buffer|) {
        StepWriteBound(ring, ops[0]);
      }
      RunRefines(r1, ops[1..]);
    }
  }
}
