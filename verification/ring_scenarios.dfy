/** The two usage scenarios of src/lib.rs: the `wrap_at_end` test, and the
    fill / reject / drain / refill pattern of the crate's doc example. */
module RingScenarios {
  import opened Usize
  import opened Wrappers
  import opened RingBuffer
  import opened RingInvariant
  import opened RingCapacity
  import BoundedQueue

  /** The `wrap_at_end` test: four slots, both counters at `usize::MAX`.
      The ring is empty; pushing `MAX`, `0`, `1` gives `len()` 1, 2, 3 while
      `write` wraps to 0; three reads return `MAX`, `0`, `1` in that order. */
  lemma WrapAtEnd()
    ensures
      var r0: Ring<usize> := EmptyRing(4, MAX);
      var r1 := Push(r0, MAX).1;
      var r2 := Push(r1, 0).1;
      var r3 := Push(r2, 1).1;
      var (o4, r4) := Read(r3);
      var (o5, r5) := Read(r4);
      var (o6, r6) := Read(r5);
      && Len(r0) == 0 && Len(r1) == 1 && Len(r2) == 2 && Len(r3) == 3
      && o4 == Some(MAX) && o5 == Some(0) && o6 == Some(1)
  {
  }

  /** The doc example's pattern on any ring in the invariant with no items
      whose capacity divides 2^64, or whose `write` is far enough from the
      wrap for the `2 * capacity + 4` calls: `capacity` pushes are accepted,
      one more is handed back, the reads return the pushed items in order
      and then `None`, and after that a push is accepted again and read
      back. */
  lemma FillRejectDrainRefill<T>(ring: Ring<T>, xs: seq<T>, y: T, z: T)
    requires Inv(ring) && IsEmpty(ring)
    requires Aligned(|ring.buffer|) || ring.write + 2 * |ring.buffer| + 4 <= MAX
    requires |xs| == |ring.buffer|
    ensures
      var n := |ring.buffer|;
      var ops := BoundedQueue.Pushes(xs) + [BoundedQueue.PushOp(y)] + BoundedQueue.Reads(n)
        + [BoundedQueue.ReadOp, BoundedQueue.PushOp(z), BoundedQueue.ReadOp];
      Run(ring, ops).0
        == BoundedQueue.Nones(n) + [Some(y)] + BoundedQueue.Somes(xs) + [None, None, Some(z)]
  {
    var n := |ring.buffer|;
    var ops := BoundedQueue.Pushes(xs) + [BoundedQueue.PushOp(y)] + BoundedQueue.Reads(n)
      + [BoundedQueue.ReadOp, BoundedQueue.PushOp(z), BoundedQueue.ReadOp];
    RunRefines(ring, ops);
    assert Contents(ring) == [];
    BoundedQueue.FillRejectDrainRefill(n, xs, y, z);
  }

  /** The doc example itself, on a 16-slot ring: items `0..15` go in and
      come out in order, `3` is handed back when the ring is full, the
      drained ring reads `None`, and `16` can then be pushed and read. The
      ring is built by `WithSizeAligned`, since `with_size(16)` refuses 16. */
  lemma DocExample()
    ensures WithSizeAligned<int>(16).Some?
    ensures
      var xs := seq(16, i => i);
      var ops := BoundedQueue.Pushes(xs) + [BoundedQueue.PushOp(3)] + BoundedQueue.Reads(16)
        + [BoundedQueue.ReadOp, BoundedQueue.PushOp(16), BoundedQueue.ReadOp];
      Run(WithSizeAligned<int>(16).value, ops).0
        == BoundedQueue.Nones(16) + [Some(3)] + BoundedQueue.Somes(xs) + [None, None, Some(16)]
  {
    assert Aligned(16) by {
      assert MODULUS == 16 * 0x1000_0000_0000_0000;
    }
    FillRejectDrainRefill(WithSizeAligned<int>(16).value, seq(16, i => i), 3, 16);
  }
}
