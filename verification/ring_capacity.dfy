/** Which capacities keep the ring a FIFO once the counters wrap.
    `with_size` refuses multiples of 4 and accepts every other size, among
    them sizes such as 3 that do not divide 2^64. For those, the counters
    `usize::MAX` and `0` are consecutive but their slots are not, and a ring
    built by `with_size(3)` eventually loses items. `WithSizeAligned` is the
    constructor that accepts exactly the capacities dividing 2^64. */
module RingCapacity {
  import opened Usize
  import opened Wrappers
  import opened ModArith
  import opened RingBuffer
  import opened RingInvariant
  import BoundedQueue

  /** The slot after `usize::MAX`'s slot is counter 0's slot exactly when
      the capacity divides 2^64. */
  lemma WrapKeepsSlotsConsecutive(n: nat)
    requires n > 0
    ensures (MAX % n + 1) % n == 0 <==> Aligned(n)
  {
    assert MAX % n + 1 == MODULUS + n * (-(MAX / n));
    ModAddMultiple(MODULUS, n, -(MAX / n));
  }

  /** A ring with `n` empty slots and both counters at `c`. */
  function EmptyRing<T>(n: nat, c: usize): (r: Ring<T>)
    requires n < MODULUS
    ensures |r.buffer| == n && r.write == c && r.read == c
    ensures forall i :: 0 <= i < n ==> r.buffer[i] == None
  {
    RingRep(seq(n, _ => None), c, c)
  }

  /** `k` rounds of one push of `x` followed by one read. */
  function PushReadPairs<T>(x: T, k: nat): (ops: seq<BoundedQueue.Op<T>>)
    ensures |ops| == 2 * k
  {
    if k == 0 then [] else [BoundedQueue.PushOp(x), BoundedQueue.ReadOp] + PushReadPairs(x, k - 1)
  }

  /** Each push/read round on an empty ring moves both counters one step
      and leaves every slot empty, as long as no counter wraps: so every
      counter value is reachable from a fresh ring. */
  lemma {:induction false} PushReadPairsReach<T>(n: nat, c: usize, x: T, k: nat)
    requires 0 < n < MODULUS && c + k <= MAX
    ensures Run(EmptyRing<T>(n, c), PushReadPairs(x, k)).1 == EmptyRing<T>(n, c + k)
    decreases k
  {
    if k > 0 {
      var ops := PushReadPairs(x, k);
      var rest := PushReadPairs(x, k - 1);
      var r0 := EmptyRing<T>(n, c);
      var r1 := Push(r0, x).1;
      var r2 := Read(r1).1;
      assert r1.buffer == r0.buffer[c % n := Some(x)];
      assert r2.buffer == r0.buffer by {
        assert r2.buffer == r1.buffer[c % n := None];
      }
      assert r2 == EmptyRing<T>(n, c + 1);
      assert ops[1..] == [BoundedQueue.ReadOp] + rest;
      assert ops[1..][1..] == rest;
      PushReadPairsReach(n, c + 1, x, k - 1);
    }
  }

  /** `with_size(3)` succeeds, and push/read rounds take its ring to both
      counters two steps before the wrap. */
  lemma CapacityThreeReachable<T>(a: T)
    ensures WithSize<T>(3).Some?
    ensures Run(WithSize<T>(3).value, PushReadPairs(a, MAX - 1)).1 == EmptyRing<T>(3, MAX - 1)
  {
    assert WithSize<T>(3).value == EmptyRing<T>(3, 0);
    PushReadPairsReach<T>(3, 0, a, MAX - 1);
  }

  /** The first push of three, two steps before the wrap on 3 slots. */
  lemma CapacityThreePushA<T>(a: T)
    ensures Push(EmptyRing<T>(3, MAX - 1), a)
         == (None, RingRep([None, None, Some(a)], MAX, MAX - 1))
  {
    assert (MAX - 1) % 3 == 2;
    assert EmptyRing<T>(3, MAX - 1).buffer[2 := Some(a)] == [None, None, Some(a)];
  }

  /** The second push: `write` wraps from `usize::MAX` to 0. */
  lemma CapacityThreePushB<T>(a: T, b: T)
    ensures Push(RingRep([None, None, Some(a)], MAX, MAX - 1), b)
         == (None, RingRep([Some(b), None, Some(a)], 0, MAX - 1))
  {
    assert MAX % 3 == 0;
    assert [None, None, Some(a)][0 := Some(b)] == [Some(b), None, Some(a)];
  }

  /** The third push finds slot 0 (shared by counters `usize::MAX` and 0)
      still occupied and skips to slot 1. */
  lemma CapacityThreePushC<T>(a: T, b: T, c: T)
    ensures Push(RingRep([Some(b), None, Some(a)], 0, MAX - 1), c)
         == (None, RingRep([Some(b), Some(c), Some(a)], 2, MAX - 1))
  {
    assert [Some(b), None, Some(a)][1 := Some(c)] == [Some(b), Some(c), Some(a)];
  }

  /** The reads that follow: `a`, `b`, then `None` with `c` still stored. */
  lemma CapacityThreeReads<T>(a: T, b: T, c: T)
    ensures Read(RingRep([Some(b), Some(c), Some(a)], 2, MAX - 1))
         == (Some(a), RingRep([Some(b), Some(c), None], 2, MAX))
    ensures Read(RingRep([Some(b), Some(c), None], 2, MAX))
         == (Some(b), RingRep([None, Some(c), None], 2, 0))
    ensures Read(RingRep([None, Some(c), None], 2, 0))
         == (None, RingRep([None, Some(c), None], 2, 0))
  {
    assert (MAX - 1) % 3 == 2 && MAX % 3 == 0;
    assert [Some(b), Some(c), Some(a)][2 := None] == [Some(b), Some(c), None];
    assert [Some(b), Some(c), None][0 := None] == [None, Some(c), None];
    assert [None, Some(c), None][0 := None] == [None, Some(c), None];
  }

  /** The ring `with_size(3)` returns is reachable to the state with both
      counters two steps before the wrap, and from there three pushes and
      three reads go wrong: the third push finds counter 0's slot still
      holding the second item (counters `usize::MAX` and 0 share slot 0),
      takes the skip branch, and leaves `len()` at 4 on a ring of 3 slots;
      the reads then return `a` and `b` and answer the third with `None`
      although `len()` is 2, and every later read does the same, so `c` is
      never delivered, where the bounded queue of capacity 3 answers the same
      six calls with `c`. */
  lemma CapacityThreeLosesItems<T>(a: T, b: T, c: T)
    ensures WithSize<T>(3).Some?
    ensures Run(WithSize<T>(3).value, PushReadPairs(a, MAX - 1)).1 == EmptyRing<T>(3, MAX - 1)
    ensures
      var s1 := RingRep([None, None, Some(a)], MAX, MAX - 1);
      var s2 := RingRep([Some(b), None, Some(a)], 0, MAX - 1);
      var s3 := RingRep([Some(b), Some(c), Some(a)], 2, MAX - 1);
      var s4 := RingRep([Some(b), Some(c), None], 2, MAX);
      var s5 := RingRep([None, Some(c), None], 2, 0);
      && Push(EmptyRing<T>(3, MAX - 1), a) == (None, s1)
      && Push(s1, b) == (None, s2)
      && Push(s2, c) == (None, s3)
      && Len(s3) == 4 > |s3.buffer|
      && Read(s3) == (Some(a), s4)
      && Read(s4) == (Some(b), s5)
      && Read(s5) == (None, s5)
      && Len(s5) == 2
    ensures Run(EmptyRing<T>(3, MAX - 1), ThreePushesThreeReads(a, b, c)).0
         == [None, None, None, Some(a), Some(b), None]
    ensures BoundedQueue.Run([], 3, ThreePushesThreeReads(a, b, c)).0
         == [None, None, None, Some(a), Some(b), Some(c)]
  {
    CapacityThreeRun(a, b, c);
    QueueRunConcrete(a, b, c);
    CapacityThreeReachable(a);
    CapacityThreePushA(a);
    CapacityThreePushB(a, b);
    CapacityThreePushC(a, b, c);
    CapacityThreeReads(a, b, c);
  }

  /** The three reads of the capacity-3 run, after the three pushes. */
  lemma CapacityThreeRunReads<T>(a: T, b: T, c: T)
    ensures Run(RingRep([Some(b), Some(c), Some(a)], 2, MAX - 1), BoundedQueue.Reads<T>(3)).0
         == [Some(a), Some(b), None]
  {
    var ops := BoundedQueue.Reads<T>(3);
    var s4 := RingRep([Some(b), Some(c), None], 2, MAX);
    var s5 := RingRep([None, Some(c), None], 2, 0);
    CapacityThreeReads(a, b, c);
    assert Run(s5, ops[2..]).0 == [None] by {
      assert ops[2..][1..] == [];
    }
    assert Run(s4, ops[1..]).0 == [Some(b), None] by {
      assert ops[1..][1..] == ops[2..];
    }
  }

  /** A run that starts with `op` answers `op` first, then the rest from
      the ring `op` leaves. */
  lemma RunCons<T>(ring: Ring<T>, op: BoundedQueue.Op<T>, rest: seq<BoundedQueue.Op<T>>)
    requires |ring.buffer| > 0
    ensures Run(ring, [op] + rest).0 == [Step(ring, op).0] + Run(Step(ring, op).1, rest).0
  {
    assert ([op] + rest)[1..] == rest;
  }

  /** The third push and the reads, as one run. */
  lemma CapacityThreeRunFromC<T>(a: T, b: T, c: T)
    ensures Run(RingRep([Some(b), None, Some(a)], 0, MAX - 1),
                [BoundedQueue.PushOp(c)] + BoundedQueue.Reads<T>(3)).0
         == [None, Some(a), Some(b), None]
  {
    CapacityThreePushC(a, b, c);
    CapacityThreeRunReads(a, b, c);
    RunCons(RingRep([Some(b), None, Some(a)], 0, MAX - 1), BoundedQueue.PushOp(c), BoundedQueue.Reads<T>(3));
  }

  /** The second and third pushes and the reads, as one run. */
  lemma CapacityThreeRunFromB<T>(a: T, b: T, c: T)
    ensures Run(RingRep([None, None, Some(a)], MAX, MAX - 1),
                [BoundedQueue.PushOp(b)] + ([BoundedQueue.PushOp(c)] + BoundedQueue.Reads<T>(3))).0
         == [None, None, Some(a), Some(b), None]
  {
    CapacityThreePushB(a, b);
    CapacityThreeRunFromC(a, b, c);
    RunCons(RingRep([None, None, Some(a)], MAX, MAX - 1), BoundedQueue.PushOp(b),
            [BoundedQueue.PushOp(c)] + BoundedQueue.Reads<T>(3));
  }

  /** The three pushes and three reads as one run from both counters at
      `usize::MAX - 1` on 3 slots: the third read answers `None`. */
  lemma CapacityThreeRun<T>(a: T, b: T, c: T)
    ensures Run(EmptyRing<T>(3, MAX - 1), ThreePushesThreeReads(a, b, c)).0
         == [None, None, None, Some(a), Some(b), None]
  {
    var tail := [BoundedQueue.PushOp(b)] + ([BoundedQueue.PushOp(c)] + BoundedQueue.Reads<T>(3));
    CapacityThreePushA(a);
    CapacityThreeRunFromB(a, b, c);
    RunCons(EmptyRing<T>(3, MAX - 1), BoundedQueue.PushOp(a), tail);
    assert ThreePushesThreeReads(a, b, c) == [BoundedQueue.PushOp(a)] + tail;
  }

  /** Three pushes then three reads. */
  function ThreePushesThreeReads<T>(a: T, b: T, c: T): seq<BoundedQueue.Op<T>>
  {
    [BoundedQueue.PushOp(a), BoundedQueue.PushOp(b), BoundedQueue.PushOp(c),
     BoundedQueue.ReadOp, BoundedQueue.ReadOp, BoundedQueue.ReadOp]
  }

  /** The bounded queue's answers to the same six calls. */
  lemma QueueRunConcrete<T>(a: T, b: T, c: T)
    ensures BoundedQueue.Run([], 3, ThreePushesThreeReads(a, b, c)).0
         == [None, None, None, Some(a), Some(b), Some(c)]
  {
    var pushes := [BoundedQueue.PushOp(a), BoundedQueue.PushOp(b), BoundedQueue.PushOp(c)];
    assert pushes == BoundedQueue.Pushes([a, b, c]);
    BoundedQueue.PushesFit([], 3, [a, b, c]);
    BoundedQueue.ReadsDrain([a, b, c], 3);
    assert BoundedQueue.Reads<T>(3)
        == [BoundedQueue.ReadOp, BoundedQueue.ReadOp, BoundedQueue.ReadOp];
    BoundedQueue.RunAppend([], 3, pushes, BoundedQueue.Reads(3));
    assert [] + [a, b, c] == [a, b, c];
    assert pushes + BoundedQueue.Reads(3) == ThreePushesThreeReads(a, b, c);
  }

  /** Every ring `with_size` returns is a FIFO of its capacity for any run
      of fewer than 2^64 calls, whatever the capacity: `write` starts at 0
      and cannot wrap within the run, and `len()` never exceeds the
      capacity. */
  lemma WithSizeIsFifo<T>(len: usize, ops: seq<BoundedQueue.Op<T>>)
    requires WithSize<T>(len).Some? && |ops| <= MAX
    ensures var r := WithSize<T>(len).value;
      && Run(r, ops).0 == BoundedQueue.Run([], len, ops).0
      && Len(Run(r, ops).1) <= len
  {
    WithSizeEstablishesInv<T>(len);
    RunRefines(WithSize<T>(len).value, ops);
  }

  /** `with_size` with the capacity check the ring's arithmetic needs:
      `None` exactly when the capacity does not divide 2^64 (0 included);
      otherwise an empty ring of that many slots, in the invariant. */
  function WithSizeAligned<T>(len: usize): (r: Option<Ring<T>>)
    ensures r.None? <==> !Aligned(len)
    ensures r.Some? ==> |r.value.buffer| == len && Inv(r.value) && Contents(r.value) == []
  {
    if Aligned(len) then Some(RingRep(seq(len, _ => None), 0, 0)) else None
  }

  /** Every ring `WithSizeAligned` returns is a FIFO of its capacity for
      every sequence of calls, across any number of counter wraps, and its
      `len()` never exceeds its capacity. */
  lemma AlignedRingIsFifo<T>(len: usize, ops: seq<BoundedQueue.Op<T>>)
    requires WithSizeAligned<T>(len).Some?
    ensures var r := WithSizeAligned<T>(len).value;
      && Run(r, ops).0 == BoundedQueue.Run([], len, ops).0
      && Len(Run(r, ops).1) <= len
  {
    RunRefines(WithSizeAligned<T>(len).value, ops);
  }
}
