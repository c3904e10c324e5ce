/** The behaviour a ring buffer is meant to have, stated without counters or
    slots: a FIFO sequence of at most `cap` items that hands a rejected item
    back when full and answers `None` when empty. */
module BoundedQueue {
  import opened Wrappers

  /** One call on a buffer: `push(item)` or `read()`. */
  datatype Op<T> = PushOp(item: T) | ReadOp

  function Push<T>(q: seq<T>, cap: nat, x: T): (Option<T>, seq<T>)
  {
    if |q| < cap then (None, q + [x]) else (Some(x), q)
  }

  function Read<T>(q: seq<T>): (Option<T>, seq<T>)
  {
    if |q| == 0 then (None, q) else (Some(q[0]), q[1..])
  }

  function Step<T>(q: seq<T>, cap: nat, op: Op<T>): (Option<T>, seq<T>)
  {
    match op
    case PushOp(x) => Push(q, cap, x)
    case ReadOp => Read(q)
  }

  /** The answers to `ops`, in order, and the queue left afterwards. */
  function Run<T>(q: seq<T>, cap: nat, ops: seq<Op<T>>): (r: (seq<Option<T>>, seq<T>))
    ensures |r.0| == |ops|
    ensures |q| <= cap ==> |r.1| <= cap
    decreases |ops|
  {
    if ops == [] then ([], q)
    else
      var (out, q1) := Step(q, cap, ops[0]);
      var (outs, q2) := Run(q1, cap, ops[1..]);
      ([out] + outs, q2)
  }

  /** Running `a + b` is running `a` and then `b` from where `a` left off. */
  lemma {:induction false} RunAppend<T>(q: seq<T>, cap: nat, a: seq<Op<T>>, b: seq<Op<T>>)
    ensures Run(q, cap, a + b) ==
      (Run(q, cap, a).0 + Run(Run(q, cap, a).1, cap, b).0, Run(Run(q, cap, a).1, cap, b).1)
    decreases |a|
  {
    if a == [] {
      assert a + b == b;
      assert Run(q, cap, a) == ([], q);
      assert [] + Run(q, cap, b).0 == Run(q, cap, b).0;
    } else {
      assert (a + b)[0] == a[0];
      assert (a + b)[1..] == a[1..] + b;
      var (out, q1) := Step(q, cap, a[0]);
      RunAppend(q1, cap, a[1..], b);
      var (outsA, qa) := Run(q1, cap, a[1..]);
      var (outsB, qb) := Run(qa, cap, b);
      assert Run(q, cap, a) == ([out] + outsA, qa);
      assert Run(q, cap, a + b) == ([out] + (outsA + outsB), qb);
      assert [out] + (outsA + outsB) == ([out] + outsA) + outsB;
    }
  }

  /** `push` of each element of `xs`, in order. */
  function Pushes<T>(xs: seq<T>): (ops: seq<Op<T>>)
    ensures |ops| == |xs|
    ensures forall i :: 0 <= i < |xs| ==> ops[i] == PushOp(xs[i])
  {
    seq(|xs|, i requires 0 <= i < |xs| => PushOp(xs[i]))
  }

  /** `k` calls of `read`. */
  function Reads<T>(k: nat): (ops: seq<Op<T>>)
    ensures |ops| == k
    ensures forall i :: 0 <= i < k ==> ops[i] == ReadOp
  {
    seq(k, _ => ReadOp)
  }

  function Nones<T>(k: nat): (outs: seq<Option<T>>)
    ensures |outs| == k
    ensures forall i :: 0 <= i < k ==> outs[i] == None
  {
    seq(k, _ => None)
  }

  function Somes<T>(xs: seq<T>): (outs: seq<Option<T>>)
    ensures |outs| == |xs|
    ensures forall i :: 0 <= i < |xs| ==> outs[i] == Some(xs[i])
  {
    seq(|xs|, i requires 0 <= i < |xs| => Some(xs[i]))
  }

  /** Pushing items that fit accepts every one and appends them in order. */
  lemma {:induction false} PushesFit<T>(q: seq<T>, cap: nat, xs: seq<T>)
    requires |q| + |xs| <= cap
    ensures Run(q, cap, Pushes(xs)) == (Nones(|xs|), q + xs)
    decreases |xs|
  {
    if xs == [] {
      assert q + xs == q;
    } else {
      var ops := Pushes(xs);
      assert ops[1..] == Pushes(xs[1..]);
      PushesFit(q + [xs[0]], cap, xs[1..]);
      assert (q + [xs[0]]) + xs[1..] == q + xs;
      assert [None] + Nones(|xs| - 1) == Nones<T>(|xs|);
    }
  }

  /** Reading as many times as there are items yields them all, in order. */
  lemma {:induction false} ReadsDrain<T>(q: seq<T>, cap: nat)
    ensures Run(q, cap, Reads(|q|)) == (Somes(q), [])
    decreases |q|
  {
    if q != [] {
      var ops := Reads<T>(|q|);
      assert ops[1..] == Reads(|q| - 1);
      ReadsDrain(q[1..], cap);
      assert [Some(q[0])] + Somes(q[1..]) == Somes(q);
    }
  }

  /** The fill / reject / drain / refill pattern on a queue that starts
      empty: `cap` accepted pushes, one rejected push, `cap` reads in push
      order, one read of an empty queue, then a push and read that succeed. */
  lemma FillRejectDrainRefill<T>(cap: nat, xs: seq<T>, y: T, z: T)
    requires |xs| == cap > 0
    ensures Run([], cap, Pushes(xs) + [PushOp(y)] + Reads(cap) + [ReadOp, PushOp(z), ReadOp]).0
         == Nones(cap) + [Some(y)] + Somes(xs) + [None, None, Some(z)]
  {
    var fill := Pushes(xs);
    var tail := [ReadOp, PushOp(z), ReadOp];
    PushesFit([], cap, xs);
    assert [] + xs == xs;
    ReadsDrain(xs, cap);
    RunAppend([], cap, fill, [PushOp(y)]);
    RunAppend([], cap, fill + [PushOp(y)], Reads(cap));
    RunAppend([], cap, fill + [PushOp(y)] + Reads(cap), tail);
    assert Run(xs, cap, [PushOp(y)]) == ([Some(y)], xs) by {
      assert [PushOp(y)][1..] == [];
      assert [Some(y)] + [] == [Some(y)];
    }
    assert Run<T>([], cap, tail) == ([None, None, Some(z)], []) by {
      var ops: seq<Op<T>> := [ReadOp];
      var none: Option<T> := None;
      assert ops[1..] == [];
      assert [none] + [] == [none] && [Some(z)] + [] == [Some(z)];
      assert Run([z], cap, ops) == ([Some(z)], []) by {
        assert [z][1..] == [];
      }
      assert Run([], cap, ops) == ([None], []);
      assert Run([], cap, [PushOp(z)] + ops) == ([None, Some(z)], []) by {
        assert ([PushOp(z)] + ops)[1..] == ops;
        var e: seq<T> := [];
        assert e + [z] == [z];
        assert Step(e, cap, PushOp(z)) == (None, [z]);
        assert [none] + [Some(z)] == [None, Some(z)];
      }
      assert tail == [ReadOp] + ([PushOp(z)] + ops);
      assert tail[1..] == [PushOp(z)] + ops;
      assert [none] + [None, Some(z)] == [None, None, Some(z)];
    }
  }
}
