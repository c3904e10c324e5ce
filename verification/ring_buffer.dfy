/** The ring buffer `Ring<T>` of src/lib.rs: a fixed vector of optional slots
    and two free-running `usize` counters. The slot of a counter `c` is
    `c % capacity`; the counters wrap at 2^64. Every operation is a pure
    function returning the result together with the updated ring. */
module RingBuffer {
  import opened Usize
  import opened Wrappers

  datatype RingRep<T> = RingRep(buffer: seq<Option<T>>, write: usize, read: usize)

  /** A `Vec` never holds more than `usize::MAX` elements. */
  type Ring<T> = r: RingRep<T> | |r.buffer| < MODULUS witness RingRep([], 0, 0)

  /** `Ring::with_size`: refuses every multiple of 4 (so also 0), otherwise
      builds `len` empty slots with both counters at 0. */
  function WithSize<T>(len: usize): (r: Option<Ring<T>>)
    ensures r.None? <==> len % 4 == 0
    ensures r.Some? ==> |r.value.buffer| == len && r.value.write == 0 && r.value.read == 0
    ensures r.Some? ==> forall i :: 0 <= i < len ==> r.value.buffer[i] == None
  {
    if len % 4 == 0 then None else Some(RingRep(seq(len, _ => None), 0, 0))
  }

  /** `Ring::len`, with the arithmetic of the source: when `write` has wrapped
      below `read`, `(usize::MAX - read.wrapping_sub(1)) + write`, otherwise
      `write - read`. Neither subtraction nor the addition overflows, and the
      result is the forward distance from `read` to `write` on the circle of
      2^64 counter values. */
  function Len<T>(ring: Ring<T>): (n: usize)
    ensures (ring.read + n) % MODULUS == ring.write
    ensures ring.read <= ring.write ==> n == ring.write - ring.read
    ensures ring.write < ring.read ==> n == ring.write + MODULUS - ring.read
    ensures n == 0 <==> ring.write == ring.read
  {
    if ring.write < ring.read then
      var head: usize := MAX - WrappingSub(ring.read, 1);
      head + ring.write
    else
      ring.write - ring.read
  }

  /** `Ring::is_empty`. */
  function IsEmpty<T>(ring: Ring<T>): (b: bool)
    ensures b <==> ring.write == ring.read
  {
    Len(ring) == 0
  }

  /** `Ring::push`. On a full ring (`len() >= capacity`) the item comes back
      and nothing changes. Otherwise, if the slot at `write` is still
      occupied, `write` first steps past it; the item is then stored at the
      slot of `write`, `write` advances once more, and `None` is returned. */
  function Push<T>(ring: Ring<T>, item: T): (p: (Option<T>, Ring<T>))
    ensures Len(ring) >= |ring.buffer| ==> p == (Some(item), ring)
    ensures Len(ring) < |ring.buffer| ==>
      var n := |ring.buffer|;
      var skip := ring.buffer[ring.write % n].Some?;
      var target := (ring.write + (if skip then 1 else 0)) % MODULUS;
      && p.0 == None
      && |p.1.buffer| == n
      && p.1.buffer[target % n] == Some(item)
      && (forall i :: 0 <= i < n && i != target % n ==> p.1.buffer[i] == ring.buffer[i])
      && p.1.write == (target + 1) % MODULUS
      && p.1.read == ring.read
    ensures Len(ring) < |ring.buffer| && ring.buffer[ring.write % |ring.buffer|] == None ==>
      Len(p.1) == Len(ring) + 1 <= |ring.buffer|
  {
    var n := |ring.buffer|;
    if Len(ring) < n then
      var w := if ring.buffer[ring.write % n].Some? then WrappingAdd(ring.write, 1) else ring.write;
      (None, RingRep(ring.buffer[w % n := Some(item)], WrappingAdd(w, 1), ring.read))
    else
      (Some(item), ring)
  }

  /** `Ring::read`. An empty ring yields `None` unchanged. Otherwise the slot
      at `read` is taken (left `None`) and returned, and `read` advances only
      if that slot held a value. A non-empty ring with no slots would divide
      by zero in the source, hence the precondition. */
  function Read<T>(ring: Ring<T>): (p: (Option<T>, Ring<T>))
    requires |ring.buffer| > 0 || IsEmpty(ring)
    ensures IsEmpty(ring) ==> p == (None, ring)
    ensures !IsEmpty(ring) ==>
      var i := ring.read % |ring.buffer|;
      && p.0 == ring.buffer[i]
      && p.1.buffer == ring.buffer[i := None]
      && p.1.write == ring.write
      && p.1.read == (if p.0.Some? then (ring.read + 1) % MODULUS else ring.read)
    ensures p.0.Some? ==> Len(p.1) == Len(ring) - 1
  {
    if IsEmpty(ring) then
      (None, ring)
    else
      var n := |ring.buffer|;
      var res := ring.buffer[ring.read % n];
      var read := if res.Some? then WrappingAdd(ring.read, 1) else ring.read;
      (res, RingRep(ring.buffer[ring.read % n := None], ring.write, read))
  }
}
