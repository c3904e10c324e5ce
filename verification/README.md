# Ring buffer `Ring<T>` in Dafny

A model of `Ring<T>` from `src/lib.rs` of the `ring_buffer` crate. The ring is a
fixed-capacity FIFO buffer. It holds a vector of optional slots and two
free-running `usize` counters, `write` and `read`. The slot of a counter `c` is
`c % capacity`, and the counters wrap at 2^64. Its operations are `with_size`,
`len`, `push`, `read` and `is_empty`.

The model is functional. A ring is an immutable value `RingRep(buffer, write, read)`.
Its buffer is a `seq<Option<T>>` shorter than 2^64, and its counters are `usize`
values. `usize` is the subset type `0 <= x < 2^64` with explicit `WrappingAdd`
and `WrappingSub`. Each operation returns its result paired with the new ring.
The source's plain `+` and `-` on `usize` would panic on overflow in a debug
build. In the model they are proof obligations, and none of them fails.

Modules, one file each:

- `Usize` (`usize.dfy`): the 64-bit counter type and its wrapping operations.
- `ModArith` (`mod_arith.dfy`): helper facts about Euclidean `%`.
- `Wrappers` (`wrappers.dfy`): `Option<T>`.
- `RingBuffer` (`ring_buffer.dfy`): the operations, as the source writes them.
- `BoundedQueue` (`bounded_queue.dfy`): the reference behaviour. It is a plain
  sequence with a capacity. It hands a pushed item back when full and answers
  `None` when empty.
- `RingInvariant` (`ring_invariant.dfy`): the occupancy invariant, and the proof
  that the ring refines the bounded queue while the invariant holds.
- `RingCapacity` (`ring_capacity.dfy`): which capacities survive the counter
  wrap. It contains the capacity-3 counterexample and the corrected constructor.
- `RingScenarios` (`ring_scenarios.dfy`): the crate's `wrap_at_end` test and the
  push/read pattern of its doc example.

The invariant `Inv` holds when four things are true:

- there is at least one slot;
- `len() <= capacity`;
- either the capacity divides 2^64, or `write` has not wrapped below `read`;
- slot `i` is occupied exactly when `(i - read) mod capacity < len()`.

`OccupiedIffCounter` restates the last rule: slot `i` is occupied iff it is the
slot of some counter in `[read, write)`. While `Inv` holds, the skip branch of
`push` is dead. A read keeps `Inv` and is exactly the bounded queue's read under
`Inv` alone. A push keeps `Inv` and is exactly the bounded queue's push only when,
in addition, the capacity divides 2^64 or `write < usize::MAX`. With any other
capacity, a push at `write == usize::MAX` can leave a ring outside `Inv`; the
capacity-3 counterexample continues from such a state. Over a whole run of calls
the ring is therefore the bounded queue in two cases: the capacity divides 2^64,
or `write` plus the number of calls stays at most `usize::MAX`. The second case
covers every ring `with_size` builds, for any run of fewer than 2^64 calls.

## Model

| member | source | states |
|---|---|---|
| `RingBuffer.WithSize` | src/lib.rs:41-51 | Returns `None` exactly when `len % 4 == 0`, so 0 is refused too. Otherwise the ring has `len` slots, all `None`, and `write == read == 0`. |
| `RingInvariant.WithSizeEstablishesInv` | src/lib.rs:41-51 | A ring built by `with_size` satisfies the occupancy invariant and holds no items. |
| `RingBuffer.Len` | src/lib.rs:53-59 | Neither branch underflows or overflows `usize`. The result `n` is the forward distance from `read` to `write` on the circle of 2^64 values: `(read + n) mod 2^64 == write`. It is `write - read` without a wrap and `write + 2^64 - read` with one. It is 0 exactly when the counters are equal, including at `usize::MAX`. |
| `RingBuffer.IsEmpty` | src/lib.rs:87-89 | True exactly when `write == read`, which is exactly when `len() == 0`. |
| `RingBuffer.Push` | src/lib.rs:61-72 | If `len() >= capacity`, returns `Some(item)` and the ring unchanged. Otherwise returns `None`, keeps `read` and the slot count, and stores the item at slot `w % capacity`. Here `w` is `write`, or `write + 1` (mod 2^64) when the slot at `write` is occupied. `write` becomes `w + 1` (mod 2^64), and every other slot is unchanged. A push that does not skip raises `len()` by exactly 1 and never above capacity. |
| `RingBuffer.Read` | src/lib.rs:74-85 | On an empty ring, returns `None` and the ring unchanged. Otherwise returns the content of slot `read % capacity` and leaves that slot `None`. `write` and the other slots are unchanged. `read` advances by one (mod 2^64) exactly when a value was present. A read that returns a value lowers `len()` by 1. |
| `RingInvariant.OccupiedIffCounter` | src/lib.rs:61-85 | Under the invariant, slot `i` is occupied iff `i` is the slot of some counter in `[read, write)`, with counters taken mod 2^64. Both directions are proved. |
| `RingInvariant.SkipIsDead` | src/lib.rs:63-66 | Under the invariant, a push with room always finds the slot at `write` empty, so the skip branch never runs. |
| `RingInvariant.PushRefines` | src/lib.rs:61-72 | Applies when the invariant holds and the capacity divides 2^64 or `write` does not wrap. Then `push` keeps the invariant, so `len() <= capacity` still holds. It also answers and changes the contents exactly as the bounded queue's push: the item is rejected when full, otherwise appended. |
| `RingInvariant.ReadRefines` | src/lib.rs:74-85 | Under the invariant, `read` keeps the invariant. It answers and changes the contents exactly as the bounded queue's read: `None` when empty, otherwise the oldest item, which is removed. |
| `RingInvariant.RunRefines` | src/lib.rs:61-85 | Every sequence of pushes and reads from a ring in the invariant gives the bounded queue's answers, in order, ends with the queue's contents, and stays in the invariant. This holds when the capacity divides 2^64, across any number of counter wraps, and for any capacity when `write` plus the number of calls is at most `usize::MAX`. |
| `RingCapacity.WrapKeepsSlotsConsecutive` | src/lib.rs:64-67 | The slot after `usize::MAX`'s slot is counter 0's slot exactly when the capacity divides 2^64. |
| `RingCapacity.PushReadPairsReach` | src/lib.rs:61-85 | From an empty ring, `k` rounds of one push and one read move both counters forward by `k` and leave every slot empty, provided no counter wraps. So any counter value is reachable from a fresh ring. |
| `RingCapacity.CapacityThreeLosesItems` | src/lib.rs:42-85 | `with_size(3)` succeeds. Its ring reaches both counters at `usize::MAX - 1`. Pushing `a`, `b`, `c` from there takes the skip branch and leaves `len()` at 4 on 3 slots. The reads then return `a`, then `b`, then `None` while `len()` is 2, and `c` is never returned. As one run, the six calls answer `None, None, None, a, b, None`, while the bounded queue of capacity 3 answers `c` last. |
| `RingCapacity.WithSizeAligned` | src/lib.rs:41-51 | The corrected constructor. Returns `None` exactly when the capacity does not divide 2^64, which includes 0. Otherwise returns an empty ring of that many slots, in the invariant. |
| `RingCapacity.WithSizeIsFifo` | src/lib.rs:41-85 | Every ring `with_size` returns, of any accepted capacity, answers every sequence of fewer than 2^64 calls as the bounded queue of its capacity would, and `len()` never exceeds the capacity. |
| `RingCapacity.AlignedRingIsFifo` | src/lib.rs:41-85 | Every ring from `WithSizeAligned` answers every sequence of calls as the bounded queue of its capacity would, and `len()` never exceeds the capacity. |
| `RingScenarios.WrapAtEnd` | src/lib.rs:97-116 | Four slots, both counters at `usize::MAX`. `len()` is 0. Pushing `MAX`, `0`, `1` gives `len()` 1, 2, 3, and three reads return `MAX`, `0`, `1` in order. |
| `RingScenarios.FillRejectDrainRefill` | src/lib.rs:15-29 | On any ring in the invariant that holds no items (every slot `None`, as in a fresh ring), whose capacity divides 2^64 or whose `write` is at most `usize::MAX - 2 * capacity - 4`: `capacity` pushes succeed and one more is handed back. The reads return the pushed items in order, then `None`. A later push succeeds and is read back. |
| `RingScenarios.DocExample` | src/lib.rs:11-30 | The doc example on a 16-slot ring built by `WithSizeAligned`. `0..15` are pushed and read back in order, `3` is handed back when full, the drained ring reads `None`, and `16` is then pushed and read. |

## Findings

| source | as written | input that shows it | evidently intended | confidence | as-written member | corrected member |
|---|---|---|---|---|---|---|
| src/lib.rs:42 | `with_size` refuses only multiples of 4. It accepts capacities such as 3 that do not divide 2^64. Slots are `counter % capacity` with counters wrapping at 2^64, so with such a capacity the counters `usize::MAX` and 0 share a slot. | Call `with_size(3)`, then do 2^64 - 2 rounds of push and read. Then push `a`, `b`, `c` and read three times. The third push skips an occupied slot and `len()` becomes 4. The third read returns `None` while `len()` is 2, and `c` is never returned. | Accept only capacities for which `counter % capacity` stays consecutive across the wrap, that is, divisors of 2^64 (powers of two). The doc comment's "Must be a multiple of 2" and its capacity 16 point toward powers of two, though a multiple of 2 such as 6 fails the same way. | medium: needs 2^64 operations; not executed | `RingCapacity.CapacityThreeLosesItems` | `RingCapacity.WithSizeAligned` |

## Left out

- The `Clone + Debug` bounds, `#[derive(Debug)]` and the `println!` calls in the test are trait plumbing and output. They have no behaviour to model.
- Allocating once (src/lib.rs:6) is a property of `Vec`, not of this code. The model keeps the buffer a sequence whose length no operation changes: `Push` and `Read` state this, and so does `Run`.
- `RingBuffer.WithSize` does not model allocation failure. `vec![None; len]` (src/lib.rs:47) panics on a capacity overflow or out of memory for a large `len`, such as `usize::MAX`. The model returns `Some` there, because allocation is `Vec`'s behaviour, not this code's.
- `with_size(16).unwrap()` in the doc example (src/lib.rs:13) would fail as written, because 16 is a multiple of 4. `DocExample` builds its ring with `WithSizeAligned` instead.
- `RingBuffer.Read` requires `|buffer| > 0 || IsEmpty(ring)`. A non-empty ring with no slots makes the source compute `read % 0`, which panics. Only a struct literal inside the crate can build such a ring: `with_size` refuses 0, and `push` never succeeds on it.
- Debug-mode overflow panics are not modelled as outcomes. Every `usize` result is proved in range instead.
- `RingCapacity.WithSizeIsFifo` promises FIFO behaviour only for runs of fewer than 2^64 calls. With a capacity that does not divide 2^64, a longer run can reach the counter wrap, and the capacity-3 finding shows that FIFO order then fails.
- Concurrent use is out of scope: the type is single-owner mutable state with no synchronisation.
- The model keeps the code's own policies, which differ from a textbook ring buffer. Capacities that are multiples of 4 are refused. `push` skips past an occupied slot rather than overwriting it. `read` leaves `read` in place when the slot is `None`.
