/** Facts about Euclidean `%` that the ring proofs need: slot indices are
    counters reduced modulo the capacity, and counters are themselves
    reduced modulo 2^64. */
module ModArith {

  /** Division by a positive modulus has exactly one remainder. */
  lemma ModUnique(x: int, n: int, q: int, r: int)
    requires n > 0 && 0 <= r < n && x == n * q + r
    ensures x % n == r
  {
    var d := q - x / n;
    assert n * d == x % n - r by {
      assert x == n * (x / n) + x % n;
      assert n * q - n * (x / n) == n * d;
    }
  }

  /** Adding a multiple of the modulus does not move the remainder. */
  lemma ModAddMultiple(x: int, n: int, j: int)
    requires n > 0
    ensures (x + n * j) % n == x % n
  {
    assert x + n * j == n * (x / n + j) + x % n;
    ModUnique(x + n * j, n, x / n + j, x % n);
  }

  /** Reducing first by a multiple `m` of `n` is invisible modulo `n`. */
  lemma ModOfMod(x: int, m: int, n: int)
    requires n > 0 && m > 0 && m % n == 0
    ensures x % m % n == x % n
  {
    var c := m / n;
    assert m == n * c;
    assert x % m == x + n * (-(c * (x / m))) by {
      assert x == m * (x / m) + x % m;
      assert m * (x / m) == n * (c * (x / m));
    }
    ModAddMultiple(x, n, -(c * (x / m)));
  }

  /** The slot `k` steps after `a` lies `k` steps after `a`'s slot. */
  lemma OffsetOfSlot(a: int, k: int, n: int)
    requires n > 0 && 0 <= k < n
    ensures ((a + k) % n - a) % n == k
  {
    var q := (a + k) / n;
    assert (a + k) % n - a == n * (-q) + k;
    ModUnique((a + k) % n - a, n, -q, k);
  }

  /** Two distinct offsets below `n` name distinct slots. */
  lemma SlotsDistinct(a: int, j: int, k: int, n: int)
    requires n > 0 && 0 <= j < n && 0 <= k < n && j != k
    ensures (a + j) % n != (a + k) % n
  {
    OffsetOfSlot(a, j, n);
    OffsetOfSlot(a, k, n);
  }

  /** Moving the origin one step forward lowers every offset by one, and
      the origin's own slot moves to the far end. */
  lemma OffsetStep(i: int, a: int, n: int)
    requires n > 0
    ensures (i - (a + 1)) % n == if (i - a) % n == 0 then n - 1 else (i - a) % n - 1
  {
    var o := (i - a) % n;
    var q := (i - a) / n;
    assert i - a == n * q + o;
    if o == 0 {
      assert i - (a + 1) == n * (q - 1) + (n - 1);
      ModUnique(i - (a + 1), n, q - 1, n - 1);
    } else {
      assert i - (a + 1) == n * q + (o - 1);
      ModUnique(i - (a + 1), n, q, o - 1);
    }
  }

  /** A slot is the slot of its own offset from any origin. */
  lemma SlotOfOffset(i: int, a: int, n: int)
    requires n > 0 && 0 <= i < n
    ensures (a + (i - a) % n) % n == i
  {
    var q := (i - a) / n;
    assert a + (i - a) % n == n * (-q) + i;
    ModUnique(a + (i - a) % n, n, -q, i);
  }

  /** Offsets from `y` and from `y` reduced by a multiple of `n` agree. */
  lemma OffsetOfReduced(x: int, y: int, m: int, n: int)
    requires n > 0 && m > 0 && m % n == 0
    ensures (x - y % m) % n == (x - y) % n
  {
    var c := m / n;
    assert m == n * c;
    assert x - y % m == x - y + n * (c * (y / m)) by {
      assert y == m * (y / m) + y % m;
      assert m * (y / m) == n * (c * (y / m));
    }
    ModAddMultiple(x - y, n, c * (y / m));
  }
}
