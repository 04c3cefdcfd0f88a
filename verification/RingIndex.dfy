/** The arithmetic of src/common/ring_buffer.h: free-running 64-bit indices reduced modulo a
    power-of-two capacity. */
module RingIndex {
  import opened Arithmetic

  /** What the static assertions of lines 30-31 leave: a power of two below half the index range. */
  ghost predicate ValidCapacity(capacity: nat) {
    exists k :: 0 <= k <= 62 && capacity == Pow2(k)
  }

  /** `a - b` on `std::size_t`. */
  function WrapSub(a: nat, b: nat): (r: nat)
    requires a < 2 * WRAP && b < WRAP
    ensures r < WRAP
  {
    if a >= b then (a - b) % WRAP else a + WRAP - b
  }

  /** The slot of the `total`-th slot pushed or popped. */
  function Slot(capacity: nat, total: int): (r: nat)
    requires capacity > 0
    ensures r < capacity
  {
    total % capacity
  }

  /** Lines 45-52 and 72-79: where slot `k` of a copy of `count` slots that starts at `index` goes. */
  function SlotOf(capacity: nat, index: nat, count: nat, k: nat): nat
    requires capacity > 0
  {
    var pos := index % capacity;
    var firstCopy := Min(capacity - pos, count);
    if k < firstCopy then pos + k else k - firstCopy
  }

  lemma CapacityDividesWrap(capacity: nat)
    requires ValidCapacity(capacity)
    ensures 1 <= capacity < WRAP / 2 && WRAP % capacity == 0
  {
    var k :| 0 <= k <= 62 && capacity == Pow2(k);
    WrapIsPow2();
    Pow2Add(k, 64 - k);
    Pow2Add(k, 62 - k);
    Pow2Add(62, 2);
    assert Pow2(2) == 4;
    assert Pow2(62) == WRAP / 4;
    MultipleMod(Pow2(64 - k), capacity);
    Product(capacity, Pow2(62 - k));
  }

  lemma Product(a: nat, b: nat)
    requires b >= 1
    ensures a <= a * b
  {
  }

  lemma MultipleMod(q: nat, m: nat)
    requires m > 0
    ensures (m * q) % m == 0
  {
    ModUnique(m * q, m, q, 0);
  }

  /** Reducing an index to 64 bits first does not change its slot, when the capacity divides 2^64. */
  lemma WrappedSlot(capacity: nat, x: nat)
    requires capacity > 0 && WRAP % capacity == 0
    ensures (x % WRAP) % capacity == x % capacity
  {
    var q, c := x / WRAP, WRAP / capacity;
    assert x == WRAP * q + x % WRAP && WRAP == capacity * c;
    var y := x % WRAP;
    assert WRAP * q == capacity * (c * q);
    var d := y / capacity;
    assert x == capacity * (c * q + d) + y % capacity by {
      assert capacity * (c * q + d) == capacity * (c * q) + capacity * d;
    }
    ModUnique(x, capacity, c * q + d, y % capacity);
  }

  /** The capacities for which a wrapped index names the same slot as an unbounded one are exactly
      the divisors of 2^64: the reason the capacity must be a power of two. */
  lemma WrapSafeExactly(capacity: nat)
    requires capacity > 0
    ensures (forall x: nat :: (x % WRAP) % capacity == x % capacity) <==> WRAP % capacity == 0
  {
    if WRAP % capacity == 0 {
      forall x: nat ensures (x % WRAP) % capacity == x % capacity {
        WrappedSlot(capacity, x);
      }
    } else {
      assert (WRAP % WRAP) % capacity == 0;
    }
  }

  /** Adding to an index that is then wrapped. */
  lemma WrapAdd(x: nat, n: nat)
    ensures (x % WRAP + n) % WRAP == (x + n) % WRAP
  {
  }

  /** The difference of two wrapped totals is the difference of the totals, while that is small. */
  lemma WrapDifference(w: nat, r: nat, extra: nat)
    requires r <= w + extra && w + extra - r < WRAP && extra < WRAP
    ensures WrapSub(w % WRAP + extra, r % WRAP) == w + extra - r
  {
  }

  /** The two-part copy visits the slots of consecutive totals. */
  lemma SlotIsModulo(capacity: nat, total: nat, count: nat, k: nat)
    requires capacity > 0 && WRAP % capacity == 0 && k < count <= capacity
    ensures SlotOf(capacity, total % WRAP, count, k) == Slot(capacity, total + k)
  {
    WrappedSlot(capacity, total);
    var pos := total % capacity;
    var q := total / capacity;
    assert total == capacity * q + pos;
    if pos + k < capacity {
      ModUnique(total + k, capacity, q, pos + k);
    } else {
      assert capacity * (q + 1) == capacity * q + capacity;
      ModUnique(total + k, capacity, q + 1, pos + k - capacity);
    }
  }

  /** Totals less than a capacity apart lie in different slots. */
  lemma DistinctSlots(capacity: nat, i: nat, j: nat)
    requires capacity > 0 && i < j < i + capacity
    ensures Slot(capacity, i) != Slot(capacity, j)
  {
    if i % capacity == j % capacity {
      var d := j / capacity - i / capacity;
      assert j - i == capacity * d by {
        assert i == capacity * (i / capacity) + i % capacity;
        assert j == capacity * (j / capacity) + j % capacity;
      }
      Multiples(capacity, d);
    }
  }
}
