/** Equal slots in a flat stretch of memory, as pools and message queues lay them out. */
module Slots {

  lemma MulNat(a: nat, b: nat)
    ensures 0 <= a * b
  {
  }

  /** Slot i of n lies inside the stretch. */
  lemma SlotInside(i: nat, n: nat, size: nat)
    requires i < n
    ensures 0 <= i * size && i * size + size <= n * size
  {
    MulNat(i, size);
    MulNat(n - (i + 1), size);
    assert (i + 1) * size == i * size + size;
    assert n * size == (i + 1) * size + (n - (i + 1)) * size;
  }

  lemma SlotsApart(i: nat, j: nat, size: nat)
    requires i != j
    ensures i * size + size <= j * size || j * size + size <= i * size
  {
    if i < j {
      SlotInside(i, j, size);
    } else {
      SlotInside(j, i, size);
    }
  }

  /** An offset is the start of slot i exactly if it divides evenly with quotient i. */
  lemma SlotStart(offset: nat, i: nat, size: nat)
    requires size > 0
    ensures offset == i * size <==> offset % size == 0 && offset / size == i
  {
    var q := offset / size;
    assert offset == q * size + offset % size;
    if offset == i * size {
      if i < q {
        SlotInside(i, q, size);
      } else if q < i {
        SlotInside(q, i, size);
      }
    }
  }

  // ---------------------------------------------------------------------------------------------
  // Rings of slots
  // ---------------------------------------------------------------------------------------------

  /** The slot k places after slot at, in a ring of n. */
  function RingIndex(at: nat, k: nat, n: nat): (i: nat)
    requires at < n && k <= n
    ensures i < n
  {
    if at + k < n then at + k else at + k - n
  }

  /** The C code's (i + 1) % n. */
  lemma RingNext(at: nat, k: nat, n: nat)
    requires at < n && k < n
    ensures (RingIndex(at, k, n) + 1) % n == RingIndex(at, k + 1, n)
  {
    Wrap(RingIndex(at, k, n) + 1, n);
  }

  lemma Wrap(x: nat, n: nat)
    requires 0 < n && x < 2 * n
    ensures x % n == if x < n then x else x - n
  {
    if x >= n {
      assert x == n * 1 + (x - n);
    }
  }

  /** Stepping the start forward renumbers the slots behind it. */
  lemma RingStep(at: nat, k: nat, n: nat)
    requires at < n && k < n
    ensures RingIndex(RingIndex(at, 1, n), k, n) == RingIndex(at, k + 1, n)
  {
  }

  lemma RingInjective(at: nat, j: nat, k: nat, n: nat)
    requires at < n && j < n && k < n && j != k
    ensures RingIndex(at, j, n) != RingIndex(at, k, n)
  {
  }
}
