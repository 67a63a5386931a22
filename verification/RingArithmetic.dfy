/** Facts about positions that run round a ring of n slots: position k sits in
    slot k % n during lap k / n.  Every ring buffer of the kernel counts this way. */
module RingArithmetic {

  /** The cycle bit a producer that starts with 1 and flips on wrap uses for position k. */
  predicate LapCycle(k: nat, n: nat)
    requires n > 0
  {
    (k / n) % 2 == 0
  }

  lemma MulMonotone(a: int, b: int, n: int)
    requires a <= b && n >= 0
    ensures a * n <= b * n
  {
  }

  /** Quotient and remainder are the only way to split a number. */
  lemma SplitUnique(n: int, q: int, r: int, q': int, r': int)
    requires 0 <= r < n && 0 <= r' < n && q * n + r == q' * n + r'
    ensures q == q' && r == r'
  {
    if q != q' {
      MulMonotone(if q < q' then q + 1 else q' + 1, if q < q' then q' else q, n);
      assert false;
    }
  }

  lemma DivModUnique(k: int, n: int, q: int, r: int)
    requires n > 0 && 0 <= r < n && k == q * n + r
    ensures k / n == q && k % n == r
  {
    SplitUnique(n, q, r, k / n, k % n);
  }

  /** Stepping one position forward. */
  lemma Advance(k: nat, n: nat)
    requires n > 0
    ensures (k + 1) % n == (k % n + 1) % n
    ensures (k % n + 1) % n == if k % n + 1 == n then 0 else k % n + 1
    ensures LapCycle(k + 1, n) == if (k + 1) % n == 0 then !LapCycle(k, n) else LapCycle(k, n)
  {
    var q, r := k / n, k % n;
    if r + 1 == n {
      DivModUnique(k + 1, n, q + 1, 0);
      DivModUnique(r + 1, n, 1, 0);
    } else {
      DivModUnique(k + 1, n, q, r + 1);
      DivModUnique(r + 1, n, 0, r + 1);
    }
  }

  /** Two positions less than one lap apart never share a slot. */
  lemma SlotsDistinct(i: nat, j: nat, n: nat)
    requires i < j < i + n
    ensures i % n != j % n
  {
    var q, r := i / n, i % n;
    if r + (j - i) < n {
      DivModUnique(j, n, q, r + (j - i));
    } else {
      DivModUnique(j, n, q + 1, r + (j - i) - n);
    }
  }

  /** One lap earlier the slot is the same and the cycle bit is the opposite one. */
  lemma PreviousLap(k: nat, n: nat)
    requires 0 < n <= k
    ensures (k - n) % n == k % n
    ensures LapCycle(k - n, n) == !LapCycle(k, n)
  {
    DivModUnique(k - n, n, k / n - 1, k % n);
  }

  /** The first lap: positions are slots and the cycle bit is 1. */
  lemma FirstLap(k: nat, n: nat)
    requires k < n
    ensures k % n == k && LapCycle(k, n)
  {
    DivModUnique(k, n, 0, k);
  }
}
