/** Positions in a ring buffer: counts that only grow, and the slots they fall into. */
module Rings {

  function Pow2(k: nat): (r: nat)
    ensures r > 0
  {
    if k == 0 then 1 else 2 * Pow2(k - 1)
  }

  /** Where element n lies in a ring of k. */
  function Slot(n: int, k: int): (r: int)
    requires 0 < k
    ensures 0 <= r < k
  {
    n % k
  }

  /** A multiple of k strictly between -2 * k and 2 * k. */
  lemma SmallMultiple(d: int, k: int)
    requires 0 < k && -2 * k < d * k < 2 * k
    ensures (d == -1 && d * k == -k) || (d == 0 && d * k == 0) || (d == 1 && d * k == k)
  {
  }

  lemma SlotUnique(q: int, r: int, k: int)
    requires 0 <= r < k
    ensures Slot(q * k + r, k) == r
  {
    var n := q * k + r;
    var d := n / k - q;
    assert d * k == r - n % k by { assert (q + d) * k == q * k + d * k; }
    assert -k < d * k < k;
  }

  /** Moving on by d, after or before wrapping. */
  lemma SlotMoves(n: int, d: int, k: int)
    requires 0 < k
    ensures Slot(n + d, k) == Slot(Slot(n, k) + d, k) == Slot(Slot(n, k) + d + k, k)
    ensures 0 <= Slot(n, k) + d < k ==> Slot(n + d, k) == Slot(n, k) + d
    ensures k <= Slot(n, k) + d < 2 * k ==> Slot(n + d, k) == Slot(n, k) + d - k
  {
    var p := n % k + d;
    var q, r := p / k, p % k;
    assert n + d == (n / k + q) * k + r by { assert (n / k + q) * k == n / k * k + q * k; }
    SlotUnique(n / k + q, r, k);
    assert p + k == (q + 1) * k + r by { assert (q + 1) * k == q * k + k; }
    SlotUnique(q + 1, r, k);
    if 0 <= p < k { SlotUnique(0, p, k); }
    if k <= p < 2 * k { SlotUnique(1, p - k, k); }
  }

  /** Elements less than a lap apart lie apart. */
  lemma SlotsDiffer(m: int, n: int, k: int)
    requires m < n < m + k
    ensures Slot(m, k) != Slot(n, k)
  {
    hide Slot;
    SlotMoves(m, n - m, k);
  }

  lemma SlotNext(n: nat, k: int)
    requires 0 < k
    ensures (Slot(n, k) + 1) % k == Slot(n + 1, k)
  {
    SlotMoves(n, 1, k);
  }

  lemma SlotOfZero(k: int)
    requires 0 < k
    ensures Slot(0, k) == 0
  {
  }

  lemma SlotOfSmall(n: int, k: int)
    requires 0 < k
    ensures 0 <= n < k ==> Slot(n, k) == n
  {
    if 0 <= n < k { SlotUnique(0, n, k); }
  }

  lemma SlotIsRemainder(n: int, k: int)
    requires 0 < k
    ensures n % k == Slot(n, k)
  {
  }
}
