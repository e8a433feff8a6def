/**
 The shifts and masks of other/lu_hash.h on unsigned numbers, bit by bit, and what they compute
 when the other operand comes from a power of two.
 */
module UtBits {

  function Pow2(n: nat): (r: nat)
    ensures 0 < r
  {
    if n == 0 then 1 else 2 * Pow2(n - 1)
  }

  /** n >> k. */
  function Shr(n: nat, k: nat): nat {
    if k == 0 then n else Shr(n / 2, k - 1)
  }

  /** a & b. */
  function And(a: nat, b: nat): (r: nat)
    ensures r <= b
  {
    if a == 0 || b == 0 then 0
    else (if a % 2 == 1 && b % 2 == 1 then 1 else 0) + 2 * And(a / 2, b / 2)
  }

  /** Shifting by k and masking with k ones give the quotient and the remainder by 2^k. */
  lemma {:induction false} QuotientAndRemainder(n: nat, k: nat)
    ensures And(n, Pow2(k) - 1) < Pow2(k)
    ensures n == Shr(n, k) * Pow2(k) + And(n, Pow2(k) - 1)
    decreases k
  {
    if k > 0 {
      QuotientAndRemainder(n / 2, k - 1);
      MaskStep(n, Pow2(k - 1));
      Regroup(Shr(n, k), Pow2(k - 1));
    }
  }

  lemma MaskStep(n: nat, d: nat)
    requires 0 < d
    ensures And(n, 2 * d - 1) == n % 2 + 2 * And(n / 2, d - 1)
  {
    assert (2 * d - 1) / 2 == d - 1 && (2 * d - 1) % 2 == 1;
  }

  lemma Regroup(q: nat, d: nat)
    ensures q * (2 * d) == 2 * (q * d)
  {
  }
}
