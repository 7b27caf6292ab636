/** Powers of two, which bucket bounds, subtree ranks and cache geometry are counted in, and division. */
module Arithmetic {
  /** `1 << n`. */
  function Pow2(n: nat): (p: nat)
    ensures p > 0
  {
    if n == 0 then 1 else 2 * Pow2(n - 1)
  }

  lemma {:induction false} Pow2Monotone(j: nat, k: nat)
    requires j <= k
    ensures Pow2(j) <= Pow2(k)
  {
    if j < k {
      Pow2Monotone(j, k - 1);
    }
  }

  /** Quotient and remainder are determined by what they are for. */
  lemma RemainderUnique(x: nat, d: nat, q: nat, r: nat)
    requires d > 0 && x == d * q + r && r < d
    ensures x % d == r && x / d == q
  {
    var k := x / d - q;
    assert d * k == r - x % d by {
      assert x == d * (x / d) + x % d;
    }
    assert k > 0 ==> d * k >= d;
    assert k < 0 ==> d * k + d <= 0;
  }
}
