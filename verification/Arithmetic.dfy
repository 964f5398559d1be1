/** Euclidean division by a positive number. */
module Arithmetic {
  /** A quotient and a remainder in range are the ones of the division. */
  lemma QuotientIs(a: int, k: int, q: int, r: int)
    requires k > 0 && a == q * k + r && 0 <= r < k
    ensures a / k == q && a % k == r
  {
    var d := a / k - q;
    assert d > 0 ==> d * k >= k;
    assert d < 0 ==> d * k <= -k;
    assert a == (a / k) * k + a % k;
    assert d * k == r - a % k;
  }

  /** The quotient grows exactly at the multiples. */
  lemma DivNext(a: int, k: int)
    requires k > 0
    ensures (a + 1) / k - a / k == if (a + 1) % k == 0 then 1 else 0
  {
    var q, r := a / k, a % k;
    assert a == q * k + r;
    if r == k - 1 {
      assert a + 1 == (q + 1) * k;
      assert (a + 1) / k == q + 1 && (a + 1) % k == 0 by { QuotientIs(a + 1, k, q + 1, 0); }
    } else {
      QuotientIs(a + 1, k, q, r + 1);
    }
  }
}
