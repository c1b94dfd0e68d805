/** Division with remainder, for code that shifts and masks. */
module Arithmetic {
  lemma Multiples(d: int, k: int)
    requires k > 0
    ensures d >= 1 ==> d * k >= k
    ensures d <= -1 ==> d * k <= -k
  {
    if d >= 1 {
      assert (d - 1) * k >= 0;
    } else if d <= -1 {
      assert (d + 1) * k <= 0;
    }
  }

  /** Quotient and remainder are unique. */
  lemma DivMod(x: int, k: int, q: int, r: int)
    requires 0 <= r < k && x == q * k + r
    ensures x / k == q && x % k == r
  {
    assert (x / k - q) * k == r - x % k;
    Multiples(x / k - q, k);
  }
}
