/** Division with remainder. */
module Modular {
  /** Quotient and remainder are unique. */
  lemma DivModUnique(a: int, q: int, r: int, n: int)
    requires n > 0 && a == q * n + r && 0 <= r < n
    ensures a / n == q && a % n == r
  {
    var q', r' := a / n, a % n;
    assert a == q' * n + r';
    if q > q' {
      ProductAtLeast(q - q', n);
    } else if q < q' {
      ProductAtLeast(q' - q, n);
    }
  }

  lemma {:induction false} ProductAtLeast(k: int, n: int)
    requires k >= 1 && n >= 0
    ensures k * n >= n
    decreases k
  {
    if k > 1 {
      ProductAtLeast(k - 1, n);
      assert k * n == (k - 1) * n + n;
    }
  }

  lemma ProductMonotone(a: int, b: int, n: int)
    requires a <= b && n >= 0
    ensures a * n <= b * n
  {
    if a < b {
      ProductAtLeast(b - a, n);
      assert b * n == a * n + (b - a) * n;
    }
  }
}
