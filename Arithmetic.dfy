/** Facts about multiplication and division that the solver does not find
    by itself. */
module Arithmetic {

  lemma {:induction false} MulGrows(k: int, n: int)
    requires k >= 1 && n > 0
    ensures k * n >= n
    decreases k
  {
    if k > 1 {
      MulGrows(k - 1, n);
      assert k * n == (k - 1) * n + n;
    }
  }

  lemma MulMonotone(a: int, b: int, n: int)
    requires a <= b && n > 0
    ensures a * n <= b * n
  {
    if a < b {
      MulGrows(b - a, n);
      assert b * n - a * n == (b - a) * n;
    }
  }

  /** Quotient and remainder are unique. */
  lemma DivUnique(a: int, n: int, q: int, r: int)
    requires n > 0 && 0 <= r < n && a == q * n + r
    ensures a / n == q && a % n == r
  {
    var q' := a / n;
    var r' := a % n;
    var d := q - q';
    assert d * n == r' - r by {
      assert q * n + r == q' * n + r';
      assert d * n == q * n - q' * n;
    }
    if d >= 1 {
      MulGrows(d, n);
    } else if d <= -1 {
      MulGrows(-d, n);
    }
  }
}
