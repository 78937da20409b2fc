/** Facts about Euclidean division that the solver does not find by itself. */
module Arithmetic {
  lemma Quotient(a: int, n: int, q: int, r: int)
    requires n > 0 && 0 <= r < n && a == n * q + r
    ensures a / n == q && a % n == r
  {
    var d := a / n - q;
    assert n * d == r - a % n by {
      assert n * d == n * (a / n) - n * q;
    }
    assert d > 0 ==> n * d >= n;
    assert d < 0 ==> n * d <= -n;
  }

  lemma DivShift(a: int, n: int, k: int)
    requires n > 0
    ensures (a + n * k) / n == a / n + k && (a + n * k) % n == a % n
  {
    assert a + n * k == n * (a / n + k) + a % n;
    Quotient(a + n * k, n, a / n + k, a % n);
  }
}
