/** Division with remainder. */
module Arithmetic {

  lemma DivModUnique(a: int, n: int, q: int, r: int)
    requires n > 0 && a == n * q + r && 0 <= r < n
    ensures a / n == q && a % n == r
  {
    var d := q - a / n;
    assert n * d == a % n - r;
    assert d >= 1 ==> n * d >= n;
    assert d <= -1 ==> n * d <= -n;
  }
}
