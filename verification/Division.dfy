// Euclidean division by a variable divisor.
module Division {
  lemma MulOrder(d: nat, a: int, b: int)
    ensures a <= b ==> d * a <= d * b
    ensures d * (a + 1) == d * a + d && d * (b + 1) == d * b + d
  {
  }

  lemma DivisionUnique(x: int, n: nat, q: int, r: nat)
    requires r < n && x == n * q + r
    ensures x / n == q && x % n == r
  {
    var q', r' := x / n, x % n;
    assert x == n * q' + r' && 0 <= r' < n;
    MulOrder(n, q' + 1, q);
    MulOrder(n, q + 1, q');
  }

  lemma QuotientOfSum(x: nat, n: nat, q: nat, r: nat)
    requires n > 0 && x == n * q + r
    ensures x / n == q + r / n
  {
    assert n * (q + r / n) == n * q + n * (r / n);
    DivisionUnique(x, n, q + r / n, r % n);
  }
}
