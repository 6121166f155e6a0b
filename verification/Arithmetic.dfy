/** Division with remainder by a symbolic divisor. */
module Arithmetic {

  lemma {:induction false} MultipleDrops(a: int, k: int, n: int)
    requires n >= 1
    ensures (a + n * k) % n == a % n
    decreases if k < 0 then -k else k
  {
    if k > 0 {
      MultipleDrops(a, k - 1, n);
      assert a + n * k == (a + n * (k - 1)) + n;
      OneMore(a + n * (k - 1), n);
    } else if k < 0 {
      MultipleDrops(a, k + 1, n);
      assert a + n * (k + 1) == (a + n * k) + n;
      OneMore(a + n * k, n);
    }
  }

  lemma OneMore(a: int, n: int)
    requires n >= 1
    ensures (a + n) % n == a % n
  {
    var q, r := a / n, a % n;
    assert a + n == n * (q + 1) + r;
    DivModUnique(a + n, n, q + 1, r);
  }

  lemma DivModUnique(a: int, n: int, q: int, r: int)
    requires n >= 1 && a == n * q + r && 0 <= r < n
    ensures a / n == q && a % n == r
  {
    var q', r' := a / n, a % n;
    Difference(n, q', q);
    WholeSteps(n, q' - q);
  }

  lemma Difference(n: int, a: int, b: int)
    ensures n * (a - b) == n * a - n * b
  {
  }

  lemma WholeSteps(n: int, k: int)
    requires n >= 1
    ensures k >= 1 ==> n * k >= n
    ensures k <= -1 ==> n * k <= -n
  {
  }
}
