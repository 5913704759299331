/** Products and quotients of integers, one step at a time. */
module Arithmetic {
  lemma OneMore(n: int, q: int)
    ensures (n + 1) * q == n * q + q
  {
  }

  lemma {:induction false} MulMonotone(a: int, b: int, q: int)
    requires a <= b && q >= 0
    ensures a * q <= b * q
    decreases b - a
  {
    if a < b {
      MulMonotone(a, b - 1, q);
      OneMore(b - 1, q);
    }
  }

  lemma MulLess(a: int, b: int, q: int)
    requires a < b && q > 0
    ensures a * q + q <= b * q
  {
    OneMore(a, q);
    MulMonotone(a + 1, b, q);
  }

  lemma DivMod(n: int, d: int)
    requires d > 0
    ensures n == n / d * d + n % d && 0 <= n % d < d
  {
  }

  lemma DivModUnique(n: int, d: int, q: int, r: int)
    requires d > 0 && 0 <= r < d && n == q * d + r
    ensures n / d == q && n % d == r
  {
    DivMod(n, d);
    if q < n / d {
      MulLess(q, n / d, d);
    } else if n / d < q {
      MulLess(n / d, q, d);
    }
  }
}
