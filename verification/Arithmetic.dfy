/** Facts about products, quotients and remainders that the solver does not find by itself. */
module Arithmetic {

  lemma MulNonNegative(a: int, b: int)
    requires 0 <= a && 0 <= b
    ensures 0 <= a * b
  {
  }

  lemma MulMonotone(a: int, b: int, c: int)
    requires a <= b && 0 <= c
    ensures a * c <= b * c
  {
    MulNonNegative(b - a, c);
    assert (b - a) * c == b * c - a * c;
  }

  lemma SplitProduct(rate: int, s: int, now: int, t: int)
    ensures rate * (t - s) == rate * (t - now) + rate * (now - s)
  {
  }

  lemma Distribute(rate: int, a: int, b: int)
    ensures rate * (a + b) == rate * a + rate * b
  {
  }

  lemma DivMod(a: int, n: int)
    requires 0 < n
    ensures a == (a / n) * n + a % n && 0 <= a % n < n
  {
  }

  /** A quotient and a remainder are the only ones. */
  lemma DivModUnique(a: int, n: int, q: int, r: int)
    requires 0 <= r < n && a == q * n + r
    ensures a / n == q && a % n == r
  {
    DivMod(a, n);
    var d := q - a / n;
    assert d * n == q * n - (a / n) * n;
    if d >= 1 {
      MulMonotone(1, d, n);
    } else if d <= -1 {
      MulMonotone(d, -1, n);
    }
  }

  lemma ModSmall(a: int, n: int)
    requires 0 <= a < n
    ensures a % n == a && a / n == 0
  {
    DivModUnique(a, n, 0, a);
  }

  lemma ModShift(a: int, n: int)
    requires 0 < n
    ensures (a + n) % n == a % n && (a + n) / n == a / n + 1
  {
    DivMod(a, n);
    assert (a / n + 1) * n == (a / n) * n + n;
    DivModUnique(a + n, n, a / n + 1, a % n);
  }

  lemma ModAddMultiple(a: int, m: int, n: int)
    requires 0 < n && m % n == 0
    ensures (a + m) % n == a % n
  {
    DivMod(a, n);
    DivMod(m, n);
    assert (a / n + m / n) * n == (a / n) * n + (m / n) * n;
    DivModUnique(a + m, n, a / n + m / n, a % n);
  }

  /** One wrap of a counter below twice the modulus. */
  lemma ModOnce(x: int, n: int)
    requires 0 <= x < 2 * n
    ensures x % n == if x < n then x else x - n
  {
    if x < n {
      ModSmall(x, n);
    } else {
      DivModUnique(x, n, 1, x - n);
    }
  }

  lemma ModOfMod(a: int, b: int, n: int)
    requires 0 < n
    ensures (a % n + b) % n == (a + b) % n
  {
    DivMod(a, n);
    DivMod(a % n + b, n);
    var q := (a % n + b) / n;
    assert (a / n + q) * n == (a / n) * n + q * n;
    DivModUnique(a + b, n, a / n + q, (a % n + b) % n);
  }
}
