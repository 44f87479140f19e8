/** Facts about products, quotients and powers that the solver does not see by itself. */
module Arith {

  lemma DivMod(a: int, d: int)
    requires d > 0
    ensures a == (a / d) * d + a % d && 0 <= a % d < d
  {
  }

  lemma MulLe(a: int, b: int, c: int)
    requires a <= b && 0 <= c
    ensures a * c <= b * c
  {
  }

  lemma Distribute(a: int, b: int, c: int)
    ensures (a + b) * c == a * c + b * c
  {
  }

  lemma Associate(a: int, b: int, c: int)
    ensures a * (b * c) == (a * b) * c
  {
  }

  /** Multiplying a sum of a product and a rest. */
  lemma Expand(x: int, p: int, y: int, b: int)
    ensures (x * p + y) * b == x * (b * p) + y * b
  {
    Distribute(x * p, y, b);
    Associate(x, p, b);
  }

  /** Adding a multiple does not change the remainder. */
  lemma AddMultiple(q: int, r: int, m: int)
    requires m > 0
    ensures (q * m + r) % m == r % m
  {
    var a := q + r / m;
    DivMod(r, m);
    DivMod(q * m + r, m);
    Distribute(q, r / m, m);
    SameRemainder(a, r % m, (q * m + r) / m, (q * m + r) % m, m);
  }

  lemma SameRemainder(a: int, r: int, b: int, s: int, m: int)
    requires 0 <= r < m && 0 <= s < m && a * m + r == b * m + s
    ensures r == s
  {
    if a < b {
      MulLe(a + 1, b, m);
      Distribute(a, 1, m);
    } else if b < a {
      MulLe(b + 1, a, m);
      Distribute(b, 1, m);
    }
  }

  /** Reducing first does not change the remainder of a linear expression. */
  lemma ModLinear(a: int, k: int, c: int, m: int)
    requires m > 0
    ensures (a % m * k + c) % m == (a * k + c) % m
  {
    DivMod(a, m);
    Expand(a / m, m, a % m, k);
    Associate(a / m, k, m);
    AddMultiple(a / m * k, a % m * k + c, m);
  }

  lemma QuotientSmaller(a: nat, d: nat)
    requires a > 0 && d >= 2
    ensures a / d < a
  {
    DivMod(a, d);
    MulLe(2, d, a / d);
  }
}
