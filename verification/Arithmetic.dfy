/** Facts about products, quotients and powers of two that the solver is not left to find by itself. */
module Arithmetic {

  function Pow2(n: nat): nat
    ensures Pow2(n) > 0
  {
    if n == 0 then 1 else 2 * Pow2(n - 1)
  }

  lemma Monotone(m: nat, a: int, b: int)
    requires a <= b
    ensures m * a <= m * b
  {
  }

  lemma QuotientIs(x: int, n: nat, q: int, r: int)
    requires n > 0 && x == n * q + r && 0 <= r < n
    ensures x / n == q && x % n == r
  {
    var d := x / n;
    assert x == n * d + x % n;
    if d < q { Monotone(n, d + 1, q); }
    if d > q { Monotone(n, q + 1, d); }
  }

  lemma CancelLess(a: nat, b: nat, m: nat)
    requires m * a < m * b
    ensures a < b
  {
    if a >= b { Monotone(m, b, a); }
  }

  lemma QuotientBelow(x: nat, m: nat, n: nat, b: nat)
    requires 0 < m <= n && x < m * b
    ensures x / n < b
  {
    var q := x / n;
    assert x == n * q + x % n;
    Monotone(q, m, n);
    CancelLess(q, b, m);
  }

  lemma Positional(m: nat, n: nat, a: nat, b: nat)
    requires a < m && b < n
    ensures m * b + a < m * n
  {
    Monotone(m, b + 1, n);
  }

  lemma Distribute(m: nat, n: nat, q: nat, r: nat)
    ensures m * (n * q + r) == (m * n) * q + m * r
  {
  }

  lemma DivideTwice(x: nat, m: nat, n: nat, a: nat, q: nat, r1: nat, r2: nat, mn: nat)
    requires x == m * a + r1 && r1 < m && a == n * q + r2 && r2 < n && mn == m * n > 0
    ensures x / mn == q
  {
    Distribute(m, n, q, r2);
    Positional(m, n, r1, r2);
    QuotientIs(x, mn, q, m * r2 + r1);
  }

  lemma Euclid(x: nat, m: nat)
    requires m > 0
    ensures x == m * (x / m) + x % m && x % m < m
  {
  }

  lemma DivideBoth(x: nat, m: nat, n: nat, mn: nat)
    requires m > 0 && n > 0 && mn > 0 && mn == m * n
    ensures x / m / n == x / mn
  {
    Euclid(x, m);
    Euclid(x / m, n);
    DivideTwice(x, m, n, x / m, x / m / n, x % m, x / m % n, mn);
  }

  lemma DivideMonotone(a: nat, b: nat, n: nat)
    requires a <= b && n > 0
    ensures a / n <= b / n
  {
    assert a == a / n * n + a % n && b == b / n * n + b % n;
    if a / n > b / n { Monotone(n, b / n + 1, a / n); }
  }

  lemma DivideBelow(a: nat, q: nat, n: nat)
    requires n > 0 && a < q * n
    ensures a / n < q
  {
    assert a == a / n * n + a % n;
    if a / n >= q { Monotone(n, q, a / n); }
  }

  lemma {:induction false} Pow2Monotone(a: nat, b: nat)
    requires a <= b
    ensures Pow2(a) <= Pow2(b)
  {
    if a == b {
    } else {
      Pow2Monotone(a, b - 1);
    }
  }

  lemma {:induction false} Pow2Add(a: nat, b: nat)
    ensures Pow2(a + b) == Pow2(a) * Pow2(b)
  {
    if a == 0 {
    } else {
      Pow2Add(a - 1, b);
      assert Pow2(a + b) == 2 * Pow2(a - 1 + b);
    }
  }

  lemma DividePower(x: nat, a: nat, b: nat)
    ensures x / Pow2(a) / Pow2(b) == x / Pow2(a + b)
  {
    Pow2Add(a, b);
    DivideBoth(x, Pow2(a), Pow2(b), Pow2(a + b));
  }
}
