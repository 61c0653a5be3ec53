/** Facts about quotients, remainders and products that the solver does not find by itself. */
module Arithmetic {

  lemma SmallMultiple(d: int, m: nat)
    requires m > 0 && -(m as int) < d * m < m
    ensures d == 0
  {
    assert d >= 1 ==> (d - 1) * m >= 0;
    assert d <= -1 ==> (d + 1) * m <= 0;
  }

  lemma DivisionIsUnique(b: nat, m: nat, q: nat, r: nat)
    requires m > 0 && b == q * m + r && r < m
    ensures b / m == q && b % m == r
  {
    var d := b / m - q;
    assert b == b / m * m + b % m;
    assert d * m == b / m * m - q * m;
    SmallMultiple(d, m);
  }

  lemma RemainderIgnoresMultiples(a: nat, k: nat, m: nat)
    requires m > 0
    ensures (a + k * m) % m == a % m
  {
    assert a == a / m * m + a % m;
    assert (a / m + k) * m == a / m * m + k * m;
    DivisionIsUnique(a + k * m, m, a / m + k, a % m);
  }

  lemma QuotientsOrdered(a: nat, b: nat, d: nat)
    requires d > 0 && a <= b
    ensures a / d <= b / d
  {
    var x, y := a / d, b / d;
    assert a == x * d + a % d && b == y * d + b % d;
    assert (x - y) * d == x * d - y * d;
    assert x - y >= 1 ==> (x - y - 1) * d >= 0;
    assert (x - y - 1) * d == (x - y) * d - d;
  }

  lemma QuotientsApart(a: nat, b: nat, d: nat)
    requires d > 0 && a + d <= b
    ensures a / d < b / d
  {
    QuotientsOrdered(a + d, b, d);
    assert a == a / d * d + a % d;
    assert (a / d + 1) * d == a / d * d + d;
    DivisionIsUnique(a + d, d, a / d + 1, a % d);
  }

  lemma SmallRemainder(n: nat, m: nat)
    requires n < m
    ensures n % m == n
  {
    DivisionIsUnique(n, m, 0, n);
  }

  lemma RemainderFarBelow(n: nat, m: nat)
    requires 0 < m <= n
    ensures n % m + m <= n
  {
    var q := n / m;
    assert n == q * m + n % m;
    assert q >= 1 ==> (q - 1) * m >= 0;
    assert (q - 1) * m == q * m - m;
  }

  /** Reducing a number before dividing it changes the quotient, unless there was nothing to reduce. */
  lemma WrappedQuotient(n: nat, m: nat, d: nat)
    requires 0 < d <= m
    ensures n % m / d == n / d <==> n < m
  {
    if n >= m {
      RemainderFarBelow(n, m);
      QuotientsApart(n % m, n, d);
    } else {
      DivisionIsUnique(n, m, 0, n);
    }
  }

  lemma Distributed(n: nat, q: nat, m: nat, r: nat, k: nat)
    requires n == q * m + r
    ensures n * k == r * k + q * k * m
  {
    assert (q * m + r) * k == q * m * k + r * k;
    assert q * m * k == q * k * m;
  }

  /** Reducing a factor does not change the reduced product. */
  lemma WrappedProduct(n: nat, k: nat, m: nat)
    requires m > 0
    ensures n % m * k % m == n * k % m
  {
    var q, r, a, c := n / m, n % m, n % m * k, n / m * k;
    Distributed(n, q, m, r, k);
    RemainderIgnoresMultiples(a, c, m);
  }
}
