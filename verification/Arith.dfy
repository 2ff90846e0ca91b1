/** Division and remainder by a variable, for natural numbers. */
module Arith {

  lemma FactorOrder(a: int, b: int, n: nat)
    requires a * n < b * n
    ensures a < b
  {
  }

  lemma QuotientIs(m: int, n: nat, q: int)
    requires n > 0 && q * n <= m < (q + 1) * n
    ensures m / n == q
  {
    var p := m / n;
    assert p * n <= m < (p + 1) * n;
    FactorOrder(p, q + 1, n);
    FactorOrder(q, p + 1, n);
  }

  lemma DivideStep(m: int, n: nat)
    requires n > 0 && m >= 0
    ensures (m + n) / n == m / n + 1
  {
    var q := m / n;
    assert q * n <= m < (q + 1) * n;
    assert (q + 1) * n == q * n + n && (q + 2) * n == (q + 1) * n + n;
    QuotientIs(m + n, n, q + 1);
  }

  lemma SmallQuotient(m: nat, n: nat)
    requires m < n
    ensures m / n == 0
  {
  }

  lemma QuotientBetween(m: nat, p: nat, n: nat)
    requires n > 0 && m <= p <= m + n
    ensures m / n <= p / n <= m / n + 1
  {
    DivideMonotone(m, p, n);
    DivideMonotone(p, m + n, n);
    DivideStep(m, n);
  }

  lemma DivideMonotone(m: nat, p: nat, n: nat)
    requires n > 0 && m <= p
    ensures m / n <= p / n
  {
    var a, b := m / n, p / n;
    assert a * n <= m <= p < (b + 1) * n;
    FactorOrder(a, b + 1, n);
  }

  lemma ModuloIs(n: nat, m: nat, q: nat, r: nat)
    requires m >= 1 && n == q * m + r && r < m
    ensures n % m == r
  {
    assert (q + 1) * m == q * m + m;
    QuotientIs(n, m, q);
  }

  lemma ModuloStep(n: nat, m: nat)
    requires 1 <= m <= n
    ensures (n - m) % m == n % m
  {
    var q, r := n / m, n % m;
    DivideStep(n - m, m);
    assert n == q * m + r;
    assert (q - 1) * m == q * m - m;
    ModuloIs(n - m, m, q - 1, r);
  }

  lemma MulMono(a: int, b: int, n: nat)
    requires a <= b
    ensures a * n <= b * n
  {
  }

  lemma Distribute(a: int, m: int, n: int)
    ensures a * (m + n) == a * m + a * n && (m + n) * a == m * a + n * a
  {
  }

  lemma OneMoreTime(n: int, times: int)
    ensures n * times == n * (times - 1) + n
  {
  }

  lemma QuotientTimes(n: nat, d: nat)
    requires d >= 1
    ensures n / d * d <= n < (n / d + 1) * d
  {
  }
}
