/** Dividing twice is dividing once by the product. */
module Division {

  lemma DivDiv(n: nat, b: nat, m: nat)
    requires b > 0 && m > 0
    ensures b * m > 0 && n / b / m == n / (b * m)
  {
    var q := n / b / m;
    var a, r := n / b - q * m, n % b;
    Remainder(n, b, m);
    Positive(b, m);
    Split(n, b, m, q, a, r);
    Quotient(n, b * m, q, b * a + r);
  }

  lemma Remainder(n: nat, b: nat, m: nat)
    requires b > 0 && m > 0
    ensures n == b * (n / b) + n % b && 0 <= n / b - (n / b / m) * m < m
  {
  }

  lemma Positive(b: nat, m: nat)
    requires b > 0 && m > 0
    ensures b * m > 0
  {
  }

  lemma Split(n: nat, b: nat, m: nat, q: nat, a: nat, r: nat)
    requires n == b * (q * m + a) + r && a < m && r < b
    ensures n == (b * m) * q + (b * a + r) && b * a + r < b * m
  {
    assert b * (q * m + a) == b * (q * m) + b * a;
    assert b * (q * m) == (b * m) * q;
    Below(b, a, m);
  }

  lemma Below(b: nat, a: nat, m: nat)
    requires a < m
    ensures b * a + b <= b * m
  {
    assert b * (a + 1) == b * a + b;
    var k := m - (a + 1);
    assert b * m == b * (a + 1) + b * k;
    assert b * k >= 0;
  }

  lemma Quotient(n: nat, d: nat, q: nat, r: nat)
    requires d > 0 && n == d * q + r && r < d
    ensures n / d == q
  {
    var k := n / d - q;
    assert n == d * (n / d) + n % d;
    assert d * k == r - n % d;
    if k != 0 {
      Multiple(d, k);
    }
  }

  lemma Multiple(d: int, k: int)
    requires d > 0 && k != 0
    ensures d * k >= d || d * k <= -d
  {
  }
}
