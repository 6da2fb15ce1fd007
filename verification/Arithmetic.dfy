/** Division facts the other modules use. */
module Arithmetic {
  lemma MulAtLeast(k: nat, m: nat)
    requires k >= 1
    ensures k * m >= m
  {
    assert k * m == (k - 1) * m + m;
  }

  /** A quotient and a remainder below the divisor are determined by the number they make. */
  lemma QuotientUnique(m: nat, q: nat, r: nat, q': nat, r': nat)
    requires r < m && r' < m && q * m + r == q' * m + r'
    ensures q == q' && r == r'
  {
    if q < q' {
      assert (q' - q) * m == r - r';
      MulAtLeast(q' - q, m);
      assert false;
    }
    if q' < q {
      assert (q - q') * m == r' - r;
      MulAtLeast(q - q', m);
      assert false;
    }
  }

  lemma DivUnique(x: nat, m: nat, q: nat, r: nat)
    requires m > 0 && x == q * m + r && r < m
    ensures x / m == q && x % m == r
  {
    QuotientUnique(m, x / m, x % m, q, r);
  }

  lemma MultipleMod(q: nat, m: nat)
    requires m > 0
    ensures (q * m) % m == 0
  {
    DivUnique(q * m, m, q, 0);
  }

  lemma ShiftedMultiple(x: nat, d: nat, m: nat)
    requires m > 0 && x % m == 0
    ensures (x + d) % m == d % m
  {
    var q := x / m;
    assert x + d == (q + d / m) * m + d % m;
    DivUnique(x + d, m, q + d / m, d % m);
  }

  lemma DivDiv(x: nat, a: nat, b: nat)
    requires a > 0 && b > 0 && a * b > 0
    ensures x / (a * b) == x / a / b
  {
    var q, r := x / a, x % a;
    var q', r' := q / b, q % b;
    assert x == q * a + r && q == q' * b + r';
    assert x == q' * (a * b) + (r' * a + r);
    assert r' * a + r < a * b by { MulMonotone(r' + 1, b, a); }
    DivUnique(x, a * b, q', r' * a + r);
  }

  lemma MulMonotone(x: nat, y: nat, m: nat)
    requires x <= y
    ensures x * m <= y * m
  {
    assert (y - x) * m >= 0;
  }
}
