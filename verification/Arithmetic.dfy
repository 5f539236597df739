/** The few facts of non-linear arithmetic that the calculations need. */
module Arithmetic {

  /** The sign of a product. */
  lemma ProductSign(a: int, b: int)
    requires a >= 0 && b >= 0
    ensures a * b >= 0
  {}

  lemma MulStrict(a: int, b: int, m: int)
    requires a < b && m > 0
    ensures a * m + m <= b * m
  {
    ProductSign(b - a - 1, m);
    assert (b - a - 1) * m == b * m - a * m - m;
  }

  lemma DivModUnique(q: int, r: int, m: int)
    requires 0 <= r < m
    ensures (q * m + r) / m == q && (q * m + r) % m == r
  {
    var x := q * m + r;
    var q', r' := x / m, x % m;
    assert (q' - q) * m == r - r' by {
      assert q' * m + r' == x;
    }
    if q' > q {
      MulStrict(q, q', m);
    } else if q' < q {
      MulStrict(q', q, m);
    }
  }

  lemma DivLess(i: nat, f: nat, p: nat)
    requires f > 0 && i < f * p
    ensures i / f < p
  {
    assert i == (i / f) * f + i % f;
    if i / f >= p {
      MulMonotone(p, i / f, f);
    }
  }

  lemma MulMonotone(a: int, b: int, m: int)
    requires a <= b && m >= 0
    ensures a * m <= b * m && m * a <= m * b
  {
    ProductSign(b - a, m);
    assert (b - a) * m == b * m - a * m;
  }

  lemma MulAssoc(a: int, b: int, c: int)
    ensures a * (b * c) == (a * b) * c && a * (b * c) == b * (a * c)
  {}

  lemma Distribute(a: int, b: int, m: int)
    ensures (a + b) * m == a * m + b * m && m * (a + b) == m * a + m * b
  {}

  lemma Recompose(i: nat, f: nat)
    requires f > 0
    ensures (i / f) * f + i % f == i
    ensures i / f >= 0
  {}

  /** The same for real numbers. */
  lemma RealSign(a: real, b: real)
    requires a >= 0.0 && b >= 0.0
    ensures a * b >= 0.0
  {}

  lemma RealMonotone(a: real, b: real, k: real)
    requires a <= b && k >= 0.0
    ensures a * k <= b * k
  {
    RealSign(b - a, k);
    assert (b - a) * k == b * k - a * k;
  }
}
