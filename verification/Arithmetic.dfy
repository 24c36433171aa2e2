/** Facts about integer products and remainders that the solver does not find by itself. */
module Arithmetic {

  lemma Factor(d: int, m: int)
    requires d >= 1 && m > 0
    ensures d * m >= m
  {
    assert d * m == m + (d - 1) * m;
    assert (d - 1) * m >= 0;
  }

  lemma PositiveFactor(x: int, y: int)
    requires y > 0 && x * y > 0
    ensures x > 0
  {
  }

  lemma UniqueRemainder(x: int, m: int, q: int, r: int)
    requires m > 0 && x == q * m + r && 0 <= r < m
    ensures x / m == q && x % m == r
  {
    var d := x / m - q;
    assert d * m == (x / m) * m - q * m;
    assert x == (x / m) * m + x % m;
    assert -d * m == -(d * m);
    if d > 0 {
      Factor(d, m);
    } else if d < 0 {
      Factor(-d, m);
    }
  }
}
