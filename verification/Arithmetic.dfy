/** Facts about products and quotients that the solver does not find by itself. */
module Arithmetic {

  lemma MulMonotone(a: int, b: int, p: int)
    requires a <= b && 0 <= p
    ensures a * p <= b * p
  {
  }

  /** The quotient is the number whose multiples enclose the dividend. */
  lemma Divide(x: int, q: int, p: int)
    requires p > 0 && q * p <= x < (q + 1) * p
    ensures x / p == q
  {
    var d := x / p;
    assert d * p <= x < (d + 1) * p;
    if d + 1 <= q {
      MulMonotone(d + 1, q, p);
    }
    if q + 1 <= d {
      MulMonotone(q + 1, d, p);
    }
  }

  lemma DivideBack(a: int, b: int)
    requires a > 0
    ensures a * b / a == b
  {
    assert b * a <= a * b < (b + 1) * a;
    Divide(a * b, b, a);
  }

  lemma DivideSum(a: int, b: int, p: int)
    requires p > 0
    ensures (a * p + b) / p == a + b / p
  {
    var q := b / p;
    assert q * p <= b < (q + 1) * p;
    assert (a + q) * p == a * p + q * p && (a + q + 1) * p == a * p + (q + 1) * p;
    Divide(a * p + b, a + q, p);
  }

  lemma DivideMonotone(x: int, y: int, p: int)
    requires p > 0 && x <= y
    ensures x / p <= y / p
  {
    var q, r := x / p, y / p;
    assert q * p <= x && y < (r + 1) * p;
    if q > r {
      MulMonotone(r + 1, q, p);
    }
  }

  /** `(x / p) * y` never exceeds `x * y / p`. */
  lemma DivideFirst(x: nat, y: nat, p: nat)
    requires p > 0
    ensures (x / p) * y <= x * y / p
  {
    var q := x / p;
    assert q * p <= x;
    MulMonotone(q * p, x, y);
    assert (q * p) * y == (q * y) * p;
    DivideMonotone((q * y) * p, x * y, p);
    DivideBack(p, q * y);
    assert (q * y) * p == p * (q * y);
  }

  lemma DivideAtMost(x: nat, p: nat)
    requires p > 0
    ensures 0 <= x / p <= x
  {
    MulMonotone(1, p, x);
    DivideMonotone(x, x * p, p);
    DivideBack(p, x);
    DivideMonotone(0, x, p);
    DivideBack(p, 0);
  }
}
