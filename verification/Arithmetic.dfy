/** The few facts about division that the solver does not find by itself. */
module Arithmetic {

  lemma QuotientUnique(a: int, b: int, q: int)
    requires 0 < b && b * q <= a < b * (q + 1)
    ensures a / b == q
  {
    var p := a / b;
    assert b * p <= a < b * (p + 1);
    if p < q {
      MulMonotone(b, p + 1, q);
    } else if q < p {
      MulMonotone(b, q + 1, p);
    }
  }

  lemma MulMonotone(b: int, x: int, y: int)
    requires 0 <= b && x <= y
    ensures b * x <= b * y
  {
  }

  /** Adding one divisor adds one to the quotient. */
  lemma QuotientStep(a: int, b: int)
    requires 0 < b <= a
    ensures a / b == (a - b) / b + 1
  {
    var q := (a - b) / b;
    assert b * q <= a - b < b * q + b;
    assert b * (q + 1) == b * q + b && b * (q + 2) == b * q + b + b;
    QuotientUnique(a, b, q + 1);
  }
}
