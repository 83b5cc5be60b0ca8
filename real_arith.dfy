/** Small facts about multiplication and division of reals. Z3 does not always
    find them on its own inside a larger proof, so the proofs call them by name. */
module RealArith {
  lemma MulLt(a: real, b: real, d: real)
    requires a < b && d > 0.0
    ensures a * d < b * d
  {
  }

  lemma MulLe(a: real, b: real, d: real)
    requires a <= b && d > 0.0
    ensures a * d <= b * d
  {
  }

  /** A lower bound on x / d gives a lower bound on x. */
  lemma BelowQuotient(x: real, d: real, b: real)
    requires d > 0.0 && b <= x / d
    ensures b * d <= x
  {
    var q := x / d;
    assert q * d == x;
    MulLe(b, q, d);
  }

  /** An upper bound on x / d gives an upper bound on x. */
  lemma AboveQuotient(x: real, d: real, b: real)
    requires d > 0.0 && x / d < b
    ensures x < b * d
  {
    var q := x / d;
    assert q * d == x;
    MulLt(q, b, d);
  }

  lemma DivOf(a: real, d: real, y: real)
    requires d > 0.0 && y * d == a
    ensures a / d == y
  {
  }

  lemma FloorShift(q: real)
    ensures (q + 1.0).Floor == q.Floor + 1
  {
  }

  lemma ShiftMul(x: real, d: real, f: real)
    ensures (x + d) - (f + 1.0) * d == x - f * d
  {
    assert (f + 1.0) * d == f * d + d;
  }

  /** A product bound divided by a positive number bounds the quotient from below. */
  lemma QuotientAtLeast(x: real, d: real, b: real)
    requires d > 0.0 && b * d <= x
    ensures b <= x / d
  {
    var q := x / d;
    assert q * d == x;
    CancelLe(b, q, d);
  }

  /** A product bound divided by a positive number bounds the quotient from above. */
  lemma QuotientAtMost(x: real, d: real, b: real)
    requires d > 0.0 && x <= b * d
    ensures x / d <= b
  {
    var q := x / d;
    assert q * d == x;
    CancelLe(q, b, d);
  }

  /** A positive factor common to both sides can be divided out of a non-strict order. */
  lemma CancelLe(a: real, b: real, d: real)
    requires d > 0.0 && a * d <= b * d
    ensures a <= b
  {
  }
}
