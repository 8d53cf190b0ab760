/** Facts about products and floor division of integers that the solver needs to be led through. */
module Nonlinear {

  lemma MulLe(a: int, b: int, c: int)
    requires a <= b && 0 <= c
    ensures a * c <= b * c
  {}

  lemma MulLt(a: int, b: int, c: int)
    requires a < b && 0 < c
    ensures a * c < b * c
  {}

  lemma CancelLe(a: int, b: int, c: int)
    requires a * c <= b * c && 0 < c
    ensures a <= b
  {
    if b < a { MulLt(b, a, c); }
  }

  lemma CancelLt(a: int, b: int, c: int)
    requires a * c < b * c && 0 <= c
    ensures a < b
  {
    if b <= a { MulLe(b, a, c); }
  }

  lemma Distribute(a: int, b: int, c: int)
    ensures (a + b) * c == a * c + b * c
    ensures c * (a + b) == c * a + c * b
  {}

  lemma NextMultiples(a: int, b: int)
    ensures (a + 1) * b == a * b + b
    ensures (a - 1) * b == a * b - b
  {}

  lemma FactorFalls(a: int, b: int, c: int, d: int)
    requires 0 <= a && 0 < d <= b && a * b <= c * d
    ensures a <= c
  {
    MulLe(d, b, a);
    CancelLe(a, c, d);
  }

  lemma MulNonNeg(a: int, b: int)
    requires 0 <= a && 0 <= b
    ensures 0 <= a * b
  {}

  lemma DivBounds(a: int, b: int)
    requires 0 < b
    ensures (a / b) * b <= a < (a / b) * b + b
  {}

  /** Floor division is the upper adjoint of multiplication. */
  lemma FloorGalois(a: int, b: int, q: int)
    requires 0 < b
    ensures q <= a / b <==> q * b <= a
  {
    DivBounds(a, b);
    if q <= a / b {
      MulLe(q, a / b, b);
    } else {
      MulLe(a / b + 1, q, b);
    }
  }

  lemma FloorUnique(a: int, b: int, q: int)
    requires 0 < b && q * b <= a < q * b + b
    ensures a / b == q
  {
    FloorGalois(a, b, q);
    FloorGalois(a, b, q + 1);
  }
}
