/** Products and quotients of reals. */
module Reals {

  /** A product under a name of its own, so that equal factors give equal terms. */
  function Times(a: real, b: real): (p: real)
  {
    a * b
  }

  /** A quotient likewise. */
  function Over(a: real, b: real): (q: real)
    requires b != 0.0
  {
    a / b
  }

  lemma MulMonotone(a: real, b: real, c: real)
    requires a <= b && c >= 0.0
    ensures Times(a, c) <= Times(b, c) && Times(c, a) <= Times(c, b)
  {
  }

  lemma MulStrict(a: real, b: real, c: real)
    requires a < b && c > 0.0
    ensures Times(a, c) < Times(b, c) && Times(c, a) < Times(c, b)
  {
  }

  /** Comparing a quotient is comparing the numerator with the scaled denominator. */
  lemma QuotientCompare(x: real, y: real, q: real)
    requires y > 0.0
    ensures x / y <= q <==> x <= Times(q, y)
    ensures x / y < q <==> x < Times(q, y)
    ensures x / y >= q <==> x >= Times(q, y)
  {
    var r := x / y;
    assert Times(r, y) == x;
    if r < q { MulStrict(r, q, y); }
    if q < r { MulStrict(q, r, y); }
  }
}
