/** Exact real arithmetic for the places where the C code uses `double`. */
module RealArith {

  function Abs(x: real): (r: real)
    ensures r >= 0.0
  {
    if x < 0.0 then -x else x
  }

  /** C's lround on a positive argument: nearest integer, halves upwards. */
  function Lround(x: real): int
    requires x > 0.0
  {
    (x + 0.5).Floor
  }

  lemma MulPositive(a: real, b: real)
    requires a > 0.0 && b > 0.0
    ensures a * b > 0.0
  {}

  lemma MulMonotone(a: real, b: real, c: real)
    requires a <= b && c >= 0.0
    ensures a * c <= b * c
  {}

  /** Cancelling a positive factor; the products are passed by name. */
  lemma MulCancel(a: real, b: real, c: real, ac: real, bc: real)
    requires c > 0.0 && a * c == ac && b * c == bc && ac <= bc
    ensures a <= b
  {
    if a > b { MulPositive(a - b, c); }
  }

  /** Dividing by a common positive t keeps the order of distances. */
  lemma CloserQuotient(a: real, b: real, t: real, s: real)
    requires t > 0.0 && Abs(a - s * t) <= Abs(b - s * t)
    ensures Abs(a / t - s) <= Abs(b / t - s)
  {
    ScaledDistance(Abs(a / t - s), a / t, a, t, s);
    ScaledDistance(Abs(b / t - s), b / t, b, t, s);
    MulCancel(Abs(a / t - s), Abs(b / t - s), t, Abs(a - s * t), Abs(b - s * t));
  }

  /** The distance e of the quotient q = a / t from s, scaled back by t. */
  lemma ScaledDistance(e: real, q: real, a: real, t: real, s: real)
    requires t > 0.0 && q * t == a && e == Abs(q - s)
    ensures e * t == Abs(a - s * t)
  {
    assert (q - s) * t == a - s * t;
    if q < s {
      MulPositive(s - q, t);
    } else if q > s {
      MulPositive(q - s, t);
    }
  }
}
