/** Order and sums of real quotients, from the definition of division. */
module Ratios {

  lemma MulOrder(x: real, y: real, n: real)
    requires n > 0.0
    ensures x < y <==> x * n < y * n
    ensures x == y <==> x * n == y * n
  {
  }

  /** A quotient compares to a number as its numerator compares to the product. */
  lemma QuotientOrder(a: real, n: real, y: real)
    requires n > 0.0
    ensures a / n < y <==> a < y * n
    ensures a / n == y <==> a == y * n
  {
  }

  /** A quotient is positive, at most one, one, or above one as its numerator says. */
  lemma QuotientBounds(a: real, n: real)
    requires n > 0.0
    ensures a / n < 0.0 <==> a < 0.0
    ensures a / n == 0.0 <==> a == 0.0
    ensures a / n < 1.0 <==> a < n
    ensures a / n == 1.0 <==> a == n
  {
    QuotientOrder(a, n, 0.0);
    QuotientOrder(a, n, 1.0);
  }

  /** A quotient times a factor, multiplied by the divisor, is the numerator times the factor. */
  lemma QuotientTimes(a: real, n: real, r: real)
    requires n > 0.0
    ensures a / n * r * n == a * r
  {
    QuotientOrder(a, n, a / n);
    Rearranged(a / n, r, n);
  }

  lemma Rearranged(x: real, r: real, n: real)
    ensures x * r * n == x * n * r
  {
  }

  lemma QuotientSum(a: real, b: real, n: real)
    requires n > 0.0
    ensures a / n + b / n == (a + b) / n
  {
  }

  lemma ProductSign(a: real, b: real)
    requires a >= 0.0 && b >= 0.0
    ensures a * b >= 0.0 && (a * b > 0.0 <==> a > 0.0 && b > 0.0)
  {
  }

  /** The product of two factors below one is below one. */
  lemma ProductBelowOne(a: real, b: real)
    requires 0.0 <= a < 1.0 && 0.0 <= b < 1.0
    ensures 0.0 <= a * b < 1.0
  {
    ProductSign(a, b);
    if b > 0.0 {
      MulOrder(a, 1.0, b);
    }
  }
}
