/** Signs and orders of real products, one small fact at a time. */
module Reals {

  lemma NonNegative(a: real, b: real, y: real)
    requires a >= 0.0 && b >= 0.0 && y == a * b
    ensures y >= 0.0
  {
  }

  lemma PositiveProduct(a: real, b: real, y: real)
    requires a > 0.0 && b > 0.0 && y == a * b
    ensures y > 0.0
  {
  }

  lemma ScaleUp(x: real, y: real, m: real, xm: real, ym: real)
    requires x <= y && m >= 0.0 && xm == x * m && ym == y * m
    ensures xm <= ym
  {
  }

  lemma ScaleStrict(x: real, y: real, m: real, xm: real, ym: real)
    requires x < y && m > 0.0 && xm == x * m && ym == y * m
    ensures xm < ym
  {
  }
}
