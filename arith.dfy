/** Facts about integer multiplication and floor division that the pixel
    arithmetic relies on, stated once and proved in small steps so that
    no other proof needs nonlinear reasoning. */
module Arith {

  lemma MulMonotone(a: int, b: int, c: int)
    requires a <= b && c >= 0
    ensures a * c <= b * c
  {
  }

  lemma Distributes(x: int, y: int, z: int)
    ensures x * (y + z) == x * y + x * z
  {
  }

  lemma MulSucc(n: int, m: int)
    ensures (n + 1) * m == n * m + m
  {
  }

  /** Floor division by a positive divisor stays below any b with a < b * c. */
  lemma DivBelow(a: int, b: int, c: int)
    requires c > 0 && a < b * c
    ensures a / c < b
  {
    assert (a / c) * c <= a;
    if a / c >= b {
      MulMonotone(b, a / c, c);
    }
  }
}
