/** Facts about integer multiplication and remainder that the board's
    index arithmetic needs, each proved in isolation. */
module Arithmetic {
  lemma MulNonNegative(a: nat, b: nat)
    ensures 0 <= a * b
  {
  }

  lemma MulSubDistributes(a: int, b: int, w: int)
    ensures (a - b) * w == a * w - b * w
  {
  }

  lemma MulAtLeast(a: int, w: int)
    requires 1 <= a && 0 < w
    ensures w <= a * w
  {
  }

  lemma MulZero(h: int)
    ensures 0 * h == 0
  {
  }

  lemma MulCommutes(a: int, b: int)
    ensures a * b == b * a
  {
  }

  lemma MulMonotone(a: nat, b: nat, w: nat)
    requires a <= b
    ensures a * w <= b * w
  {
  }

  lemma ModOfSmall(a: int, n: int)
    requires 0 <= a < n
    ensures a % n == a
  {
  }
}
