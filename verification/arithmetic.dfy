/** Products and remainders of integers. */
module Arithmetic {

  lemma MulOrder(a: int, b: int, m: nat)
    ensures a <= b ==> a * m <= b * m
  {
    if a <= b {
      assert (b - a) * m >= 0;
    }
  }

  lemma MulStep(a: int, b: int, m: int)
    requires m > 0
    ensures a < b ==> a * m + m <= b * m
  {
    if a < b {
      var k := b - a - 1;
      assert k * m >= 0;
      assert b * m == a * m + m + k * m;
    }
  }

  /** The order of products tells the order of the factors. */
  lemma MulStrict(a: int, b: int, m: int)
    requires m > 0
    ensures a * m < b * m ==> a < b
  {
    MulStep(b, a, m);
  }

  /** The remainder is the number in its range that makes the equation true. */
  lemma RemainderIs(a: int, q: int, r: int, m: int)
    requires m > 0 && a == q * m + r && 0 <= r < m
    ensures a % m == r
  {
    MulStep(a / m, q, m);
    MulStep(q, a / m, m);
  }
}
