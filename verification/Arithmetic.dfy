/** Products and quotients of natural numbers. */
module Arithmetic {
  lemma MulNat(a: nat, b: nat)
    ensures a * b >= 0
  {
  }

  lemma MulPositive(a: nat, b: nat)
    requires a > 0 && b > 0
    ensures a * b > 0
  {
    MulMonotone(1, a, b);
  }

  lemma MulMonotone(a: nat, b: nat, c: nat)
    requires a <= b
    ensures a * c <= b * c
  {
  }

  lemma DivUnique(n: int, d: int, q: int, r: int)
    requires d > 0 && 0 <= r < d && n == q * d + r
    ensures n / d == q && n % d == r
  {
    var k := q - n / d;
    assert k * d == n % d - r;
    if k >= 1 {
      MulMonotone(1, k, d);
    } else if k <= -1 {
      MulMonotone(1, -k, d);
    }
  }
}
