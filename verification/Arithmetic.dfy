// Products and divisions, one fact at a time.
module Arithmetic {
  lemma PositiveProduct(a: nat, b: nat)
    requires a > 0 && b > 0
    ensures a * b > 0
  {}

  lemma NaturalProduct(a: nat, b: nat)
    ensures a * b >= 0
  {}

  lemma MulMonotone(k: nat, a: int, b: int)
    requires a <= b
    ensures k * a <= k * b
  {}

  lemma MulStrict(k: nat, a: int, b: int)
    requires a < b && k > 0
    ensures k * a < k * b && k * a + k <= k * b
  {
    MulMonotone(k, a + 1, b);
    Distribute(k, a, 1);
  }

  lemma Distribute(k: int, a: int, b: int)
    ensures k * (a + b) == k * a + k * b
  {}

  lemma Associate(a: int, b: int, c: int)
    ensures (a * b) * c == a * (b * c)
  {}

  lemma SmallMultiple(d: int, k: int)
    requires -d < d * k < d
    ensures k == 0
  {}

  // The quotient and remainder of a division are the only ones in range.
  lemma DivModUnique(i: int, d: int, q: int, r: int)
    requires 0 <= r < d && i == d * q + r
    ensures i / d == q && i % d == r
  {
    var k := q - i / d;
    assert i == d * (i / d) + i % d;
    assert d * k == d * q - d * (i / d);
    SmallMultiple(d, k);
  }
}
