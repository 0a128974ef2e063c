/** The few facts about products and quotients that the solver is not left to find. */
module Arithmetic {

  lemma MulMonotone(a: int, b: int, c: int)
    requires a <= b && c >= 0
    ensures a * c <= b * c
  {}

  lemma MulRegroup(a: int, b: int, c: int)
    ensures (a * b) * c == a * (c * b)
  {}

  lemma QuotientIs(x: nat, c: nat, q: int)
    requires c > 0
    ensures x / c == q <==> q * c <= x < (q + 1) * c
  {
    var k := x / c;
    assert k * c <= x < (k + 1) * c;
    if q < k { MulMonotone(q + 1, k, c); }
    if q > k { MulMonotone(k + 1, q, c); }
  }

  /** A common factor cancels in a quotient. */
  lemma CancelFactor(x: nat, c: nat, d: nat)
    requires c > 0 && d > 0
    ensures c * d > 0 && x / d == (x * c) / (c * d)
  {
    var q := x / d;
    QuotientIs(x, d, q);
    MulMonotone(q * d, x, c);
    MulMonotone(x + 1, (q + 1) * d, c);
    MulRegroup(q, d, c);
    MulRegroup(q + 1, d, c);
    assert (x + 1) * c == x * c + c;
    QuotientIs(x * c, c * d, q);
  }
}
