/** Products that the verifier does not compare by itself. */
module Arithmetic {
  lemma TimesMonotone(b: nat, c: nat, x: nat)
    requires b <= c
    ensures b * x <= c * x && x * b <= x * c
  {
    assert c * x == b * x + (c - b) * x;
  }

  lemma PositiveFactor(k: int, d: nat)
    requires k * d > 0
    ensures k > 0
  {
  }

  lemma QuotientAtLeast(q: nat, d: nat, y: nat)
    requires d > 0 && q * d <= y
    ensures q <= y / d
  {
    assert (y / d + 1 - q) * d == (y / d + 1) * d - q * d;
    PositiveFactor(y / d + 1 - q, d);
  }
}
