/** Facts about integer multiplication and division that the window and grid
    proofs use; kept apart so that non-linear arithmetic stays out of every
    other proof. */
module Arith {

  lemma MulStep(a: int, b: int, d: nat)
    requires a < b
    ensures a * d + d <= b * d
  {
    var e := b - a - 1;
    assert e * d >= 0;
    assert b * d == a * d + e * d + d;
  }

  /** Quotient and remainder are unique: `k == q * d + r` with `r < d` makes
      `q` the quotient and `r` the remainder. */
  lemma DivisionUnique(k: nat, d: nat, q: nat, r: nat)
    requires d > 0 && r < d && k == q * d + r
    ensures k / d == q && k % d == r
  {
    var q2, r2 := k / d, k % d;
    assert k == q2 * d + r2;
    if q2 < q {
      MulStep(q2, q, d);
    } else if q < q2 {
      MulStep(q, q2, d);
    }
  }
}
