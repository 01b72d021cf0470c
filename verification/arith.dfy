/** Integer percentages, `(100 * part) / whole`, as the progress signals
    compute them on non-negative operands (where C++ truncation and Dafny's
    Euclidean division agree), and the multiplication and monotonicity facts
    they and the fixed-width renderings rest on. */
module Arith {

  /** `(100 * part) / whole`. */
  function Percent(part: nat, whole: nat): nat
    requires whole > 0
  {
    (100 * part) / whole
  }

  lemma MulMonotone(a: nat, b: nat, n: nat)
    requires a <= b
    ensures a * n <= b * n
  {
    assert b * n == a * n + (b - a) * n;
  }

  lemma MulSucc(a: nat, n: nat)
    ensures (a + 1) * n == a * n + n
  {}

  lemma DivMonotone(x: nat, y: nat, n: nat)
    requires x <= y && n > 0
    ensures x / n <= y / n
  {
    var qx, qy := x / n, y / n;
    if qx > qy {
      MulMonotone(qy + 1, qx, n);
    }
  }

  /** A percentage grows with its part... */
  lemma PercentMonotone(a: nat, b: nat, n: nat)
    requires a <= b && n > 0
    ensures Percent(a, n) <= Percent(b, n)
  {
    DivMonotone(100 * a, 100 * b, n);
  }

  /** ... is exactly 100 for the whole... */
  lemma HundredPercent(n: nat)
    requires n > 0
    ensures Percent(n, n) == 100
  {}

  /** ... and so never exceeds 100 for a part of it, and stays below 100 for
      a proper part. */
  lemma PercentBounded(a: nat, n: nat)
    requires a <= n && n > 0
    ensures Percent(a, n) <= 100
    ensures a < n ==> Percent(a, n) < 100
  {
    PercentMonotone(a, n, n);
    HundredPercent(n);
  }
}
