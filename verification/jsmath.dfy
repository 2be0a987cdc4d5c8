/**
 * JavaScript's `Math.round` of a quotient, on exact rationals: the page divides and
 * rounds floating-point numbers, which the model replaces by the exact ratio.
 */
module JsMath {

  /** `Math.round(n / d)` on exact rationals: the integer nearest to `n / d`, halves up. */
  function RoundRatio(n: int, d: int): (r: int)
    requires d != 0
    ensures d > 0 ==> d * (2 * r - 1) <= 2 * n < d * (2 * r + 1)
    ensures d < 0 ==> -d * (2 * r - 1) <= -2 * n < -d * (2 * r + 1)
  {
    var n' := if d > 0 then n else -n;
    var d' := if d > 0 then d else -d;
    var q := (2 * n' + d') / (2 * d');
    assert 2 * d' * q <= 2 * n' + d' < 2 * d' * q + 2 * d';
    q
  }

  /** `Math.round` keeps the order of its arguments. */
  lemma RoundRatioMonotonic(n1: int, n2: int, d: int)
    requires d > 0 && n1 <= n2
    ensures RoundRatio(n1, d) <= RoundRatio(n2, d)
  {
    var r1, r2 := RoundRatio(n1, d), RoundRatio(n2, d);
    assert d * (2 * r1 - 2 * r2 - 2) < 0 by {
      assert d * (2 * r1 - 2 * r2 - 2) == d * (2 * r1 - 1) - d * (2 * r2 + 1);
    }
    PositiveFactor(d, 2 * r1 - 2 * r2 - 2);
  }

  /** The rounded value of a whole number over a positive denominator that divides it. */
  lemma RoundRatioExact(q: int, d: int)
    requires d > 0
    ensures RoundRatio(q * d, d) == q
  {
    var r := RoundRatio(q * d, d);
    assert d * (2 * r - 1 - 2 * q) <= 0 by {
      assert d * (2 * r - 1 - 2 * q) == d * (2 * r - 1) - 2 * (q * d);
    }
    assert d * (2 * r + 1 - 2 * q) > 0 by {
      assert d * (2 * r + 1 - 2 * q) == d * (2 * r + 1) - 2 * (q * d);
    }
    PositiveFactor(d, 2 * r - 1 - 2 * q);
    PositiveFactor(d, 2 * r + 1 - 2 * q);
  }

  /** The nearest integer is unique: any `q` within a half of `n / d` is the rounded value. */
  lemma RoundRatioUnique(n: int, d: int, q: int)
    requires d > 0 && d * (2 * q - 1) <= 2 * n < d * (2 * q + 1)
    ensures RoundRatio(n, d) == q
  {
    var r := RoundRatio(n, d);
    assert d * (2 * r - 2 * q - 2) < 0 by {
      assert d * (2 * r - 2 * q - 2) == d * (2 * r - 1) - d * (2 * q + 1);
    }
    assert d * (2 * q - 2 * r - 2) < 0 by {
      assert d * (2 * q - 2 * r - 2) == d * (2 * q - 1) - d * (2 * r + 1);
    }
    PositiveFactor(d, 2 * r - 2 * q - 2);
    PositiveFactor(d, 2 * q - 2 * r - 2);
  }

  /** A positive factor keeps the sign of the other. */
  lemma PositiveFactor(d: int, x: int)
    requires d > 0
    ensures d * x > 0 <==> x > 0
    ensures d * x < 0 <==> x < 0
  {
  }
}
