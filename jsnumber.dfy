/** JavaScript integer arithmetic that differs from Dafny's.
    JavaScript's `%` is a truncated remainder: its sign follows the dividend, while Dafny's
    `%` is Euclidean (never negative). The two agree on a non-negative dividend and on a
    multiple of the divisor, and differ otherwise.
    The carousel divides only by its slide count, so the divisor is positive throughout. */
module JsNumber {

  /** `Math.trunc(a / b)` for a positive divisor: the quotient rounded toward zero. */
  function Quot(a: int, b: int): (q: int)
    requires b > 0
    ensures a >= 0 ==> q >= 0
    ensures a <= 0 ==> q <= 0
  {
    if a >= 0 then a / b else -((-a) / b)
  }

  /** `a % b` as JavaScript computes it for integer operands and a positive divisor:
      `a` is `Quot(a, b)` times `b` plus the remainder, which lies strictly between
      `-b` and `b` and has the sign of `a`. */
  function Rem(a: int, b: int): (r: int)
    requires b > 0
    ensures a == Quot(a, b) * b + r
    ensures -b < r < b
    ensures a >= 0 ==> r >= 0
    ensures a <= 0 ==> r <= 0
  {
    if a >= 0 then a % b
    else
      var q, m := (-a) / b, (-a) % b;
      assert -a == q * b + m;
      assert a == (-q) * b + (-m);
      -m
  }

  /** On a non-negative dividend the JavaScript and Dafny remainders agree. */
  lemma RemAgreesWhenNonNegative(a: int, b: int)
    requires a >= 0 && b > 0
    ensures Rem(a, b) == a % b
  {
  }

  /** On a negative dividend they differ unless `b` divides `a`: JavaScript's result is
      negative, `b` below Dafny's. */
  lemma RemNegativeDividend(a: int, b: int)
    requires a < 0 && b > 0 && a % b != 0
    ensures Rem(a, b) < 0 && Rem(a, b) == a % b - b
  {
    var q, m := (-a) / b, (-a) % b;
    assert -a == q * b + m;
    DivisibleMod(-q, b);
    assert m != 0;
    assert a == (-q - 1) * b + (b - m);
    assert a % b == b - m by { ModUnique(a, b, -q - 1, b - m); }
  }

  /** A multiple of `b` leaves remainder 0. */
  lemma DivisibleMod(k: int, b: int)
    requires b > 0
    ensures (k * b) % b == 0
  {
    ModUnique(k * b, b, k, 0);
  }

  /** Dafny's `%` is the unique remainder in `[0, b)`. */
  lemma ModUnique(a: int, b: int, q: int, r: int)
    requires b > 0 && 0 <= r < b && a == q * b + r
    ensures a % b == r
  {
    var q', r' := a / b, a % b;
    assert a == q' * b + r';
    assert (q - q') * b == r' - r;
    if q > q' {
      assert (q - q') * b >= b by { MulAtLeast(q - q', b); }
    } else if q < q' {
      assert (q' - q) * b >= b by { MulAtLeast(q' - q, b); }
    }
  }

  lemma MulAtLeast(k: int, b: int)
    requires k >= 1 && b > 0
    ensures k * b >= b
  {
  }
}
