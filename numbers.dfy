/** Real-number helpers shared by the motion layer: absolute value, integrality,
    and the truncating remainder that JavaScript's `%` operator computes
    (Number::remainder, section 6.1.6.1.6 of ECMA-262). Dafny's own `%` is
    Euclidean and is never used on the model's values. */
module Numbers {

  function Abs(x: real): (r: real)
    ensures r >= 0.0
    ensures r == x || r == -x
  {
    if x < 0.0 then -x else x
  }

  /** True when `x` has no fractional part. */
  predicate IsInteger(x: real) {
    x.Floor as real == x
  }

  lemma MulNonNegative(x: real, y: real)
    requires x >= 0.0 && y >= 0.0
    ensures x * y >= 0.0
  {
  }

  /** A nonzero whole multiple of `s` is at least as large as `s` in magnitude. */
  lemma ScaledWhole(k: int, s: real)
    requires k != 0
    ensures Abs(k as real * s) >= Abs(s)
  {
    var t := k as real;
    // |t| >= 1; the gap between |t*s| and |s| is (|t| - 1) * |s|
    if t >= 1.0 {
      if s >= 0.0 {
        MulNonNegative(t - 1.0, s);
        assert t * s == (t - 1.0) * s + s;
      } else {
        MulNonNegative(t - 1.0, -s);
        assert t * s == -((t - 1.0) * -s) + s;
      }
    } else {
      if s >= 0.0 {
        MulNonNegative(-t - 1.0, s);
        assert t * s == -((-t - 1.0) * s) - s;
      } else {
        MulNonNegative(-t - 1.0, -s);
        assert t * s == (-t - 1.0) * -s - s;
      }
    }
  }

  /** Scaling by a factor of at least one never shrinks a number and never flips
      its sign. */
  lemma ScaleUp(x: real, c: real)
    requires c >= 1.0
    ensures Abs(x * c) >= Abs(x)
    ensures x >= 0.0 ==> x * c >= 0.0
    ensures x <= 0.0 ==> x * c <= 0.0
  {
    assert x * c == x + x * (c - 1.0);
    if x >= 0.0 {
      MulNonNegative(x, c - 1.0);
    } else {
      MulNonNegative(-x, c - 1.0);
      assert x * (c - 1.0) == -((-x) * (c - 1.0));
    }
  }

  lemma MulSubDistributes(i: int, j: int, s: real)
    ensures (i - j) as real * s == i as real * s - j as real * s
  {
  }

  /** The two directions between "d is a whole multiple of s" and "d / s is an
      integer"; every other congruence argument works on the integer witness. */
  lemma DivideMultiple(d: real, s: real, k: int)
    requires s != 0.0
    requires d == k as real * s
    ensures IsInteger(d / s) && (d / s).Floor == k
  {
    assert d / s == k as real;
  }

  lemma MultiplyQuotient(d: real, s: real)
    requires s != 0.0
    requires IsInteger(d / s)
    ensures d == (d / s).Floor as real * s
  {
    var q := d / s;
    assert q * s == d;
  }

  /** Rounds toward zero, as the quotient of a truncating division does. */
  function Trunc(x: real): (n: int)
    ensures x >= 0.0 ==> 0 <= n && n as real <= x < n as real + 1.0
    ensures x <= 0.0 ==> n <= 0 && n as real - 1.0 < x <= n as real
  {
    if x >= 0.0 then x.Floor else -((-x).Floor)
  }

  /** JavaScript's `a % b` on finite numbers: the remainder takes the sign of the
      dividend `a` and is smaller in magnitude than the divisor. */
  function Rem(a: real, b: real): (r: real)
    requires b != 0.0
    ensures a >= 0.0 ==> 0.0 <= r < Abs(b)
    ensures a <= 0.0 ==> -Abs(b) < r <= 0.0
    ensures IsInteger((a - r) / b)
  {
    RemBounds(a, b);
    var k := Trunc(a / b);
    var r := a - b * k as real;
    DivideMultiple(a - r, b, k);
    r
  }

  lemma RemBounds(a: real, b: real)
    requires b != 0.0
    ensures a >= 0.0 ==> 0.0 <= a - b * Trunc(a / b) as real < Abs(b)
    ensures a <= 0.0 ==> -Abs(b) < a - b * Trunc(a / b) as real <= 0.0
  {
    var q := a / b;
    var n := Trunc(a / b) as real;
    var f := q - n;
    assert a == b * q;
    assert a - b * n == b * f;
    // the fraction `f` dropped by truncation has the sign of `a / b`
    assert a >= 0.0 && b > 0.0 ==> q >= 0.0;
    assert a >= 0.0 && b < 0.0 ==> q <= 0.0;
    assert a <= 0.0 && b > 0.0 ==> q <= 0.0;
    assert a <= 0.0 && b < 0.0 ==> q >= 0.0;
    ScaledFraction(f, b);
  }

  /** `b * f` for a fraction `|f| < 1` stays strictly inside `(-|b|, |b|)` and has
      the sign of `b` times the sign of `f`. */
  lemma ScaledFraction(f: real, b: real)
    requires b != 0.0
    requires -1.0 < f < 1.0
    ensures Abs(b * f) < Abs(b)
    ensures f >= 0.0 && b > 0.0 ==> b * f >= 0.0
    ensures f >= 0.0 && b < 0.0 ==> b * f <= 0.0
    ensures f <= 0.0 && b > 0.0 ==> b * f <= 0.0
    ensures f <= 0.0 && b < 0.0 ==> b * f >= 0.0
  {
    // b - b*f and b + b*f are b times the positive numbers 1 - f and 1 + f
    assert b - b * f == b * (1.0 - f);
    assert b + b * f == b * (1.0 + f);
    if b > 0.0 {
      assert b * (1.0 - f) > 0.0 && b * (1.0 + f) > 0.0;
    } else {
      assert b * (1.0 - f) < 0.0 && b * (1.0 + f) < 0.0;
    }
  }
}
