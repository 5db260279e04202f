/** The cyclic `wrap` of app/page.tsx: it folds an unbounded marquee position
    into one period of the repeated text, using JavaScript's truncating `%`
    twice so that negative inputs land in the same period as positive ones. */
module Cyclic {
  import opened Numbers

  /** The half-open period a wrapped value lies in. With `max > min` it is
      `[min, max)`; with `max < min`, as at the marquee's call site, the signs in
      the formula flip and it is `(max, min]`. */
  predicate InCycle(min: real, max: real, w: real) {
    if max > min then min <= w < max else max < w <= min
  }

  function Wrap(min: real, max: real, v: real): (w: real)
    requires max != min
    ensures max > min ==> min <= w < max
    ensures max < min ==> max < w <= min
    ensures IsInteger((w - v) / (max - min))
  {
    var rangeSize := max - min;
    var inner := Rem(v - min, rangeSize);
    var outer := Rem(inner + rangeSize, rangeSize);
    WrapShift(v - min, rangeSize, inner, outer);
    outer + min
  }

  /** Both remainders drop whole multiples of `s`, and adding `s` once adds one
      more, so the wrapped value differs from the input by whole periods. */
  lemma WrapShift(d: real, s: real, inner: real, outer: real)
    requires s != 0.0
    requires IsInteger((d - inner) / s)
    requires IsInteger((inner + s - outer) / s)
    ensures IsInteger((outer - d) / s)
  {
    MultiplyQuotient(d - inner, s);
    MultiplyQuotient(inner + s - outer, s);
    var k1 := ((d - inner) / s).Floor;
    var k2 := ((inner + s - outer) / s).Floor;
    assert outer - d == s - k1 as real * s - k2 as real * s;
    assert (1 - k1 - k2) as real * s == s - k1 as real * s - k2 as real * s;
    DivideMultiple(outer - d, s, 1 - k1 - k2);
  }

  /** Two points of one period that differ by a whole number of periods are equal. */
  lemma SamePeriodPoint(min: real, max: real, w1: real, w2: real, k: int)
    requires max != min
    requires InCycle(min, max, w1) && InCycle(min, max, w2)
    requires w1 - w2 == k as real * (max - min)
    ensures w1 == w2
  {
    assert Abs(w1 - w2) < Abs(max - min);
    if k != 0 {
      ScaledWhole(k, max - min);
      assert false;
    }
  }

  /** `Wrap` is the only point of the period congruent to `v`: any `w` in the
      period that differs from `v` by a whole number of periods is `Wrap(v)`. */
  lemma WrapUnique(min: real, max: real, v: real, w: real)
    requires max != min
    requires InCycle(min, max, w)
    requires IsInteger((w - v) / (max - min))
    ensures w == Wrap(min, max, v)
  {
    var s := max - min;
    var w0 := Wrap(min, max, v);
    MultiplyQuotient(w - v, s);
    MultiplyQuotient(w0 - v, s);
    var i := ((w - v) / s).Floor;
    var j := ((w0 - v) / s).Floor;
    MulSubDistributes(i, j, s);
    SamePeriodPoint(min, max, w, w0, i - j);
  }

  /** Shifting the input by whole periods does not move the output. */
  lemma WrapPeriodic(min: real, max: real, v: real, k: int)
    requires max != min
    ensures Wrap(min, max, v + k as real * (max - min)) == Wrap(min, max, v)
  {
    var w := Wrap(min, max, v);
    var shifted := v + k as real * (max - min);
    ShiftKeepsCongruence(w, v, max - min, k, shifted);
    WrapUnique(min, max, shifted, w);
  }

  lemma ShiftKeepsCongruence(w: real, v: real, s: real, k: int, shifted: real)
    requires s != 0.0
    requires IsInteger((w - v) / s)
    requires shifted == v + k as real * s
    ensures IsInteger((w - shifted) / s)
  {
    MultiplyQuotient(w - v, s);
    var i := ((w - v) / s).Floor;
    MulSubDistributes(i, k, s);
    DivideMultiple(w - shifted, s, i - k);
  }

  /** A value already in the period is left where it is. */
  lemma WrapFixesCycle(min: real, max: real, v: real)
    requires max != min
    requires InCycle(min, max, v)
    ensures Wrap(min, max, v) == v
  {
    DivideMultiple(v - v, max - min, 0);
    WrapUnique(min, max, v, v);
  }

  /** Wrapping twice is wrapping once. */
  lemma WrapIdempotent(min: real, max: real, v: real)
    requires max != min
    ensures Wrap(min, max, Wrap(min, max, v)) == Wrap(min, max, v)
  {
    WrapFixesCycle(min, max, Wrap(min, max, v));
  }
}
