/**
 * What the two engines share about time: the fixed step size and speed, the
 * clock gained over a number of ticks, and the whole-stride counts and ceilings
 * that measure progress.
 */
module Ticks {
  /** The part of a courier that a tick reads and never writes: the step size, the speed and
    * the platform's square root. */
  datatype Motion = Motion(stepSize: real, speed: real, sqrt: real -> real)
  {
    /** The distance covered in one tick, `step_size * speed`. */
    function Stride(): real
    {
      stepSize * speed
    }
  }

  /** Strides of length `stride` that cover a distance `r`: one more than the whole strides
    * in `r`, so that a distance within one stride still takes a stride. */
  function Strides(r: real, stride: real): nat
  {
    if stride <= 0.0 || r < 0.0 then 0 else (r / stride).Floor + 1
  }

  /** Taking one stride off a distance longer than a stride takes one off the count. */
  lemma StridesShift(r: real, stride: real)
    requires 0.0 < stride < r
    ensures Strides(r - stride, stride) == Strides(r, stride) - 1
  {
    QuotientShift(r, stride);
    QuotientNonNegative(r - stride, stride);
    assert (r / stride - 1.0).Floor == (r / stride).Floor - 1;
  }

  /** Taking one divisor off the dividend takes one off the quotient. */
  lemma QuotientShift(a: real, d: real)
    requires d != 0.0
    ensures (a - d) / d == a / d - 1.0
  {
    assert (a - d) / d == a / d - d / d;
  }

  /** A non-negative amount divided by a positive one is non-negative. */
  lemma QuotientNonNegative(a: real, d: real)
    requires 0.0 <= a && 0.0 < d
    ensures 0.0 <= a / d
  {
    assert a / d * d == a;
  }

  /** The time that `n` ticks of length `d` take, added up tick by tick. */
  function Elapsed(n: nat, d: real): real
  {
    if n == 0 then 0.0 else Elapsed(n - 1, d) + d
  }

  /** Adding up `n` ticks of length `d` gives `n * d`. */
  lemma {:induction false} ElapsedIsProduct(n: nat, d: real)
    ensures Elapsed(n, d) == n as real * d
  {
    if n > 0 {
      ElapsedIsProduct(n - 1, d);
      assert (n - 1) as real * d + d == n as real * d;
    }
  }

  /** A non-negative amount over a positive one has a ceiling that is non-negative, and
    * zero exactly when the amount is. */
  lemma QuotientSign(d: real, step: real)
    requires 0.0 <= d && 0.0 < step
    ensures 0 <= Ceil(d / step) && (Ceil(d / step) == 0 <==> d == 0.0)
  {
    QuotientNonNegative(d, step);
    if d != 0.0 {
      assert d / step * step == d;
      assert d / step != 0.0;
    }
  }

  /** `math.ceil`: the least integer not below `v`. */
  function Ceil(v: real): (n: int)
    ensures (n - 1) as real < v <= n as real
  {
    -((-v).Floor)
  }
}
