/**
 * One stride of a courier towards its target, shared by both engines: the
 * bearing, the proposed point one stride along it, and the overshoot snap.
 *
 * The source takes the bearing as `atan2(dy, dx)` of `xy_distance` and moves by
 * `(cos, sin)` of it. For a delta of length r > 0 that unit vector is exactly
 * `(dx / r, dy / r)`; for the zero delta `atan2(0, 0) == 0` gives `(1, 0)`.
 * `Heading` writes the vector that way, so no trigonometric function is needed.
 */
module Stepping {
  import opened Options
  import opened Geometry

  /** `(cos θ, sin θ)` for the bearing `θ = atan2(dy, dx)` from `a` towards `b`. */
  function Heading(a: Point, b: Point, sqrt: real -> real): (real, real)
  {
    var (dx, dy) := XyDistance(a, b);
    var r := Distance(a, b, sqrt);
    if r == 0.0 then (1.0, 0.0) else (dx / r, dy / r)
  }

  /** A vector that, scaled by a non-zero length `r`, gives a delta of length `r` has unit
    * length. */
  lemma UnitFromScaled(dx: real, dy: real, r: real, ux: real, uy: real)
    requires r != 0.0 && r * r == dx * dx + dy * dy
    requires r * ux == dx && r * uy == dy
    ensures ux * ux + uy * uy == 1.0
  {
    var rr, n := r * r, ux * ux + uy * uy;
    assert (r * ux) * (r * ux) == rr * (ux * ux);
    assert (r * uy) * (r * uy) == rr * (uy * uy);
    assert rr * (ux * ux) + rr * (uy * uy) == rr * n;
    assert dx * dx + dy * dy == rr * n;
    assert rr * n == rr * 1.0;
    SquareMonotone(0.0, Abs(r));
    assert rr == Abs(r) * Abs(r);
  }

  /** Dividing a non-zero delta by its length gives a unit vector that, scaled back by the
    * length, is the delta again. */
  lemma UnitOfDelta(dx: real, dy: real, r: real)
    requires r != 0.0 && r * r == dx * dx + dy * dy
    ensures (dx / r) * (dx / r) + (dy / r) * (dy / r) == 1.0
    ensures r * (dx / r) == dx && r * (dy / r) == dy
  {
    UnitFromScaled(dx, dy, r, dx / r, dy / r);
  }

  /** The point `step` along the vector `u` from `a`. */
  function Along(a: Point, u: (real, real), step: real): Point
  {
    Point(a.x + step * u.0, a.y + step * u.1)
  }

  /** The heading has unit length, and going the distance from `a` to `b` along it
    * reaches `b`: the two facts that define cosine and sine of the bearing. */
  lemma HeadingIsBearing(a: Point, b: Point, sqrt: real -> real)
    requires IsSqrt(sqrt)
    ensures var u := Heading(a, b, sqrt);
            u.0 * u.0 + u.1 * u.1 == 1.0 && Along(a, u, Distance(a, b, sqrt)) == b
  {
    var d := XyDistance(a, b);
    var r := Distance(a, b, sqrt);
    DistanceZeroIff(a, b, sqrt);
    SquaredDistanceProperties(a, b);
    RootOf(sqrt, SquaredDistance(a, b));
    if r != 0.0 {
      assert Heading(a, b, sqrt) == (d.0 / r, d.1 / r);
      assert r * r == d.0 * d.0 + d.1 * d.1;
      UnitOfDelta(d.0, d.1, r);
    } else {
      assert a == b;
    }
  }

  /** The point one stride of length `step` away from `a` along the bearing to `b`. */
  function Proposed(a: Point, b: Point, step: real, sqrt: real -> real): Point
  {
    Along(a, Heading(a, b, sqrt), step)
  }

  function Abs(v: real): real
  {
    if v < 0.0 then -v else v
  }

  /** A vector of unit length scaled by `k` has squared length `k * k`. */
  lemma ScaledUnitSquare(k: real, ux: real, uy: real)
    requires ux * ux + uy * uy == 1.0
    ensures (k * ux) * (k * ux) + (k * uy) * (k * uy) == k * k
  {
    assert (k * ux) * (k * ux) == (k * k) * (ux * ux);
    assert (k * uy) * (k * uy) == (k * k) * (uy * uy);
    assert (k * k) * (ux * ux) + (k * k) * (uy * uy) == (k * k) * (ux * ux + uy * uy);
  }

  /** A distance whose square is `k * k` is `k`, for non-negative `k`. */
  lemma DistanceFromSquared(p: Point, q: Point, k: real, sqrt: real -> real)
    requires IsSqrt(sqrt) && 0.0 <= k && SquaredDistance(p, q) == k * k
    ensures Distance(p, q, sqrt) == k
  {
    SqrtOfSquare(sqrt, k);
  }

  /** Going `step` along a unit vector covers exactly the distance `step`. */
  lemma AlongLength(a: Point, u: (real, real), step: real, sqrt: real -> real)
    requires IsSqrt(sqrt) && 0.0 <= step && u.0 * u.0 + u.1 * u.1 == 1.0
    ensures Distance(a, Along(a, u, step), sqrt) == step
  {
    ScaledUnitSquare(step, u.0, u.1);
    DistanceFromSquared(a, Along(a, u, step), step, sqrt);
  }

  /** Two points on one ray along a unit vector lie as far apart as their offsets differ. */
  lemma AlongRest(a: Point, u: (real, real), r: real, step: real, sqrt: real -> real)
    requires IsSqrt(sqrt) && u.0 * u.0 + u.1 * u.1 == 1.0
    ensures Distance(Along(a, u, step), Along(a, u, r), sqrt) == Abs(r - step)
  {
    var p, b := Along(a, u, step), Along(a, u, r);
    assert b.x - p.x == (r - step) * u.0;
    assert b.y - p.y == (r - step) * u.1;
    ScaledUnitSquare(r - step, u.0, u.1);
    assert Abs(r - step) * Abs(r - step) == (r - step) * (r - step);
    DistanceFromSquared(p, b, Abs(r - step), sqrt);
  }

  /** The proposed point lies exactly `step` away from `a`. */
  lemma ProposedStride(a: Point, b: Point, step: real, sqrt: real -> real)
    requires IsSqrt(sqrt) && 0.0 <= step
    ensures Distance(a, Proposed(a, b, step, sqrt), sqrt) == step
  {
    HeadingIsBearing(a, b, sqrt);
    AlongLength(a, Heading(a, b, sqrt), step, sqrt);
  }

  /** The proposed point lies on the ray from `a` through `b`, at distance `|r - step|`
    * from `b` where r is the distance from `a` to `b`. */
  lemma ProposedRest(a: Point, b: Point, step: real, sqrt: real -> real)
    requires IsSqrt(sqrt)
    ensures Distance(Proposed(a, b, step, sqrt), b, sqrt) == Abs(Distance(a, b, sqrt) - step)
  {
    HeadingIsBearing(a, b, sqrt);
    AlongRest(a, Heading(a, b, sqrt), Distance(a, b, sqrt), step, sqrt);
  }

  /** What a stride leaves behind: the new location and the overshoot that was measured. */
  datatype Stepped = Stepped(loc: Point, overshoot: Option<real>)

  /** One stride of length `step` from `loc` towards `target`: propose the point along the
    * bearing, measure the overshoot, and snap onto `target` when the overshoot is truthy,
    * otherwise land on the proposed point. */
  function StepToward(loc: Point, target: Point, step: real, sqrt: real -> real): Stepped
  {
    var next := Proposed(loc, target, step, sqrt);
    var overshoot := OvershotByN(loc, target, next, sqrt);
    Stepped(if Truthy(overshoot) then target else next, overshoot)
  }

  /** A stride of a non-negative length reaches the target exactly when the target lies
    * within that length; otherwise it lands `step` closer to the target, never on it. The
    * overshoot is absent exactly when the target is beyond the stride, and otherwise is the
    * unused rest of the stride. */
  lemma StepTowardOutcome(loc: Point, target: Point, step: real, sqrt: real -> real)
    requires IsSqrt(sqrt) && 0.0 <= step
    ensures var st := StepToward(loc, target, step, sqrt);
            var r := Distance(loc, target, sqrt);
            && (st.overshoot.None? <==> step < r)
            && (st.overshoot.Some? ==> st.overshoot.value == step - r)
            && (Truthy(st.overshoot) <==> r < step)
            && (st.loc == target <==> r <= step)
            && (step < r ==> && st.loc == Proposed(loc, target, step, sqrt)
                             && Distance(loc, st.loc, sqrt) == step
                             && Distance(st.loc, target, sqrt) == r - step)
  {
    var r := Distance(loc, target, sqrt);
    var next := Proposed(loc, target, step, sqrt);
    ProposedStride(loc, target, step, sqrt);
    ProposedRest(loc, target, step, sqrt);
    DistanceSymmetric(next, target, sqrt);
    DistanceZeroIff(next, target, sqrt);
    DistanceNonNegative(loc, target, sqrt);
  }
}
