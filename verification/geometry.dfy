/**
 * The 2-D point of the courier simulator: Euclidean distance, the signed
 * coordinate delta, the overshoot test and exact equality.
 *
 * Coordinates are exact reals. The square root that `distance` takes is not
 * computable here, so every operation that needs it receives the platform's
 * square root as a parameter `sqrt`, and every property that depends on it
 * assumes only `IsSqrt(sqrt)`: it returns the non-negative root of every
 * non-negative real.
 */
module Geometry {
  import opened Options

  /** A point; equality of values is equality of both coordinates. */
  datatype Point = Point(x: real, y: real)

  /** `v` may have its square root taken. The quantifier of `IsSqrt` is instantiated only
    * where a proof mentions this predicate, which keeps the facts about roots out of
    * proofs that do not need them. */
  predicate Rootable(v: real)
  {
    0.0 <= v
  }

  /** `sqrt` returns, for every non-negative `v`, the non-negative real whose square is `v`. */
  ghost predicate IsSqrt(sqrt: real -> real)
  {
    forall v: real {:trigger Rootable(v)} :: Rootable(v) ==> 0.0 <= sqrt(v) && sqrt(v) * sqrt(v) == v
  }

  /** The defining facts of the root of one non-negative real. */
  lemma RootOf(sqrt: real -> real, v: real)
    requires IsSqrt(sqrt) && 0.0 <= v
    ensures 0.0 <= sqrt(v) && sqrt(v) * sqrt(v) == v
  {
    assert Rootable(v);
  }

  /** On the non-negative reals, squaring preserves and reflects strict order. */
  lemma SquareMonotone(a: real, b: real)
    requires 0.0 <= a && 0.0 <= b
    ensures a < b <==> a * a < b * b
  {
    if a < b {
      assert 0.0 <= a * (b - a) && 0.0 < b * (b - a);
    } else {
      assert 0.0 <= b * (a - b) && 0.0 <= a * (a - b);
    }
  }

  /** The root of a square is the non-negative number squared: the root is unique. */
  lemma SqrtOfSquare(sqrt: real -> real, t: real)
    requires IsSqrt(sqrt) && 0.0 <= t
    ensures sqrt(t * t) == t
  {
    var u := sqrt(t * t);
    RootOf(sqrt, t * t);
    SquareMonotone(u, t);
    SquareMonotone(t, u);
  }

  /** The square root is strictly increasing, so it preserves and reflects comparisons. */
  lemma SqrtMonotone(sqrt: real -> real, v: real, w: real)
    requires IsSqrt(sqrt) && 0.0 <= v && 0.0 <= w
    ensures sqrt(v) < sqrt(w) <==> v < w
  {
    RootOf(sqrt, v);
    RootOf(sqrt, w);
    SquareMonotone(sqrt(v), sqrt(w));
  }

  /** The only root that is zero is the root of zero. */
  lemma SqrtZero(sqrt: real -> real, v: real)
    requires IsSqrt(sqrt) && 0.0 <= v
    ensures sqrt(v) == 0.0 <==> v == 0.0
  {
    RootOf(sqrt, v);
    if v == 0.0 {
      SqrtOfSquare(sqrt, 0.0);
      assert 0.0 * 0.0 == v;
    }
  }

  /** The squared Euclidean distance, `(p.x - self.x) ** 2 + (p.y - self.y) ** 2`. */
  function SquaredDistance(a: Point, b: Point): real
  {
    (b.x - a.x) * (b.x - a.x) + (b.y - a.y) * (b.y - a.y)
  }

  /** The squared distance is non-negative, symmetric, and zero exactly between equal points. */
  lemma SquaredDistanceProperties(a: Point, b: Point)
    ensures 0.0 <= SquaredDistance(a, b) == SquaredDistance(b, a)
    ensures SquaredDistance(a, b) == 0.0 <==> a == b
  {
    var dx, dy := b.x - a.x, b.y - a.y;
    assert 0.0 <= dx * dx && 0.0 <= dy * dy;
    assert (a.x - b.x) * (a.x - b.x) == dx * dx;
    assert (a.y - b.y) * (a.y - b.y) == dy * dy;
    if SquaredDistance(a, b) == 0.0 {
      assert dx * dx == 0.0 && dy * dy == 0.0;
      if dx != 0.0 {
        SquareMonotone(0.0, if dx < 0.0 then -dx else dx);
      }
      if dy != 0.0 {
        SquareMonotone(0.0, if dy < 0.0 then -dy else dy);
      }
    }
  }

  /** `self.distance(p)`: the Euclidean distance between two points. */
  function Distance(a: Point, b: Point, sqrt: real -> real): real
  {
    sqrt(SquaredDistance(a, b))
  }

  lemma DistanceNonNegative(a: Point, b: Point, sqrt: real -> real)
    requires IsSqrt(sqrt)
    ensures 0.0 <= Distance(a, b, sqrt)
  {
    SquaredDistanceProperties(a, b);
    RootOf(sqrt, SquaredDistance(a, b));
  }

  lemma DistanceSymmetric(a: Point, b: Point, sqrt: real -> real)
    requires IsSqrt(sqrt)
    ensures Distance(a, b, sqrt) == Distance(b, a, sqrt)
  {
    SquaredDistanceProperties(a, b);
  }

  /** Distance is zero exactly between equal points; in particular `a.distance(a) == 0`. */
  lemma DistanceZeroIff(a: Point, b: Point, sqrt: real -> real)
    requires IsSqrt(sqrt)
    ensures Distance(a, b, sqrt) == 0.0 <==> a == b
  {
    SquaredDistanceProperties(a, b);
    SqrtZero(sqrt, SquaredDistance(a, b));
  }

  /** Comparing two distances from one point is comparing the squared distances. */
  lemma DistanceOrder(a: Point, b: Point, c: Point, sqrt: real -> real)
    requires IsSqrt(sqrt)
    ensures Distance(a, b, sqrt) < Distance(a, c, sqrt) <==> SquaredDistance(a, b) < SquaredDistance(a, c)
  {
    SquaredDistanceProperties(a, b);
    SquaredDistanceProperties(a, c);
    SqrtMonotone(sqrt, SquaredDistance(a, b), SquaredDistance(a, c));
  }

  /** `self.xy_distance(p)`: the signed delta that carries `a` onto `b`. */
  function XyDistance(a: Point, b: Point): (d: (real, real))
    ensures a.x + d.0 == b.x && a.y + d.1 == b.y
  {
    (b.x - a.x, b.y - a.y)
  }

  /** Swapping the arguments of `xy_distance` negates both components. */
  lemma XyDistanceAntisymmetric(a: Point, b: Point)
    ensures XyDistance(b, a) == (-XyDistance(a, b).0, -XyDistance(a, b).1)
  {
  }

  /** `self.overshot_by_n(dest, next)`: `None` when `dest` is strictly farther from `self`
    * than `next`, otherwise the distance from `dest` to `next`. */
  function OvershotByN(self: Point, dest: Point, next: Point, sqrt: real -> real): Option<real>
  {
    if Distance(self, dest, sqrt) > Distance(self, next, sqrt) then None
    else Some(Distance(dest, next, sqrt))
  }

  /** No overshoot exactly when the destination lies strictly farther away than the
    * proposed point; an overshoot is a non-negative amount, zero exactly when the
    * proposed point is the destination. */
  lemma OvershotByNMeaning(self: Point, dest: Point, next: Point, sqrt: real -> real)
    requires IsSqrt(sqrt)
    ensures OvershotByN(self, dest, next, sqrt).None? <==> SquaredDistance(self, next) < SquaredDistance(self, dest)
    ensures OvershotByN(self, dest, next, sqrt).Some? ==>
              var n := OvershotByN(self, dest, next, sqrt).value;
              n == Distance(dest, next, sqrt) && 0.0 <= n && (n == 0.0 <==> dest == next)
  {
    DistanceOrder(self, next, dest, sqrt);
    DistanceNonNegative(dest, next, sqrt);
    DistanceZeroIff(dest, next, sqrt);
  }

  /** Standing on the destination always counts as an overshoot, since a zero distance is
    * never greater than another distance. */
  lemma OvershotByNAtDestination(self: Point, next: Point, sqrt: real -> real)
    requires IsSqrt(sqrt)
    ensures OvershotByN(self, self, next, sqrt) == Some(Distance(self, next, sqrt))
  {
    DistanceZeroIff(self, self, sqrt);
    DistanceNonNegative(self, next, sqrt);
  }

  /** `self == other`: both coordinates are equal, which is equality of the values. */
  predicate Eq(self: Point, other: Point)
    ensures Eq(self, other) <==> self == other
  {
    other.x == self.x && other.y == self.y
  }

  /** Exact coordinate equality is an equivalence relation. */
  lemma EqIsEquivalence(a: Point, b: Point, c: Point)
    ensures Eq(a, a)
    ensures Eq(a, b) ==> Eq(b, a)
    ensures Eq(a, b) && Eq(b, c) ==> Eq(a, c)
  {
  }
}
