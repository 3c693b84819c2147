/**
 * The current courier: a location, a clock and a queue of waypoints that it
 * walks through one `advance` at a time. `Advance` and `GetAllPoints` are proved
 * against the value-level engine of `CourierSpec`; the queue methods state their effect
 * on the fields directly.
 */
module Couriers {
  import opened Options
  import opened Geometry
  import opened Stepping
  import opened Ticks
  import opened CourierSpec

  class Courier {
    var loc: Point
    var clock: real
    var waypoints: seq<WayPoint>
    const stepSize: real
    const speed: real
    const name: string
    /** The platform's square root, used by every distance the courier measures. */
    const sqrt: real -> real

    /** The part of the courier that `Advance` reads and writes. */
    function Snapshot(): State
      reads this
    {
      State(loc, clock, waypoints)
    }

    /** The part of the courier that never changes. */
    function Config(): Motion
    {
      Motion(stepSize, speed, sqrt)
    }

    /** A courier starts on its first waypoint, at time zero, with that waypoint queued. */
    constructor (wp: WayPoint, sqrt: real -> real, stepSize: real := 1.0, speed: real := 1.0, name: string := "c?")
      ensures Snapshot() == State(wp.Pos(), 0.0, [wp])
      ensures Config() == Motion(stepSize, speed, sqrt) && this.name == name
    {
      this.clock := 0.0;
      this.loc := wp.Pos();
      this.waypoints := [];
      this.stepSize := stepSize;
      this.speed := speed;
      this.name := name;
      this.sqrt := sqrt;
      new;
      AddWaypoint(wp);
    }

    /** The queue as a value: later changes to the courier never reach it. */
    function Waypoints(): (r: seq<WayPoint>)
      reads this
      ensures r == waypoints
    {
      waypoints
    }

    /** Queues one waypoint at the back. */
    method AddWaypoint(wp: WayPoint)
      modifies this`waypoints
      ensures waypoints == old(waypoints) + [wp]
    {
      waypoints := waypoints + [wp];
    }

    /** Queues a list of waypoints at the back, in order. */
    method AddManyWaypoints(wps: seq<WayPoint>)
      modifies this`waypoints
      ensures waypoints == old(waypoints) + wps
    {
      waypoints := waypoints + wps;
    }

    /** The length of the path from the location through every queued waypoint in order. */
    method DistanceToComplete() returns (total: real)
      ensures total == PathLength([loc] + Positions(waypoints), sqrt)
    {
      var a := [loc] + Positions(waypoints);
      total := 0.0;
      var i := 0;
      while i + 1 < |a|
        invariant 0 <= i < |a|
        invariant total == PathLength(a[..i + 1], sqrt)
      {
        assert a[..i + 2][..i + 1] == a[..i + 1];
        total := total + Distance(a[i], a[i + 1], sqrt);
        i := i + 1;
      }
      assert a[..i + 1] == a;
    }

    /** The whole strides of `step_size` that cover the remaining path, rounded up; the
      * division fails on a zero step size. */
    method StepsToComplete() returns (n: Option<int>)
      requires IsSqrt(sqrt)
      ensures n.None? <==> stepSize == 0.0
      ensures n.Some? ==> var d := PathLength([loc] + Positions(waypoints), sqrt);
                          (n.value - 1) as real < d / stepSize <= n.value as real
      ensures n.Some? && 0.0 < stepSize ==>
                && 0 <= n.value
                && (n.value == 0 <==> forall p :: p in waypoints ==> p.Pos() == loc)
    {
      var d := DistanceToComplete();
      if stepSize == 0.0 {
        return None;
      }
      n := Some(Ceil(d / stepSize));
      if 0.0 < stepSize {
        RemainingPath(loc, waypoints, sqrt);
        QuotientSign(d, stepSize);
      }
    }

    /** The head of the queue, if any. */
    function NextPoint(): (r: Option<WayPoint>)
      reads this
      ensures r.None? <==> waypoints == []
      ensures r.Some? ==> r.value == waypoints[0]
    {
      if |waypoints| > 0 then Some(waypoints[0]) else None
    }

    /** One stride towards `next`, of `step` or by default `step_size * speed`: propose the
      * point along the bearing, snap onto `next` when the overshoot is truthy, and return
      * the overshoot. */
    method StepTo(next: Point, step: Option<real> := None) returns (overshoot: Option<real>)
      modifies this`loc
      ensures var len := if step.None? then Config().Stride() else step.value;
              Stepped(loc, overshoot) == StepToward(old(loc), next, len, sqrt)
      ensures var len := if step.None? then Config().Stride() else step.value;
              var r := Distance(old(loc), next, sqrt);
              IsSqrt(sqrt) && 0.0 <= len ==> (loc == next <==> r <= len) && (len < r ==> Distance(loc, next, sqrt) == r - len)
    {
      var len := if step.None? then Config().Stride() else step.value;
      var proposed := Along(loc, Heading(loc, next, sqrt), len);
      overshoot := OvershotByN(loc, next, proposed, sqrt);
      if Truthy(overshoot) {
        loc := next;
      } else {
        loc := proposed;
      }
      if IsSqrt(sqrt) && 0.0 <= len {
        StepTowardOutcome(old(loc), next, len, sqrt);
      }
    }

    /** One tick: the clock gains `step_size`; standing on the head the courier either
      * dwells until the head's time or leaves it; then it strides towards the head. */
    method Advance()
      modifies this`loc, this`clock, this`waypoints
      ensures Snapshot() == Tick(Config(), old(Snapshot()))
    {
      clock := clock + stepSize;
      var next := NextPoint();
      if next.None? {
        return;
      }
      if Eq(loc, next.value.Pos()) {
        if next.value.time.Some? && clock >= next.value.time.value {
          waypoints := waypoints[1..];
          next := NextPoint();
        } else if next.value.time.None? {
          waypoints := waypoints[1..];
          next := NextPoint();
        } else {
          return;
        }
      }
      if next.None? {
        return;
      }
      var _ := StepTo(next.value.Pos());
    }

    /** Advances until the queue is empty and returns the location before every tick and
      * after the last one: the trajectory of the run up to the first tick that finds the
      * queue empty. `TrajectoryShape`, `RunClock` and `RunEndsAtLastWaypoint` say what
      * that trajectory and the final state are. */
    method GetAllPoints() returns (points: seq<Point>)
      requires IsSqrt(sqrt) && 0.0 < stepSize && 0.0 < speed
      modifies this`loc, this`clock, this`waypoints
      ensures waypoints == [] && 0 < |points|
      ensures Snapshot() == Run(Config(), old(Snapshot()), |points| - 1)
      ensures Busy(Config(), old(Snapshot()), |points| - 1)
      ensures points == Trajectory(Config(), old(Snapshot()), |points| - 1)
    {
      hide Tick;
      ghost var s0 := Snapshot();
      points := [];
      while waypoints != []
        invariant Snapshot() == Run(Config(), s0, |points|)
        invariant points + [loc] == Trajectory(Config(), s0, |points|)
        invariant Busy(Config(), s0, |points|)
        decreases |waypoints|, Travel(Config(), Snapshot()), Dwell(Config(), Snapshot())
      {
        TickDecreases(Config(), Snapshot());
        points := points + [loc];
        Advance();
      }
      points := points + [loc];
    }
  }
}
