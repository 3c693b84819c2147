/**
 * The earlier single-file courier: a location, a clock and a queue of stops,
 * each a point with an optional leave time. `Advance` and `GetAllPoints`
 * are proved against the value-level engine of `LegacySpec`; the queue methods state
 * their effect on the fields directly.
 */
module LegacyCouriers {
  import opened Options
  import opened Geometry
  import opened Stepping
  import opened Ticks
  import opened LegacySpec

  class Courier {
    var loc: Point
    var clock: real
    var stops: seq<Stop>
    const stepSize: real
    const speed: real
    /** The platform's square root, used by every distance the courier measures. */
    const sqrt: real -> real

    /** The part of the courier that `Advance` reads and writes. */
    function Snapshot(): State
      reads this
    {
      State(loc, clock, stops)
    }

    /** The part of the courier that never changes. */
    function Config(): Motion
    {
      Motion(stepSize, speed, sqrt)
    }

    /** A courier starts on `p`, at time zero, with `p` and its leave time queued. */
    constructor (p: Point, sqrt: real -> real, leaveAt: Option<real> := None, stepSize: real := 1.0, speed: real := 1.0)
      ensures Snapshot() == State(p, 0.0, [Stop(p, leaveAt)])
      ensures Config() == Motion(stepSize, speed, sqrt)
    {
      this.clock := 0.0;
      this.loc := p;
      this.stops := [];
      this.stepSize := stepSize;
      this.speed := speed;
      this.sqrt := sqrt;
      new;
      AddWaypoint(p, leaveAt);
    }

    /** Queues one stop at the back. */
    method AddWaypoint(p: Point, leaveAt: Option<real> := None)
      modifies this`stops
      ensures stops == old(stops) + [Stop(p, leaveAt)]
    {
      stops := stops + [Stop(p, leaveAt)];
    }

    /** Queues a list of stops at the back, in order. */
    method AddManyWaypoints(more: seq<Stop>)
      modifies this`stops
      ensures stops == old(stops) + more
    {
      stops := stops + more;
    }

    /** The point of the head stop, if any. */
    function NextPoint(): (r: Option<Point>)
      reads this
      ensures r.None? <==> stops == []
      ensures r.Some? ==> r.value == stops[0].p
    {
      if |stops| > 0 then Some(stops[0].p) else None
    }

    /** The leave time of the head stop; `None` both when the queue is empty and when the
      * head has no leave time. */
    function NextLeaveT(): (r: Option<real>)
      reads this
      ensures stops == [] ==> r.None?
      ensures stops != [] ==> r == stops[0].leaveAt
    {
      if |stops| > 0 then stops[0].leaveAt else None
    }

    /** One tick: the clock gains `step_size`; while the head's truthy leave time is still
      * ahead, nothing else happens; otherwise the courier strides towards the head, and a
      * truthy overshoot puts it on the head and pops the head. */
    method Advance()
      modifies this`loc, this`clock, this`stops
      ensures Snapshot() == Tick(Config(), old(Snapshot()))
    {
      clock := clock + stepSize;
      var next := NextPoint();
      var nextLeave := NextLeaveT();
      if Truthy(nextLeave) && clock < nextLeave.value {
        return;
      }
      if next.None? {
        return;
      }
      var proposed := Along(loc, Heading(loc, next.value, sqrt), Config().Stride());
      var overshoot := OvershotByN(loc, next.value, proposed, sqrt);
      if Truthy(overshoot) {
        loc := next.value;
        stops := stops[1..];
      } else {
        loc := proposed;
      }
    }

    /** Advances until the queue is empty and returns the location before every tick and
      * after the last one: the trajectory of the run up to the first tick that finds the
      * queue empty. `CompletedRun` says what that trajectory and the final state are. */
    method GetAllPoints() returns (points: seq<Point>)
      requires IsSqrt(sqrt) && 0.0 < stepSize && 0.0 < speed
      modifies this`loc, this`clock, this`stops
      ensures stops == [] && 0 < |points|
      ensures Snapshot() == Run(Config(), old(Snapshot()), |points| - 1)
      ensures Busy(Config(), old(Snapshot()), |points| - 1)
      ensures points == Trajectory(Config(), old(Snapshot()), |points| - 1)
    {
      hide Tick;
      ghost var s0 := Snapshot();
      points := [];
      while stops != []
        invariant Snapshot() == Run(Config(), s0, |points|)
        invariant points + [loc] == Trajectory(Config(), s0, |points|)
        invariant Busy(Config(), s0, |points|)
        decreases |stops|, Travel(Config(), Snapshot()), Dwell(Config(), Snapshot())
      {
        TickDecreases(Config(), Snapshot());
        points := points + [loc];
        Advance();
      }
      points := points + [loc];
    }
  }
}
