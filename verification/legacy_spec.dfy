/**
 * The earlier single-file engine as values. Its queue holds stops: a point and
 * an optional leave time. One tick waits while the head's leave time is truthy
 * and still ahead of the clock, and otherwise strides towards the head; a
 * truthy overshoot snaps onto the head and pops it in the same tick.
 */
module LegacySpec {
  import opened Options
  import opened Geometry
  import opened Stepping
  import opened Ticks

  /** A queued stop: the point to reach and the time before which not to leave for it. */
  datatype Stop = Stop(p: Point, leaveAt: Option<real>)

  /** The part of an earlier courier that `advance` reads and writes. */
  datatype State = State(loc: Point, clock: real, stops: seq<Stop>)

  /** The head's leave time is truthy and lies beyond the advanced clock. */
  predicate Waiting(m: Motion, s: State)
  {
    s.stops != [] && Truthy(s.stops[0].leaveAt) && s.clock + m.stepSize < s.stops[0].leaveAt.value
  }

  /** The state after one `advance`: the clock gains `stepSize`; while waiting, or on an
    * empty queue, nothing else happens; otherwise the courier strides towards the head,
    * and a truthy overshoot puts it on the head and pops the head. */
  function Tick(m: Motion, s: State): State
  {
    var clock := s.clock + m.stepSize;
    if Waiting(m, s) || s.stops == [] then s.(clock := clock)
    else
      var st := StepToward(s.loc, s.stops[0].p, m.Stride(), m.sqrt);
      if Truthy(st.overshoot) then State(st.loc, clock, s.stops[1..])
      else State(st.loc, clock, s.stops)
  }

  /** Every tick adds exactly `stepSize` to the clock and removes at most the head. */
  lemma TickClockAndQueue(m: Motion, s: State)
    ensures Tick(m, s).clock == s.clock + m.stepSize
    ensures var w := Tick(m, s).stops;
            w == s.stops || (s.stops != [] && w == s.stops[1..])
  {
  }

  /** While waiting, and on an empty queue, only the clock moves. */
  lemma TickHolds(m: Motion, s: State)
    requires Waiting(m, s) || s.stops == []
    ensures Tick(m, s) == s.(clock := s.clock + m.stepSize)
  {
  }

  /** A leave time of zero is falsy: the tick goes exactly as with no leave time, to the
    * same location and clock, popping the head in one case exactly when in the other. */
  lemma ZeroLeaveIsAbsent(m: Motion, s: State, p: Point, rest: seq<Stop>)
    requires s.stops == [Stop(p, Some(0.0))] + rest
    ensures var z := s.(stops := [Stop(p, None)] + rest);
            && Tick(m, s).loc == Tick(m, z).loc && Tick(m, s).clock == Tick(m, z).clock
            && (Tick(m, s).stops == rest <==> Tick(m, z).stops == rest)
  {
    var z := s.(stops := [Stop(p, None)] + rest);
    assert !Waiting(m, s) && !Waiting(m, z);
    assert s.stops != rest && z.stops != rest;
  }

  /** Not waiting, a tick strides towards the head. A head strictly within one stride is
    * reached and popped; otherwise the courier lands one stride closer, which is on the
    * head exactly when it was one stride away, and keeps the queue. */
  lemma TickMoves(m: Motion, s: State)
    requires IsSqrt(m.sqrt) && 0.0 <= m.Stride()
    requires s.stops != [] && !Waiting(m, s)
    ensures var r := Distance(s.loc, s.stops[0].p, m.sqrt);
            var t := Tick(m, s);
            && (t.stops == s.stops[1..] <==> r < m.Stride())
            && (r < m.Stride() ==> t.loc == s.stops[0].p)
            && (m.Stride() <= r ==> && t.stops == s.stops
                                    && t.loc == Proposed(s.loc, s.stops[0].p, m.Stride(), m.sqrt)
                                    && Distance(t.loc, s.stops[0].p, m.sqrt) == r - m.Stride())
  {
    var head := s.stops[0].p;
    var st := StepToward(s.loc, head, m.Stride(), m.sqrt);
    assert Tick(m, s) == if Truthy(st.overshoot) then State(st.loc, s.clock + m.stepSize, s.stops[1..])
                         else State(st.loc, s.clock + m.stepSize, s.stops);
    StepTowardOutcome(s.loc, head, m.Stride(), m.sqrt);
    if m.Stride() <= Distance(s.loc, head, m.sqrt) {
      assert st.loc == Proposed(s.loc, head, m.Stride(), m.sqrt) by {
        ProposedStride(s.loc, head, m.Stride(), m.sqrt);
        ProposedRest(s.loc, head, m.Stride(), m.sqrt);
      }
      ProposedRest(s.loc, head, m.Stride(), m.sqrt);
      DistanceNonNegative(s.loc, head, m.sqrt);
    }
    assert s.stops[1..] != s.stops;
  }

  /** A tick that empties the queue snapped onto its only stop. */
  lemma TickEmptiesOnLastStop(m: Motion, s: State)
    requires s.stops != [] && Tick(m, s).stops == []
    ensures |s.stops| == 1 && Tick(m, s).loc == s.stops[0].p
  {
  }

  /** Ticks still needed to reach the head: the strides that cover the distance to it. */
  function Travel(m: Motion, s: State): nat
  {
    if s.stops == [] then 0 else Strides(Distance(s.loc, s.stops[0].p, m.sqrt), m.Stride())
  }

  /** Whole ticks left before a truthy leave time of the head is due. */
  function Dwell(m: Motion, s: State): nat
  {
    if s.stops == [] || m.stepSize <= 0.0 || !Truthy(s.stops[0].leaveAt) then 0
    else
      var t := s.stops[0].leaveAt.value;
      if s.clock < t then ((t - s.clock) / m.stepSize).Floor else 0
  }

  /** A waiting tick brings the leave time one whole tick nearer. */
  lemma DwellDecreases(m: Motion, s: State)
    requires 0.0 < m.stepSize && Waiting(m, s)
    ensures Dwell(m, Tick(m, s)) < Dwell(m, s)
  {
    var t := s.stops[0].leaveAt.value;
    TickHolds(m, s);
    QuotientShift(t - s.clock, m.stepSize);
    assert t - (s.clock + m.stepSize) == t - s.clock - m.stepSize;
  }

  /** A moving tick that keeps the head gets one whole stride closer to it. */
  lemma TravelDecreases(m: Motion, s: State)
    requires IsSqrt(m.sqrt) && 0.0 < m.Stride()
    requires s.stops != [] && !Waiting(m, s) && Tick(m, s).stops == s.stops
    ensures Travel(m, Tick(m, s)) < Travel(m, s)
  {
    var r := Distance(s.loc, s.stops[0].p, m.sqrt);
    TickMoves(m, s);
    DistanceNonNegative(Tick(m, s).loc, s.stops[0].p, m.sqrt);
    if m.Stride() < r {
      StridesShift(r, m.Stride());
    } else {
      QuotientNonNegative(r, m.Stride());
      assert r == m.Stride() && r / m.Stride() == 1.0;
    }
  }

  /** With a positive step size and speed, every tick on a non-empty queue makes progress:
    * it pops the head, or gets a whole stride closer to it, or brings a truthy leave time
    * a whole tick nearer while waiting. */
  lemma TickDecreases(m: Motion, s: State)
    requires IsSqrt(m.sqrt) && 0.0 < m.stepSize && 0.0 < m.speed && s.stops != []
    ensures var t := Tick(m, s);
            || |t.stops| < |s.stops|
            || (|t.stops| == |s.stops| && Travel(m, t) < Travel(m, s))
            || (|t.stops| == |s.stops| && Travel(m, t) == Travel(m, s) && Dwell(m, t) < Dwell(m, s))
  {
    hide Tick;
    assert 0.0 < m.Stride();
    TickClockAndQueue(m, s);
    if Waiting(m, s) {
      TickHolds(m, s);
      DwellDecreases(m, s);
    } else if Tick(m, s).stops == s.stops {
      TravelDecreases(m, s);
    }
  }

  /** The state after `n` ticks. */
  function Run(m: Motion, s: State, n: nat): State
  {
    if n == 0 then s else Tick(m, Run(m, s, n - 1))
  }

  /** The locations before the first tick and after each of `n` ticks. */
  function Trajectory(m: Motion, s: State, n: nat): seq<Point>
  {
    if n == 0 then [s.loc] else Trajectory(m, s, n - 1) + [Run(m, s, n).loc]
  }

  /** The queue is still non-empty before each of the first `n` ticks. */
  function Busy(m: Motion, s: State, n: nat): bool
  {
    n == 0 || (Busy(m, s, n - 1) && Run(m, s, n - 1).stops != [])
  }

  /** Running `n + 1` ticks is one tick followed by `n` more. */
  lemma {:induction false} RunShift(m: Motion, s: State, n: nat)
    ensures Run(m, s, n + 1) == Run(m, Tick(m, s), n)
  {
    hide Tick;
    if n > 0 {
      RunShift(m, s, n - 1);
    }
  }

  /** After `n` ticks the clock has gained exactly `n` step sizes. */
  lemma {:induction false} RunClock(m: Motion, s: State, n: nat)
    ensures Run(m, s, n).clock == s.clock + Elapsed(n, m.stepSize)
  {
    hide Tick;
    if n > 0 {
      RunClock(m, s, n - 1);
      TickClockAndQueue(m, Run(m, s, n - 1));
    }
  }

  /** A trajectory of `n` ticks has `n + 1` points: the location before the first tick and
    * after each tick, in order. */
  lemma {:induction false} TrajectoryShape(m: Motion, s: State, n: nat)
    ensures |Trajectory(m, s, n)| == n + 1
    ensures Trajectory(m, s, n)[0] == s.loc
    ensures forall i :: 0 <= i <= n ==> Trajectory(m, s, n)[i] == Run(m, s, i).loc
  {
    hide Tick;
    if n > 0 {
      TrajectoryShape(m, s, n - 1);
    }
  }

  /** Ticks only ever remove stops from the front: the queue is always a suffix of the
    * queue the run started with. */
  lemma {:induction false} RunSuffix(m: Motion, s: State, n: nat)
    ensures var w := Run(m, s, n).stops;
            |w| <= |s.stops| && w == s.stops[|s.stops| - |w|..]
  {
    hide Tick;
    if n > 0 {
      RunSuffix(m, s, n - 1);
      TickClockAndQueue(m, Run(m, s, n - 1));
    }
  }

  /** `Busy` holds exactly when no earlier state of the run has an empty queue. */
  lemma {:induction false} BusyMeans(m: Motion, s: State, n: nat)
    ensures Busy(m, s, n) <==> forall k :: 0 <= k < n ==> Run(m, s, k).stops != []
  {
    hide Tick;
    if n > 0 {
      BusyMeans(m, s, n - 1);
      if Busy(m, s, n) {
        forall k | 0 <= k < n
          ensures Run(m, s, k).stops != []
        {
          if k < n - 1 {
            assert Busy(m, s, n - 1);
          }
        }
      } else if Busy(m, s, n - 1) {
        assert Run(m, s, n - 1).stops == [];
      } else {
        var k :| 0 <= k < n - 1 && Run(m, s, k).stops == [];
        assert k < n;
      }
    }
  }

  /** A run that empties a non-empty queue ends exactly on the last stop queued. */
  lemma {:induction false} RunEndsAtLastStop(m: Motion, s: State, n: nat)
    requires s.stops != [] && Run(m, s, n).stops == []
    ensures Run(m, s, n).loc == s.stops[|s.stops| - 1].p
  {
    hide Tick;
    if n > 0 {
      var before := Run(m, s, n - 1);
      if before.stops == [] {
        TickHolds(m, before);
        RunEndsAtLastStop(m, s, n - 1);
      } else {
        TickEmptiesOnLastStop(m, before);
        RunSuffix(m, s, n - 1);
      }
    }
  }

  /** With a positive step size and speed every run empties its queue. */
  lemma {:induction false} Finishes(m: Motion, s: State) returns (n: nat)
    requires IsSqrt(m.sqrt) && 0.0 < m.stepSize && 0.0 < m.speed
    ensures Run(m, s, n).stops == []
    decreases |s.stops|, Travel(m, s), Dwell(m, s)
  {
    hide Tick;
    if s.stops == [] {
      n := 0;
    } else {
      TickDecreases(m, s);
      var k := Finishes(m, Tick(m, s));
      RunShift(m, s, k);
      n := k + 1;
    }
  }

  /** What a run that stops at the first empty queue leaves behind: `n + 1` points from
    * the start to the final location, a clock `n` step sizes later, the courier on the
    * last stop queued if there was one, and no other stopping point. */
  lemma CompletedRun(m: Motion, s: State, n: nat)
    requires Busy(m, s, n) && Run(m, s, n).stops == []
    ensures var t := Trajectory(m, s, n);
            |t| == n + 1 && t[0] == s.loc && t[n] == Run(m, s, n).loc
    ensures Run(m, s, n).clock == s.clock + n as real * m.stepSize
    ensures s.stops != [] ==> Run(m, s, n).loc == s.stops[|s.stops| - 1].p
    ensures forall k :: Busy(m, s, k) && Run(m, s, k).stops == [] ==> k == n
  {
    hide Tick;
    TrajectoryShape(m, s, n);
    RunClock(m, s, n);
    ElapsedIsProduct(n, m.stepSize);
    if s.stops != [] {
      RunEndsAtLastStop(m, s, n);
    }
    BusyMeans(m, s, n);
    forall k | Busy(m, s, k) && Run(m, s, k).stops == []
      ensures k == n
    {
      BusyMeans(m, s, k);
    }
  }
}
