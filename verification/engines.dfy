/**
 * The two engines side by side. A current waypoint maps to an earlier stop with
 * its time as the leave time; from the same state the two engines part ways in
 * two places: the tick that reaches a head, and a head time that lies ahead.
 */
module Engines {
  import opened Options
  import opened Geometry
  import opened Stepping
  import opened Ticks
  import C = CourierSpec
  import L = LegacySpec

  /** The earlier engine's state for a current state: each waypoint becomes the stop at
    * its position, leaving at its time. */
  function AsLegacy(s: C.State): (r: L.State)
    ensures r.loc == s.loc && r.clock == s.clock && |r.stops| == |s.waypoints|
    ensures forall i :: 0 <= i < |r.stops| ==> r.stops[i] == L.Stop(s.waypoints[i].Pos(), s.waypoints[i].time)
  {
    L.State(s.loc, s.clock, seq(|s.waypoints|, i requires 0 <= i < |s.waypoints| => L.Stop(s.waypoints[i].Pos(), s.waypoints[i].time)))
  }

  /** Reaching an untimed head strictly within one stride: the earlier engine snaps onto it
    * and pops it in the same tick, the current engine snaps onto it and keeps it queued
    * until the next tick, which pops it. */
  lemma ArrivalPopsAtDifferentTicks(m: Motion, s: C.State)
    requires IsSqrt(m.sqrt) && 0.0 < m.Stride()
    requires s.waypoints != [] && s.waypoints[0].time.None? && s.loc != s.waypoints[0].Pos()
    requires Distance(s.loc, s.waypoints[0].Pos(), m.sqrt) < m.Stride()
    ensures var l := L.Tick(m, AsLegacy(s));
            l.loc == s.waypoints[0].Pos() && l.stops == AsLegacy(s).stops[1..]
    ensures var c := C.Tick(m, s);
            && c.loc == s.waypoints[0].Pos() && c.waypoints == s.waypoints
            && C.Tick(m, c).waypoints == s.waypoints[1..]
  {
    var ls := AsLegacy(s);
    assert ls.stops[0] == L.Stop(s.waypoints[0].Pos(), None);
    L.TickMoves(m, ls);
    C.TickTravels(m, s);
    C.TickDeparts(m, C.Tick(m, s));
  }

  /** A head time still ahead, away from the head: the earlier engine reads it as a time to
    * leave and holds its place, the current engine reads it as a time to dwell on arrival
    * and strides towards the head. */
  lemma TimeAheadAwayFromHead(m: Motion, s: C.State)
    requires IsSqrt(m.sqrt) && 0.0 <= m.Stride()
    requires s.waypoints != [] && s.loc != s.waypoints[0].Pos()
    requires s.waypoints[0].time.Some? && 0.0 < s.clock + m.stepSize < s.waypoints[0].time.value
    ensures L.Tick(m, AsLegacy(s)).loc == s.loc
    ensures var head := s.waypoints[0].Pos();
            var r := Distance(s.loc, head, m.sqrt);
            C.Tick(m, s).loc == (if r <= m.Stride() then head else Proposed(s.loc, head, m.Stride(), m.sqrt))
  {
    var ls := AsLegacy(s);
    assert ls.stops[0] == L.Stop(s.waypoints[0].Pos(), s.waypoints[0].time);
    assert L.Waiting(m, ls);
    L.TickHolds(m, ls);
    C.TickTravels(m, s);
  }
}
