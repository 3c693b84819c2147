# Courier traversal engine

A courier walks a queue of waypoints on the plane in discrete ticks. Each tick adds the step
size to the courier's clock. The courier then either waits for a waypoint's time, drops a
waypoint it has reached, or takes one stride of `step_size * speed` towards the head of the
queue. When a stride would reach or pass the head, the courier snaps exactly onto it.
`get_all_points` ticks until the queue is empty and returns every location it went through.

The repository holds the engine twice, and both copies are modelled here:

- the current engine, `src/orders/courier.py` on top of `src/orders/point.py`;
- an earlier single-file engine, `orders.py`. Its queue holds `(point, leave_at_t)` pairs. It
  drops the head in the same tick as the snap, and it waits for a leave time wherever it
  stands.

The `Point` class of `orders.py` (lines 14-43) matches `src/orders/point.py` line for line. One
module, `Geometry`, models both.

The queue entries are values. `CourierSpec.WayPoint` models `WayPoint`
(`src/orders/courier.py:8-21`): a point with an optional time and an optional name.
`LegacySpec.Stop` models the `(point, leave_at_t)` pair of the earlier engine (`orders.py:49`,
`orders.py:65-66`).

`Run`, `Trajectory`, `Busy` and the lemmas about runs are written once in `CourierSpec` and
once in `LegacySpec`. The copies are deliberate. Each copy is stated over its own engine's state
and `Tick`, so every lemma about a run unfolds only that engine's tick.

Layout:

- `options.dfy` (`Options`): `Option` and Python truthiness of an optional float (`Truthy`:
  present and non-zero).
- `geometry.dfy` (`Geometry`): `Point`, `distance`, `xy_distance`, `overshot_by_n` and `__eq__`.
- `stepping.dfy` (`Stepping`): the bearing, the proposed point and the overshoot snap, shared
  by both engines.
- `ticks.dfy` (`Ticks`): step size, speed, stride, elapsed time, and the counting used for
  termination.
- `courier_spec.dfy` (`CourierSpec`): the current engine as values. `Tick` is one `advance`;
  `Run` and `Trajectory` cover `n` ticks. Lemmas state what a tick and a run do.
- `courier.dfy` (`Couriers`): the current `Courier` class, whose fields are updated in place.
  `Advance` is proved equal to `CourierSpec.Tick` and `GetAllPoints` to `CourierSpec.Run` and
  `CourierSpec.Trajectory`. `StepTo` is proved equal to `Stepping.StepToward`, and
  `DistanceToComplete` to `CourierSpec.PathLength`. The queue methods (`AddWaypoint`,
  `AddManyWaypoints`, `Waypoints`, `NextPoint`) state their effect on the fields directly.
- `legacy_spec.dfy` (`LegacySpec`) and `legacy_courier.dfy` (`LegacyCouriers`): the same pair
  for the earlier engine. There `Advance` is proved equal to `LegacySpec.Tick` and
  `GetAllPoints` to `LegacySpec.Run` and `LegacySpec.Trajectory`.
- `engines.dfy` (`Engines`): where the two engines part ways from the same state.

Real-number modelling:

- Coordinates, times, step sizes and speeds are exact reals.
- The square root is a parameter `sqrt`. The only assumption about it is `IsSqrt`: it returns
  the non-negative root of every non-negative real.
- `atan2`, `cos` and `sin` occur only as `(cos θ, sin θ)` with `θ = atan2(dy, dx)`. For a
  delta of length `r > 0`, that vector is exactly `(dx / r, dy / r)`. For the zero delta,
  `atan2(0, 0) = 0`, so it is `(1, 0)`. `Stepping.Heading` writes the vector that way.
- As a result, a stride is exact: the proposed point is exactly one stride from the start and
  lies on the ray towards the target.
- `get_all_points` is proved to terminate when the step size and speed are positive. The
  measure is lexicographic: first the queue length, then the whole strides left to the head,
  then the whole ticks left of a wait.

## Model

| member | source | states |
|---|---|---|
| Options.Truthy | src/orders/courier.py:84 | no contract; Python truthiness of an optional float: present and non-zero. `LegacySpec.ZeroLeaveIsAbsent` and `Stepping.StepTowardOutcome` state what it decides |
| Geometry.Distance | src/orders/point.py:13-14 | no contract; `distance`. Its properties are `DistanceNonNegative`, `DistanceSymmetric`, `DistanceZeroIff` and `DistanceOrder` |
| Geometry.OvershotByN | src/orders/point.py:21-29 | no contract; `overshot_by_n`. Its properties are `OvershotByNMeaning` and `OvershotByNAtDestination` |
| Stepping.Heading | orders.py:104-105 | no contract; `(cos, sin)` of `atan2` of `xy_distance`, which `src/orders/courier.py:79` also needs. Its property is `HeadingIsBearing` |
| Stepping.Proposed | orders.py:104-108 | no contract; the proposed point one stride along the bearing. Its properties are `ProposedStride` and `ProposedRest` |
| Stepping.StepToward | src/orders/courier.py:77-88 | no contract; the stride of `step_to`, and of `orders.py:104-117`. Its property is `StepTowardOutcome` |
| CourierSpec.Tick | src/orders/courier.py:91-126 | no contract; one `advance`. Its properties are `TickClockAndQueue`, `TickWhenDone`, `TickDwells`, `TickDwellsState`, `TickDeparts`, `TickTravels`, `TickEmptiesOnLastWaypoint` and `TickDecreases` |
| CourierSpec.Run | src/orders/courier.py:129-135 | no contract; the state after `n` ticks. Its properties are `RunClock`, `RunSuffix`, `RunEndsAtLastWaypoint`, `Finishes`, `DwellHolds` and `CompletedRun` |
| CourierSpec.Trajectory | src/orders/courier.py:129-135 | no contract; the locations recorded by `get_all_points` over `n` ticks. Its properties are `TrajectoryShape` and `CompletedRun` |
| CourierSpec.Busy | src/orders/courier.py:131 | no contract; the loop condition held before each of `n` ticks. Its property is `BusyMeans` |
| CourierSpec.PathLength | src/orders/courier.py:61-67 | no contract; the sum of consecutive distances. Its properties are `PathLengthNonNegative`, `PathLengthZeroIff` and `RemainingPath` |
| LegacySpec.Waiting | orders.py:100-101 | no contract; the truthy leave time of the head lies beyond the advanced clock. `LegacySpec.TickHolds` and `LegacySpec.ZeroLeaveIsAbsent` state what it decides |
| LegacySpec.Tick | orders.py:95-117 | no contract; one `advance`. Its properties are `TickClockAndQueue`, `TickHolds`, `ZeroLeaveIsAbsent`, `TickMoves`, `TickEmptiesOnLastStop` and `TickDecreases` |
| LegacySpec.Run | orders.py:120-126 | no contract; the state after `n` ticks. Its properties are `RunClock`, `RunSuffix`, `RunEndsAtLastStop`, `Finishes` and `CompletedRun` |
| LegacySpec.Trajectory | orders.py:120-126 | no contract; the locations recorded by `get_all_points` over `n` ticks. Its properties are `TrajectoryShape` and `CompletedRun` |
| LegacySpec.Busy | orders.py:122 | no contract; the loop condition held before each of `n` ticks. Its property is `BusyMeans` |
| Geometry.SquaredDistanceProperties | src/orders/point.py:13-14 | the squared distance is non-negative and symmetric, and is zero exactly between equal points |
| Geometry.DistanceNonNegative | src/orders/point.py:13-14 | a distance is never negative |
| Geometry.DistanceSymmetric | src/orders/point.py:13-14 | `a.distance(b) == b.distance(a)` |
| Geometry.DistanceZeroIff | src/orders/point.py:13-14 | a distance is zero exactly when the points are equal, so `a.distance(a) == 0` |
| Geometry.DistanceOrder | src/orders/point.py:26 | comparing two distances from one point is the same as comparing their squares |
| Geometry.XyDistance | src/orders/point.py:16-19 | adding the delta to `a` gives `b` on each axis |
| Geometry.XyDistanceAntisymmetric | src/orders/point.py:16-19 | swapping the arguments negates both components |
| Geometry.OvershotByNMeaning | src/orders/point.py:21-29 | `None` exactly when the destination is strictly farther than the proposed point; otherwise the value is `dest.distance(next)`, which is non-negative and zero exactly when `next == dest` |
| Geometry.OvershotByNAtDestination | src/orders/point.py:26-29 | standing on the destination never yields `None` |
| Geometry.Eq | src/orders/point.py:34-35 | `__eq__` holds exactly when the two points are the same value |
| Geometry.EqIsEquivalence | src/orders/point.py:34-35 | `__eq__` is reflexive, symmetric and transitive |
| Stepping.HeadingIsBearing | orders.py:104-105 | `(cos, sin)` of the bearing has unit length, and going the distance from `a` along it reaches `b` |
| Stepping.ProposedStride | orders.py:106-108 | the proposed point lies exactly one stride from the current location |
| Stepping.ProposedRest | orders.py:106-108 | the proposed point lies `abs(r - step)` from the target, where r is the distance to the target |
| Stepping.StepTowardOutcome | src/orders/courier.py:77-88 | a stride snaps onto the target exactly when the target is within it; the overshoot is absent exactly when the target is beyond the stride, and otherwise is the unused rest; a shorter stride lands on the proposed point, `step` closer to the target |
| Ticks.Ceil | src/orders/courier.py:70 | `math.ceil` gives the least integer not below its argument |
| CourierSpec.TickClockAndQueue | src/orders/courier.py:91-126 | every tick adds exactly `step_size` to the clock, and the queue after it is either unchanged or the old queue without its head |
| CourierSpec.TickWhenDone | src/orders/courier.py:92-97 | on an empty queue, location and queue stay unchanged |
| CourierSpec.TickDwells | src/orders/courier.py:100-115 | standing on a timed head whose time is beyond the advanced clock, location and queue stay unchanged |
| CourierSpec.TickDwellsState | src/orders/courier.py:113-115 | the same dwell, as a whole state in which only the clock moves |
| CourierSpec.TickDeparts | src/orders/courier.py:103-126 | standing on an untimed or due head, the tick drops exactly the head; it then stays put if the queue is empty, and otherwise strides towards the new head |
| CourierSpec.TickTravels | src/orders/courier.py:117-126 | away from the head, the queue is unchanged; the courier lands on the head exactly when it is within a stride, and otherwise lands on the proposed point, one stride closer |
| CourierSpec.TickEmptiesOnLastWaypoint | src/orders/courier.py:103-119 | a tick that empties the queue had one waypoint left and leaves the courier on it |
| CourierSpec.DwellDecreases | src/orders/courier.py:113-115 | a dwelling tick brings the head's time one whole tick nearer |
| CourierSpec.TravelDecreases | src/orders/courier.py:117-126 | a travelling tick gets one whole stride closer to the head, or onto it |
| CourierSpec.TickDecreases | src/orders/courier.py:129-135 | with a positive step size and speed, each tick on a non-empty queue drops a waypoint, gets a stride closer, or shortens the dwell |
| CourierSpec.Finishes | src/orders/courier.py:129-135 | with a positive step size and speed, every run empties its queue |
| CourierSpec.RunClock | src/orders/courier.py:92 | after `n` ticks the clock has gained exactly `n` step sizes |
| CourierSpec.TrajectoryShape | src/orders/courier.py:129-135 | `n` ticks give `n + 1` points: the start, then the location after each tick in order |
| CourierSpec.RunSuffix | src/orders/courier.py:105-110 | ticks only drop waypoints from the front, so the queue is always a suffix of the initial queue |
| CourierSpec.BusyMeans | src/orders/courier.py:131 | the loop's condition held before each of the first `n` ticks exactly when no earlier queue was empty |
| CourierSpec.RunEndsAtLastWaypoint | src/orders/courier.py:100-119 | a run that empties a non-empty queue ends on the last waypoint queued |
| CourierSpec.CompletedRun | src/orders/courier.py:129-135 | a run that stops at the first empty queue has `n + 1` points from the start to the final location; its clock is `n` step sizes later; it ends on the last waypoint; and no other tick count stops it |
| CourierSpec.DwellHolds | src/orders/courier.py:100-115 | standing on a head whose time lies beyond `k` more ticks, the courier holds its state for all of them, and only the clock moves |
| CourierSpec.DepartsWhenDue | src/orders/courier.py:103-105 | the head is dropped in the first tick whose advanced clock reaches its time |
| CourierSpec.PathLengthNonNegative | src/orders/courier.py:61-67 | the summed distance along a path is never negative |
| CourierSpec.PathLengthZeroIff | src/orders/courier.py:61-67 | the summed distance is zero exactly when all points of the path coincide |
| CourierSpec.RemainingPath | src/orders/courier.py:61-67 | the distance to complete is non-negative, and zero exactly when every queued waypoint stands on the location, in particular on an empty queue |
| Couriers.Courier.constructor | src/orders/courier.py:32-45 | clock 0, location the first waypoint, and queue exactly that waypoint |
| Couriers.Courier.Waypoints | src/orders/courier.py:51-53 | the `waypoints` property is the queue itself, as a value |
| Couriers.Courier.AddWaypoint | src/orders/courier.py:55-56 | appends one waypoint at the tail and changes nothing else |
| Couriers.Courier.AddManyWaypoints | src/orders/courier.py:58-59 | appends the list at the tail in order and changes nothing else |
| Couriers.Courier.DistanceToComplete | src/orders/courier.py:61-67 | the accumulator loop returns the sum of consecutive distances over `[loc, *waypoints]` |
| Couriers.Courier.StepsToComplete | src/orders/courier.py:69-70 | fails exactly on a zero step size; otherwise returns the ceiling of distance over step size, which for a positive step size is non-negative and zero exactly when nothing is left to walk |
| Couriers.Courier.NextPoint | src/orders/courier.py:72-75 | the head of the queue, and `None` exactly when the queue is empty |
| Couriers.Courier.StepTo | src/orders/courier.py:77-88 | moves only the location: onto the target when the overshoot is truthy, otherwise to the proposed point; returns the overshoot; for a non-negative stride, lands on the target exactly when it is within reach |
| Couriers.Courier.Advance | src/orders/courier.py:91-126 | the new state is `CourierSpec.Tick` of the old state |
| Couriers.Courier.GetAllPoints | src/orders/courier.py:129-135 | empties the queue; the final state is the run of `len(points) - 1` ticks, each of which found the queue non-empty; the points are that run's trajectory |
| LegacySpec.TickClockAndQueue | orders.py:95-117 | every tick adds exactly `_step_size` to the clock and drops at most the head |
| LegacySpec.TickHolds | orders.py:96-103 | while waiting for a truthy leave time, and on an empty queue, location and queue stay unchanged |
| LegacySpec.ZeroLeaveIsAbsent | orders.py:100-101 | a leave time of 0.0 behaves exactly like no leave time |
| LegacySpec.TickMoves | orders.py:104-117 | when not waiting, the head is dropped exactly when it lies strictly within a stride, and the courier then stands on it; otherwise the queue is unchanged and the courier lands on the proposed point, one stride closer |
| LegacySpec.TickEmptiesOnLastStop | orders.py:109-113 | a tick that empties the queue had one stop left and leaves the courier on it |
| LegacySpec.DwellDecreases | orders.py:100-101 | a waiting tick brings the leave time one whole tick nearer |
| LegacySpec.TravelDecreases | orders.py:104-117 | a moving tick that keeps the head gets one whole stride closer to it |
| LegacySpec.TickDecreases | orders.py:120-126 | with a positive step size and speed, each tick on a non-empty queue drops a stop, gets a stride closer, or shortens the wait |
| LegacySpec.Finishes | orders.py:120-126 | with a positive step size and speed, every run empties its queue |
| LegacySpec.RunClock | orders.py:96 | after `n` ticks the clock has gained exactly `n` step sizes |
| LegacySpec.TrajectoryShape | orders.py:120-126 | `n` ticks give `n + 1` points: the start, then the location after each tick in order |
| LegacySpec.RunSuffix | orders.py:113 | the queue is always a suffix of the initial queue |
| LegacySpec.BusyMeans | orders.py:122 | the loop's condition held before each of the first `n` ticks exactly when no earlier queue was empty |
| LegacySpec.RunEndsAtLastStop | orders.py:109-113 | a run that empties a non-empty queue ends on the last stop queued |
| LegacySpec.CompletedRun | orders.py:120-126 | a run that stops at the first empty queue has `n + 1` points from the start to the final location; its clock is `n` step sizes later; it ends on the last stop; and no other tick count stops it |
| LegacyCouriers.Courier.constructor | orders.py:53-59 | clock 0, location `p`, and queue exactly `[(p, leave_at_t)]` |
| LegacyCouriers.Courier.AddWaypoint | orders.py:65-66 | appends one stop at the tail |
| LegacyCouriers.Courier.AddManyWaypoints | orders.py:68-69 | appends the list at the tail in order |
| LegacyCouriers.Courier.NextPoint | orders.py:82-86 | the head's point, and `None` exactly when the queue is empty |
| LegacyCouriers.Courier.NextLeaveT | orders.py:88-92 | the head's leave time, and `None` on an empty queue |
| LegacyCouriers.Courier.Advance | orders.py:95-117 | the new state is `LegacySpec.Tick` of the old state |
| LegacyCouriers.Courier.GetAllPoints | orders.py:120-126 | empties the queue; the final state is the run of `len(points) - 1` ticks, each of which found the queue non-empty; the points are that run's trajectory |
| Engines.ArrivalPopsAtDifferentTicks | orders.py:109-113 | reaching an untimed head within one stride: the earlier engine stands on it and has dropped exactly the head; the current engine stands on it, still holds it, and drops it one tick later |
| Engines.TimeAheadAwayFromHead | orders.py:97-101 | a head time that is still ahead, with the courier away from the head: the earlier engine stays put, while the current engine strides towards the head |

## Left out

- File loading (`load_csv`, `float_or_none`, grouping of CSV rows), the matplotlib plotting and
  animation, and `src/orders/__main__.py`: these are I/O and UI around the engine.
- The messages "Running late" (`src/orders/courier.py:122-124`), "overshot by"
  (`orders.py:111`) and "No more points!" (`orders.py:85,91`) are printed output only. The model
  leaves them out.
- `__str__` of `Point` and `Courier` is formatting only.
- The `deepcopy` in the `waypoints` property: waypoints are values here, so the copy cannot be
  told apart from the original.
- Floating point: coordinates are exact reals. `sqrt` is a parameter, and `atan2`, `cos` and
  `sin` are replaced by their exact combined value. IEEE rounding is not modelled. For example,
  a float stride can land a hair off the target, where the exact stride lands on it.
- `src/orders/courier.py:79` calls `angle_to`, which `Point` does not define. The model uses
  `atan2` of `xy_distance`, as `orders.py:104-105` does.
- `src/orders/courier.py:40` stores the first waypoint object itself as the location. The model
  stores its position. Only its coordinates are read later.
- The `name` that the current courier stores (`src/orders/courier.py:44`) is kept as a constant,
  but nothing reads it.
- `orders.py:71-77` `distance_to_complete` and `orders.py:79-80` `steps_to_complete` put the
  `(point, leave_at_t)` tuples of the queue into the path and call `distance` on them. They fail
  on any non-empty queue, so they are not modelled.
- Couriers.Courier.GetAllPoints: requires a positive step size and speed. The source loop can run
  forever otherwise, and a verified method must terminate.
- LegacyCouriers.Courier.GetAllPoints: requires a positive step size and speed, for the same reason.
- Couriers.Courier.StepsToComplete: the `ZeroDivisionError` on a zero step size is returned as
  `None`.
- Aliasing is not modelled: trajectory points are values, while the source appends the live
  `Point` objects.
