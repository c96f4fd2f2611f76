/**
 The voxel raycast: a walk over the unit grid that steps, each time, across the nearest
 grid plane ahead of the ray.

 The predicate of the original may carry state from call to call; it is modelled as a
 function of every state it has been offered so far, the current one last.
 */
module Raycast {
  import opened Geometry

  datatype State = State(prevPosition: Vec3i, prevDistance: real, position: Vec3i, distance: real)

  datatype Hit = Hit(position: Vec3i, previousPosition: Vec3i, distance: real, normal: Vec3i)

  /** The crossing distance given to an axis along which the ray does not move. */
  const LARGE: real := 1_000_000_000_000_000_000_000_000_000_000.0

  // ----- The geometry the walk is measured against -----

  function RayAt(o: Vec3, d: Vec3, s: real): Vec3 {
    Vec3(o.x + s * d.x, o.y + s * d.y, o.z + s * d.z)
  }

  predicate Within(c: int, p: real) {
    c as real <= p <= c as real + 1.0
  }

  predicate StrictlyWithin(c: int, p: real) {
    (c as real) < p < c as real + 1.0
  }

  /** The ray at parameter `s` lies in the closed cube of voxel `v`. */
  predicate RayInCube(o: Vec3, d: Vec3, s: real, v: Vec3i) {
    forall i: nat :: i < 3 ==> Within(v.At(i), RayAt(o, d, s).At(i))
  }

  /** The ray at parameter `s` lies in the open interior of voxel `v`. */
  predicate RayInside(o: Vec3, d: Vec3, s: real, v: Vec3i) {
    forall i: nat :: i < 3 ==> StrictlyWithin(v.At(i), RayAt(o, d, s).At(i))
  }

  /** The voxel the walk starts from: a ray that leaves a grid plane backwards starts behind it. */
  function StartCoordinate(o: real, d: real): int {
    if d < 0.0 && o == o.Floor as real then o.Floor - 1 else o.Floor
  }

  function StartVoxel(o: Vec3, d: Vec3): Vec3i {
    Vec3i(StartCoordinate(o.x, d.x), StartCoordinate(o.y, d.y), StartCoordinate(o.z, d.z))
  }

  function Manhattan(a: Vec3i, b: Vec3i): nat {
    Abs(a.x - b.x) + Abs(a.y - b.y) + Abs(a.z - b.z)
  }

  function LastPosition(start: Vec3i, trace: seq<State>): Vec3i {
    if trace == [] then start else trace[|trace| - 1].position
  }

  function LastDistance(trace: seq<State>): real {
    if trace == [] then 0.0 else trace[|trace| - 1].distance
  }

  /** One offered state continues the walk that led to it and follows the ray. */
  ghost predicate Follows(o: Vec3, d: Vec3, start: Vec3i, before: seq<State>, st: State) {
    && st.prevPosition == LastPosition(start, before)
    && st.prevDistance == LastDistance(before) <= st.distance
    && (forall s: real :: st.prevDistance <= s <= st.distance ==> RayInCube(o, d, s, st.prevPosition))
    && RayInCube(o, d, st.distance, st.position)
  }

  /** Consecutive states are linked, and between two crossings the ray is in the cube being left. */
  ghost predicate FollowsRay(o: Vec3, d: Vec3, start: Vec3i, trace: seq<State>) {
    forall k: nat :: k < |trace| ==> Follows(o, d, start, trace[..k], trace[k])
  }

  predicate Visited(start: Vec3i, trace: seq<State>, v: Vec3i) {
    v == start || exists k: nat :: k < |trace| && trace[k].position == v
  }

  /** Every voxel whose interior the ray meets at a parameter up to `limit` was visited. */
  ghost predicate Complete(o: Vec3, d: Vec3, start: Vec3i, trace: seq<State>, limit: real) {
    forall v: Vec3i, s: real :: 0.0 <= s <= limit && RayInside(o, d, s, v) ==> Visited(start, trace, v)
  }

  /** A walk that can never step along an axis with no motion. */
  predicate NoIdleAxis(d: Vec3, maxDistance: real) {
    maxDistance < LARGE || (d.x != 0.0 && d.y != 0.0 && d.z != 0.0)
  }

  /** Each step moves one voxel along one axis and leads further from the start. */
  predicate StepsOutward(start: Vec3i, trace: seq<State>) {
    forall k: nat :: k < |trace| ==>
      && Manhattan(trace[k].prevPosition, trace[k].position) == 1
      && Manhattan(start, trace[k].position) == k + 1
  }

  /** No step stays where it was. */
  predicate NeverIdle(trace: seq<State>) {
    forall k: nat :: k < |trace| ==> trace[k].prevPosition != trace[k].position
  }

  /** No voxel is offered twice, and the start never. */
  predicate Fresh(start: Vec3i, trace: seq<State>) {
    && (forall j: nat, k: nat :: j < k < |trace| ==> trace[j].position != trace[k].position)
    && (forall k: nat :: k < |trace| ==> trace[k].position != start)
  }

  lemma {:induction false} InteriorMeetsOneCube(o: Vec3, d: Vec3, s: real, v: Vec3i, w: Vec3i)
    requires RayInside(o, d, s, v) && RayInCube(o, d, s, w)
    ensures v == w
  {
    forall i: nat | i < 3
      ensures v.At(i) == w.At(i)
    {
      assert StrictlyWithin(v.At(i), RayAt(o, d, s).At(i)) && Within(w.At(i), RayAt(o, d, s).At(i));
    }
    assert v.At(0) == w.At(0) && v.At(1) == w.At(1) && v.At(2) == w.At(2);
  }

  /** A walk that follows the ray, and stays in its last cube up to `limit`, misses no interior. */
  lemma {:induction false} FollowingIsComplete(o: Vec3, d: Vec3, start: Vec3i, trace: seq<State>, limit: real)
    requires RayInCube(o, d, 0.0, start) && FollowsRay(o, d, start, trace)
    requires forall s: real :: LastDistance(trace) <= s <= limit ==> RayInCube(o, d, s, LastPosition(start, trace))
    ensures Complete(o, d, start, trace, limit)
    decreases |trace|
  {
    if trace != [] {
      var n := |trace| - 1;
      var before, last := trace[..n], trace[n];
      assert Follows(o, d, start, trace[..n], trace[n]);
      assert FollowsRay(o, d, start, before) by {
        forall k: nat | k < n
          ensures Follows(o, d, start, before[..k], before[k])
        {
          assert before[..k] == trace[..k] && before[k] == trace[k];
          assert Follows(o, d, start, trace[..k], trace[k]);
        }
      }
      FollowingIsComplete(o, d, start, before, last.distance);
    }
    forall v: Vec3i, s: real | 0.0 <= s <= limit && RayInside(o, d, s, v)
      ensures Visited(start, trace, v)
    {
      if s >= LastDistance(trace) {
        InteriorMeetsOneCube(o, d, s, v, LastPosition(start, trace));
      } else {
        var n := |trace| - 1;
        assert trace != [] ==> Visited(start, trace[..n], v);
      }
    }
  }

  // ----- One axis of the walk -----

  function Sign(d: real): int {
    if d > 0.0 then 1 else if d < 0.0 then -1 else 0
  }

  /** The parameter distance between two grid planes of the axis. */
  function Delta(d: real): (delta: real)
    ensures delta > 0.0
    ensures d != 0.0 ==> delta * AbsReal(d) == 1.0
  {
    if d != 0.0 then 1.0 / AbsReal(d) else LARGE
  }

  function InitialCross(o: real, d: real): real {
    if d > 0.0 then (o.Floor as real + 1.0 - o) * Delta(d)
    else if d < 0.0 then (o - o.Floor as real) * Delta(d)
    else LARGE
  }

  /**
   `cross` is the parameter of the next grid plane ahead of `c`, the axis coordinate of the
   current voxel, and `c` was entered no later than `t`.
   */
  predicate AxisAt(o: real, d: real, c: int, cross: real, t: real) {
    && t <= cross
    && if d == 0.0 then Within(c, o) && cross >= LARGE
       else cross - Delta(d) <= t && o + cross * d == (if d > 0.0 then c + 1 else c) as real
  }

  lemma {:induction false} AxisStarts(o: real, d: real)
    ensures var first := InitialCross(o, d);
            var cross := if first == 0.0 then first + Delta(d) else first;
            && AxisAt(o, d, StartCoordinate(o, d), cross, 0.0)
            && 0.0 < cross
            && (d == 0.0 ==> cross == LARGE)
            && (first == 0.0 <==> d < 0.0 && o == o.Floor as real)
  {
    var f := o.Floor as real;
    var delta := Delta(d);
    if d > 0.0 {
      ScaleBounds(f + 1.0 - o, 0.0, 1.0, delta);
      Cancel(f + 1.0 - o, delta, d);
    } else if d < 0.0 {
      var first := (o - f) * delta;
      ScaleBounds(o - f, 0.0, 1.0, delta);
      Cancel(o - f, delta, -d);
      assert first * d == -(o - f) && delta * d == -1.0;
      if o == f {
        assert first == 0.0;
      }
    }
  }

  lemma ScaleBounds(a: real, lo: real, hi: real, k: real)
    requires k > 0.0 && lo <= a <= hi
    ensures lo * k <= a * k <= hi * k
    ensures a > lo ==> a * k > lo * k
  {
    Scale(lo, a, k);
    Scale(a, hi, k);
  }

  lemma Cancel(a: real, delta: real, d: real)
    requires delta * d == 1.0
    ensures (a * delta) * d == a
  {
    assert (a * delta) * d == a * (delta * d);
  }

  /** Between entering the voxel and its next grid plane, the ray coordinate is within the voxel. */
  lemma {:induction false} AxisStays(o: real, d: real, c: int, cross: real, t: real, s: real)
    requires AxisAt(o, d, c, cross, t) && t <= s <= cross
    ensures Within(c, o + s * d)
  {
    if d != 0.0 {
      var left := cross - s;
      ScaleBounds(left, 0.0, Delta(d), AbsReal(d));
      assert cross * d == s * d + left * d;
    } else {
      assert s * d == 0.0;
    }
  }

  /** Crossing the next grid plane of an axis. */
  lemma {:induction false} AxisAdvances(o: real, d: real, c: int, cross: real, t: real)
    requires AxisAt(o, d, c, cross, t)
    ensures AxisAt(o, d, c + Sign(d), cross + Delta(d), cross)
  {
    if d != 0.0 {
      assert (cross + Delta(d)) * d == cross * d + Delta(d) * d;
    }
  }

  /** How many more grid planes of the axis lie at parameters up to `maxDistance`. */
  ghost function PlanesLeft(maxDistance: real, cross: real, delta: real): nat
    requires delta > 0.0
    decreases PlanesRoom(maxDistance, cross, delta)
  {
    if cross > maxDistance then 0
    else
      RoomShrinks(maxDistance, cross, delta);
      1 + PlanesLeft(maxDistance, cross + delta, delta)
  }

  ghost function PlanesRoom(maxDistance: real, cross: real, delta: real): nat
    requires delta > 0.0
  {
    if cross > maxDistance then 0
    else
      assert (maxDistance - cross) / delta >= 0.0;
      ((maxDistance - cross) / delta).Floor + 1
  }

  lemma {:induction false} RoomShrinks(maxDistance: real, cross: real, delta: real)
    requires delta > 0.0 && cross <= maxDistance
    ensures PlanesRoom(maxDistance, cross + delta, delta) < PlanesRoom(maxDistance, cross, delta)
  {
    var q := (maxDistance - cross) / delta;
    assert q * delta == maxDistance - cross;
    assert (q - 1.0) * delta == q * delta - delta;
    QuotientIs(maxDistance - (cross + delta), delta, q - 1.0);
  }

  lemma {:induction false} PlanesSpan(maxDistance: real, cross: real, delta: real)
    requires delta > 0.0
    ensures cross <= maxDistance ==>
            PlanesLeft(maxDistance, cross, delta) as real * delta <= maxDistance - cross + delta
    decreases PlanesRoom(maxDistance, cross, delta)
  {
    if cross <= maxDistance {
      RoomShrinks(maxDistance, cross, delta);
      PlanesSpan(maxDistance, cross + delta, delta);
      var n := PlanesLeft(maxDistance, cross + delta, delta) as real;
      assert (n + 1.0) * delta == n * delta + delta;
    }
  }

  // ----- The three axes together -----

  ghost predicate AxesAt(o: Vec3, d: Vec3, v: Vec3i, cross: seq<real>, t: real) {
    |cross| == 3 && forall i: nat :: i < 3 ==> AxisAt(o.At(i), d.At(i), v.At(i), cross[i], t)
  }

  predicate IsNearest(cross: seq<real>, axis: nat)
    requires |cross| == 3
  {
    axis < 3 && forall i: nat :: i < 3 ==> cross[axis] <= cross[i]
  }

  lemma {:induction false} AxisInCube(o: Vec3, d: Vec3, v: Vec3i, i: nat, cross: real, t: real, s: real)
    requires i < 3 && AxisAt(o.At(i), d.At(i), v.At(i), cross, t) && t <= s <= cross
    ensures Within(v.At(i), RayAt(o, d, s).At(i))
  {
    hide AxisAt;
    AxisStays(o.At(i), d.At(i), v.At(i), cross, t, s);
  }

  lemma {:induction false} CubeUntilNextPlane(o: Vec3, d: Vec3, v: Vec3i, cross: seq<real>, t: real, s: real)
    requires AxesAt(o, d, v, cross, t) && t <= s
    requires forall i: nat :: i < 3 ==> s <= cross[i]
    ensures RayInCube(o, d, s, v)
  {
    hide AxisAt, Within;
    forall i: nat | i < 3
      ensures Within(v.At(i), RayAt(o, d, s).At(i))
    {
      AxisInCube(o, d, v, i, cross[i], t, s);
    }
  }

  /** Crossing the nearest plane keeps every axis in step with the ray. */
  lemma {:induction false} AxesAdvance(o: Vec3, d: Vec3, v: Vec3i, cross: seq<real>, t: real, axis: nat)
    requires AxesAt(o, d, v, cross, t) && IsNearest(cross, axis)
    ensures forall s: real :: t <= s <= cross[axis] ==> RayInCube(o, d, s, v)
    ensures var w := v.With(axis, v.At(axis) + Sign(d.At(axis)));
            && AxesAt(o, d, w, cross[axis := cross[axis] + Delta(d.At(axis))], cross[axis])
            && RayInCube(o, d, cross[axis], w)
  {
    var w := v.With(axis, v.At(axis) + Sign(d.At(axis)));
    var next := cross[axis := cross[axis] + Delta(d.At(axis))];
    forall s: real | t <= s <= cross[axis]
      ensures RayInCube(o, d, s, v)
    {
      CubeUntilNextPlane(o, d, v, cross, t, s);
    }
    forall i: nat | i < 3
      ensures AxisAt(o.At(i), d.At(i), w.At(i), next[i], cross[axis])
    {
      AxisAdvances(o.At(axis), d.At(axis), v.At(axis), cross[axis], t);
      assert AxisAt(o.At(i), d.At(i), v.At(i), cross[i], t);
    }
    CubeUntilNextPlane(o, d, w, next, cross[axis], cross[axis]);
  }

  /** The grid planes still to be crossed on the three axes. */
  ghost function Planes(d: Vec3, maxDistance: real, cross: seq<real>): nat
    requires |cross| == 3
  {
    PlanesLeft(maxDistance, cross[0], Delta(d.x))
    + PlanesLeft(maxDistance, cross[1], Delta(d.y))
    + PlanesLeft(maxDistance, cross[2], Delta(d.z))
  }

  /** On each axis, the walk has only moved the way the ray points. */
  predicate Outward(d: Vec3, start: Vec3i, v: Vec3i) {
    forall i: nat :: i < 3 ==>
      (d.At(i) >= 0.0 ==> v.At(i) >= start.At(i)) && (d.At(i) <= 0.0 ==> v.At(i) <= start.At(i))
  }

  lemma {:induction false} OneStepFurther(d: Vec3, start: Vec3i, v: Vec3i, axis: nat)
    requires axis < 3 && Outward(d, start, v)
    ensures var w := v.With(axis, v.At(axis) + Sign(d.At(axis)));
            && Outward(d, start, w)
            && (d.At(axis) == 0.0 ==> w == v)
            && (d.At(axis) != 0.0 ==> Manhattan(start, w) == Manhattan(start, v) + 1 && Manhattan(v, w) == 1)
  {
    var w := v.With(axis, v.At(axis) + Sign(d.At(axis)));
    assert v.x == v.At(0) && v.y == v.At(1) && v.z == v.At(2) && w.x == w.At(0) && w.y == w.At(1) && w.z == w.At(2);
    assert start.x == start.At(0) && start.y == start.At(1) && start.z == start.At(2);
    assert d.At(axis) >= 0.0 ==> v.At(axis) >= start.At(axis);
  }

  /** The number of planes on one axis before `maxDistance` is at most the distance travelled along it, plus one. */
  lemma {:induction false} PlanesBound(maxDistance: real, cross: real, d: real)
    requires 0.0 <= maxDistance && 0.0 < cross
    requires d == 0.0 ==> cross > maxDistance
    ensures PlanesLeft(maxDistance, cross, Delta(d)) as real <= maxDistance * AbsReal(d) + 1.0
  {
    if cross <= maxDistance {
      PlanesSpan(maxDistance, cross, Delta(d));
      ScaleDown(PlanesLeft(maxDistance, cross, Delta(d)) as real, Delta(d), AbsReal(d), maxDistance);
    }
  }

  lemma {:induction false} ScaleDown(n: real, delta: real, speed: real, m: real)
    requires delta * speed == 1.0 && speed > 0.0 && n * delta <= m + delta
    ensures n <= m * speed + 1.0
  {
    Cancel(n, delta, speed);
    assert (m + delta - n * delta) * speed >= 0.0;
    assert (m + delta) * speed == m * speed + 1.0;
  }

  lemma {:induction false} WalkBound(d: Vec3, maxDistance: real, cross: seq<real>)
    requires NoIdleAxis(d, maxDistance) && 0.0 <= maxDistance && |cross| == 3
    requires forall i: nat :: i < 3 ==> cross[i] > 0.0 && (d.At(i) == 0.0 ==> cross[i] >= LARGE)
    ensures Planes(d, maxDistance, cross) as real
            <= maxDistance * (AbsReal(d.x) + AbsReal(d.y) + AbsReal(d.z)) + 3.0
  {
    hide Delta, PlanesLeft, AbsReal;
    var i, j, k := PlanesLeft(maxDistance, cross[0], Delta(d.x)), PlanesLeft(maxDistance, cross[1], Delta(d.y)),
                   PlanesLeft(maxDistance, cross[2], Delta(d.z));
    assert i as real <= maxDistance * AbsReal(d.x) + 1.0 by {
      assert d.x == d.At(0);
      PlanesBound(maxDistance, cross[0], d.x);
    }
    assert j as real <= maxDistance * AbsReal(d.y) + 1.0 by {
      assert d.y == d.At(1);
      PlanesBound(maxDistance, cross[1], d.y);
    }
    assert k as real <= maxDistance * AbsReal(d.z) + 1.0 by {
      assert d.z == d.At(2);
      PlanesBound(maxDistance, cross[2], d.z);
    }
    SumOfBounds(i, j, k, maxDistance, AbsReal(d.x), AbsReal(d.y), AbsReal(d.z));
  }

  lemma SumOfBounds(i: nat, j: nat, k: nat, m: real, x: real, y: real, z: real)
    requires i as real <= m * x + 1.0 && j as real <= m * y + 1.0 && k as real <= m * z + 1.0
    ensures (i + j + k) as real <= m * (x + y + z) + 3.0
  {
  }

  lemma {:induction false} FollowsOn(o: Vec3, d: Vec3, start: Vec3i, trace: seq<State>, st: State)
    requires FollowsRay(o, d, start, trace) && Follows(o, d, start, trace, st)
    ensures FollowsRay(o, d, start, trace + [st])
  {
    var longer := trace + [st];
    forall k: nat | k < |longer|
      ensures Follows(o, d, start, longer[..k], longer[k])
    {
      if k < |trace| {
        assert longer[..k] == trace[..k];
        assert Follows(o, d, start, trace[..k], trace[k]);
      } else {
        assert longer[..k] == trace;
      }
    }
  }

  /** The first `n` states offered were all refused. */
  predicate AllRefused(accepts: seq<State> -> bool, offered: seq<State>, n: nat)
    requires n <= |offered|
  {
    forall k: nat :: 1 <= k <= n ==> !accepts(offered[..k])
  }

  lemma {:induction false} RefusedSoFar(accepts: seq<State> -> bool, offered: seq<State>, st: State)
    requires AllRefused(accepts, offered, |offered|)
    ensures AllRefused(accepts, offered + [st], |offered|)
    ensures !accepts(offered + [st]) ==> AllRefused(accepts, offered + [st], |offered| + 1)
  {
    var longer := offered + [st];
    assert longer[..|longer|] == longer;
    assert forall k: nat :: k <= |offered| ==> longer[..k] == offered[..k];
  }

  /** What every iteration of the walk keeps. */
  ghost predicate Walking(o: Vec3, d: Vec3, maxDistance: real, v: Vec3i, cross: seq<real>, t: real,
                          offered: seq<State>) {
    var start := StartVoxel(o, d);
    && v == LastPosition(start, offered) && t == LastDistance(offered)
    && AxesAt(o, d, v, cross, t)
    && RayInCube(o, d, 0.0, start) && FollowsRay(o, d, start, offered)
    && (offered != [] ==> t <= maxDistance)
    && Outward(d, start, v)
    && (NoIdleAxis(d, maxDistance) ==> NeverIdle(offered))
    && (NeverIdle(offered) ==> StepsOutward(start, offered) && Manhattan(start, v) == |offered|)
    && (StepsOutward(start, offered) ==> IdleUntouched(d, cross))
  }

  /** No idle axis has been stepped along yet. */
  predicate IdleUntouched(d: Vec3, cross: seq<real>)
    requires |cross| == 3
  {
    forall i: nat :: i < 3 && d.At(i) == 0.0 ==> cross[i] == LARGE
  }

  lemma {:induction false} WalkingOn(o: Vec3, d: Vec3, maxDistance: real, v: Vec3i, cross: seq<real>, t: real,
                                     offered: seq<State>, axis: nat)
    requires |cross| == 3 && Walking(o, d, maxDistance, v, cross, t, offered)
    requires IsNearest(cross, axis) && cross[axis] <= maxDistance
    ensures var w := v.With(axis, v.At(axis) + Sign(d.At(axis)));
            var next := cross[axis := cross[axis] + Delta(d.At(axis))];
            && Walking(o, d, maxDistance, w, next, cross[axis], offered + [State(v, t, w, cross[axis])])
            && Planes(d, maxDistance, next) == Planes(d, maxDistance, cross) - 1
  {
    hide FollowsRay, Delta, RayInCube, StartVoxel, Follows, Outward, Complete, AxesAt, Sign, Planes, IdleUntouched;
    hide NeverIdle, StepsOutward, Manhattan, NoIdleAxis;
    var start := StartVoxel(o, d);
    var w := v.With(axis, v.At(axis) + Sign(d.At(axis)));
    var st := State(v, t, w, cross[axis]);
    StateFollows(o, d, v, cross, t, offered, axis);
    PlaneCrossed(d, maxDistance, cross, axis);
    AxesAdvance(o, d, v, cross, t, axis);
    FollowsOn(o, d, start, offered, st);
    OneStepFurther(d, start, v, axis);
    if NoIdleAxis(d, maxDistance) {
      CrossedAxisMoves(o, d, maxDistance, v, cross, t, axis);
    }
    OneMoreStep(start, offered, st);
    IdleStaysUntouched(d, cross, axis, start, offered, st);
  }

  lemma {:induction false} OneMoreStep(start: Vec3i, offered: seq<State>, st: State)
    ensures NeverIdle(offered + [st]) <==> NeverIdle(offered) && st.prevPosition != st.position
    ensures Manhattan(st.prevPosition, st.position) == 1 ==> st.prevPosition != st.position
    ensures StepsOutward(start, offered) && Manhattan(st.prevPosition, st.position) == 1
            && Manhattan(start, st.position) == |offered| + 1
            ==> StepsOutward(start, offered + [st])
  {
    var longer := offered + [st];
    assert longer[|offered|] == st && forall k: nat :: k < |offered| ==> longer[k] == offered[k];
  }

  lemma {:induction false} IdleStaysUntouched(d: Vec3, cross: seq<real>, axis: nat, start: Vec3i,
                                              offered: seq<State>, st: State)
    requires |cross| == 3 && axis < 3
    requires st.position == st.prevPosition.With(axis, st.prevPosition.At(axis) + Sign(d.At(axis)))
    requires StepsOutward(start, offered) ==> IdleUntouched(d, cross)
    ensures StepsOutward(start, offered + [st]) ==>
              IdleUntouched(d, cross[axis := cross[axis] + Delta(d.At(axis))])
  {
    hide Delta;
    IdleStepIsNotOutward(start, offered, st);
  }

  lemma {:induction false} StateFollows(o: Vec3, d: Vec3, v: Vec3i, cross: seq<real>, t: real, offered: seq<State>,
                                        axis: nat)
    requires AxesAt(o, d, v, cross, t) && IsNearest(cross, axis)
    requires v == LastPosition(StartVoxel(o, d), offered) && t == LastDistance(offered)
    ensures var w := v.With(axis, v.At(axis) + Sign(d.At(axis)));
            Follows(o, d, StartVoxel(o, d), offered, State(v, t, w, cross[axis]))
  {
    hide RayInCube, StartVoxel, Sign;
    AxesAdvance(o, d, v, cross, t, axis);
    assert AxisAt(o.At(axis), d.At(axis), v.At(axis), cross[axis], t);
  }

  lemma {:induction false} PlaneCrossed(d: Vec3, maxDistance: real, cross: seq<real>, axis: nat)
    requires |cross| == 3 && axis < 3 && cross[axis] <= maxDistance
    ensures Planes(d, maxDistance, cross[axis := cross[axis] + Delta(d.At(axis))]) == Planes(d, maxDistance, cross) - 1
  {
    hide Delta;
  }

  lemma {:induction false} CrossedAxisMoves(o: Vec3, d: Vec3, maxDistance: real, v: Vec3i, cross: seq<real>, t: real,
                                            axis: nat)
    requires AxesAt(o, d, v, cross, t) && axis < 3 && cross[axis] <= maxDistance && NoIdleAxis(d, maxDistance)
    ensures d.At(axis) != 0.0
  {
    assert AxisAt(o.At(axis), d.At(axis), v.At(axis), cross[axis], t);
  }

  lemma {:induction false} IdleStepIsNotOutward(start: Vec3i, offered: seq<State>, st: State)
    ensures StepsOutward(start, offered + [st]) ==> StepsOutward(start, offered) && st.prevPosition != st.position
  {
    var longer := offered + [st];
    if StepsOutward(start, longer) {
      assert longer[|offered|] == st;
      assert forall k: nat :: k < |offered| ==> offered[k] == longer[k];
    }
  }

  lemma {:induction false} WalkingToTheEnd(o: Vec3, d: Vec3, maxDistance: real, v: Vec3i, cross: seq<real>, t: real,
                                           offered: seq<State>, axis: nat)
    requires Walking(o, d, maxDistance, v, cross, t, offered)
    requires IsNearest(cross, axis) && cross[axis] > maxDistance
    ensures Complete(o, d, StartVoxel(o, d), offered, maxDistance)
    ensures StepsOutward(StartVoxel(o, d), offered) ==> NoIdleAxis(d, maxDistance)
  {
    assert d.x == d.At(0) && d.y == d.At(1) && d.z == d.At(2);
    forall s: real | t <= s <= maxDistance
      ensures RayInCube(o, d, s, v)
    {
      CubeUntilNextPlane(o, d, v, cross, t, s);
    }
    FollowingIsComplete(o, d, StartVoxel(o, d), offered, maxDistance);
  }

  lemma {:induction false} WalkingIsComplete(o: Vec3, d: Vec3, maxDistance: real, v: Vec3i, cross: seq<real>, t: real,
                                             offered: seq<State>)
    requires Walking(o, d, maxDistance, v, cross, t, offered)
    ensures Complete(o, d, StartVoxel(o, d), offered, t)
  {
    if offered != [] {
      var n := |offered| - 1;
      assert Follows(o, d, StartVoxel(o, d), offered[..n], offered[n]);
    }
    FollowingIsComplete(o, d, StartVoxel(o, d), offered, t);
  }

  lemma {:induction false} WalkingStarts(o: Vec3, d: Vec3, maxDistance: real, cross: seq<real>)
    requires AxesAt(o, d, StartVoxel(o, d), cross, 0.0) && IdleUntouched(d, cross)
    requires forall i: nat :: i < 3 ==> cross[i] > 0.0
    ensures Walking(o, d, maxDistance, StartVoxel(o, d), cross, 0.0, [])
    ensures NoIdleAxis(d, maxDistance) && 0.0 <= maxDistance ==>
              Planes(d, maxDistance, cross) as real <= maxDistance * (AbsReal(d.x) + AbsReal(d.y) + AbsReal(d.z)) + 3.0
  {
    CubeUntilNextPlane(o, d, StartVoxel(o, d), cross, 0.0, 0.0);
    if NoIdleAxis(d, maxDistance) && 0.0 <= maxDistance {
      WalkBound(d, maxDistance, cross);
    }
  }

  /** On a walk outward no voxel is offered twice, and the voxel the ray starts in is never offered at all. */
  lemma {:induction false} NoVoxelRepeats(start: Vec3i, offered: seq<State>)
    requires StepsOutward(start, offered)
    ensures Fresh(start, offered)
  {
    forall j: nat, k: nat | j < k < |offered|
      ensures offered[j].position != offered[k].position
    {
      assert Manhattan(start, offered[j].position) != Manhattan(start, offered[k].position);
    }
    forall k: nat | k < |offered|
      ensures offered[k].position != start
    {
      assert Manhattan(start, offered[k].position) == k + 1;
    }
  }

  /** An idle step offers the start or the voxel before it again. */
  lemma {:induction false} FreshIsNeverIdle(o: Vec3, d: Vec3, start: Vec3i, offered: seq<State>)
    requires FollowsRay(o, d, start, offered) && Fresh(start, offered)
    ensures NeverIdle(offered)
  {
    forall k: nat | k < |offered|
      ensures offered[k].prevPosition != offered[k].position
    {
      assert Follows(o, d, start, offered[..k], offered[k]);
      if k > 0 {
        assert offered[..k][k - 1] == offered[k - 1];
      }
    }
  }

  lemma WalkingPromises(o: Vec3, d: Vec3, maxDistance: real, v: Vec3i, cross: seq<real>, t: real, offered: seq<State>)
    requires Walking(o, d, maxDistance, v, cross, t, offered)
    ensures FollowsRay(o, d, StartVoxel(o, d), offered)
    ensures offered != [] ==> LastDistance(offered) <= maxDistance
    ensures Fresh(StartVoxel(o, d), offered) <==> StepsOutward(StartVoxel(o, d), offered)
    ensures NoIdleAxis(d, maxDistance) ==> StepsOutward(StartVoxel(o, d), offered)
    ensures v == LastPosition(StartVoxel(o, d), offered) && t == LastDistance(offered)
  {
    hide Fresh, NeverIdle, StepsOutward, FollowsRay, AxesAt, RayInCube;
    if Fresh(StartVoxel(o, d), offered) {
      FreshIsNeverIdle(o, d, StartVoxel(o, d), offered);
    }
    if StepsOutward(StartVoxel(o, d), offered) {
      NoVoxelRepeats(StartVoxel(o, d), offered);
    }
  }

  // ----- The walk itself -----

  /** The first grid plane ahead on each axis, with the fix-up for an origin exactly on a plane. */
  method FirstCrossings(origin: Vec3, direction: Vec3, step: Vec3i, tdelta: Vec3, ghost maxDistance: real)
    returns (hitPos: Vec3i, tcross: array<real>)
    requires forall i: nat :: i < 3 ==> step.At(i) == Sign(direction.At(i)) && tdelta.At(i) == Delta(direction.At(i))
    ensures fresh(tcross) && tcross.Length == 3
    ensures Walking(origin, direction, maxDistance, hitPos, tcross[..], 0.0, [])
    ensures NoIdleAxis(direction, maxDistance) && 0.0 <= maxDistance ==>
              Planes(direction, maxDistance, tcross[..]) as real
              <= maxDistance * (AbsReal(direction.x) + AbsReal(direction.y) + AbsReal(direction.z)) + 3.0
  {
    hitPos := Vec3i(origin.x.Floor, origin.y.Floor, origin.z.Floor);
    tcross := new real[3];
    tcross[0] := InitialCross(origin.x, direction.x);
    tcross[1] := InitialCross(origin.y, direction.y);
    tcross[2] := InitialCross(origin.z, direction.z);
    for i := 0 to 3
      invariant forall j: nat :: i <= j < 3 ==>
        tcross[j] == InitialCross(origin.At(j), direction.At(j)) && hitPos.At(j) == origin.At(j).Floor
      invariant forall j: nat :: j < i ==>
        && AxisAt(origin.At(j), direction.At(j), hitPos.At(j), tcross[j], 0.0)
        && tcross[j] > 0.0 && (direction.At(j) == 0.0 ==> tcross[j] == LARGE)
        && hitPos.At(j) == StartVoxel(origin, direction).At(j)
    {
      AxisStarts(origin.At(i), direction.At(i));
      if tcross[i] == 0.0 {
        tcross[i] := tcross[i] + tdelta.At(i);
        if step.At(i) < 0 {
          hitPos := hitPos.With(i, hitPos.At(i) - 1);
        }
      }
    }
    ghost var start := StartVoxel(origin, direction);
    assert hitPos.At(0) == start.At(0) && hitPos.At(1) == start.At(1) && hitPos.At(2) == start.At(2);
    WalkingStarts(origin, direction, maxDistance, tcross[..]);
  }

  /**
   Steps across the nearest plane, unless it lies beyond `maxDistance`. Ties go to the later axis.
   */
  method CrossNearest(step: Vec3i, tdelta: Vec3, maxDistance: real, tcross: array<real>, from: Vec3i)
    returns (crossed: bool, to: Vec3i, t: real, normal: Vec3i, ghost axis: nat)
    requires tcross.Length == 3
    modifies tcross
    ensures IsNearest(old(tcross[..]), axis)
    ensures crossed <==> old(tcross[axis]) <= maxDistance
    ensures !crossed ==> tcross[..] == old(tcross[..])
    ensures crossed ==>
              && t == old(tcross[axis])
              && to == from.With(axis, from.At(axis) + step.At(axis))
              && tcross[..] == old(tcross[..])[axis := t + tdelta.At(axis)]
              && normal == Vec3i(from.x - to.x, from.y - to.y, from.z - to.z)
  {
    crossed, to, t, normal := false, from, 0.0, Vec3i(0, 0, 0);
    if tcross[0] < tcross[1] {
      if tcross[0] < tcross[2] {
        axis := 0;
        if tcross[0] > maxDistance {
          return;
        }
        to := from.(x := from.x + step.x);
        t := tcross[0];
        tcross[0] := tcross[0] + tdelta.x;
        normal := Vec3i(-step.x, 0, 0);
      } else {
        axis := 2;
        if tcross[2] > maxDistance {
          return;
        }
        to := from.(z := from.z + step.z);
        t := tcross[2];
        tcross[2] := tcross[2] + tdelta.z;
        normal := Vec3i(0, 0, -step.z);
      }
    } else {
      if tcross[1] < tcross[2] {
        axis := 1;
        if tcross[1] > maxDistance {
          return;
        }
        to := from.(y := from.y + step.y);
        t := tcross[1];
        tcross[1] := tcross[1] + tdelta.y;
        normal := Vec3i(0, -step.y, 0);
      } else {
        axis := 2;
        if tcross[2] > maxDistance {
          return;
        }
        to := from.(z := from.z + step.z);
        t := tcross[2];
        tcross[2] := tcross[2] + tdelta.z;
        normal := Vec3i(0, 0, -step.z);
      }
    }
    crossed := true;
  }

  /** One iteration of the walk, up to the question put to the predicate. */
  method NextState(ghost origin: Vec3, ghost direction: Vec3, maxDistance: real, step: Vec3i, tdelta: Vec3,
                   tcross: array<real>, hitPos: Vec3i, t: real, offered: seq<State>)
    returns (crossed: bool, state: State, normal: Vec3i)
    requires forall i: nat :: i < 3 ==> step.At(i) == Sign(direction.At(i)) && tdelta.At(i) == Delta(direction.At(i))
    requires tcross.Length == 3 && Walking(origin, direction, maxDistance, hitPos, tcross[..], t, offered)
    modifies tcross
    ensures !crossed ==>
              && Complete(origin, direction, StartVoxel(origin, direction), offered, maxDistance)
              && (StepsOutward(StartVoxel(origin, direction), offered) ==> NoIdleAxis(direction, maxDistance))
    ensures crossed ==>
              && Walking(origin, direction, maxDistance, state.position, tcross[..], state.distance, offered + [state])
              && Planes(direction, maxDistance, tcross[..]) == Planes(direction, maxDistance, old(tcross[..])) - 1
              && normal == Vec3i(state.prevPosition.x - state.position.x,
                                 state.prevPosition.y - state.position.y,
                                 state.prevPosition.z - state.position.z)
  {
    hide Walking, Planes, Complete, StepsOutward, NoIdleAxis, StartVoxel, Sign, Delta;
    var position, distance;
    ghost var cross, axis := tcross[..], 0;
    crossed, position, distance, normal, axis := CrossNearest(step, tdelta, maxDistance, tcross, hitPos);
    state := State(hitPos, t, position, distance);
    if crossed {
      assert step.At(axis) == Sign(direction.At(axis)) && tdelta.At(axis) == Delta(direction.At(axis));
      assert position == hitPos.With(axis, hitPos.At(axis) + Sign(direction.At(axis)));
      assert tcross[..] == cross[axis := cross[axis] + Delta(direction.At(axis))];
      WalkingOn(origin, direction, maxDistance, hitPos, cross, t, offered, axis);
    } else {
      WalkingToTheEnd(origin, direction, maxDistance, hitPos, cross, t, offered, axis);
    }
  }

  method VoxelRaycast(origin: Vec3, direction: Vec3, maxDistance: real, accepts: seq<State> -> bool)
    returns (hit: Option<Hit>, offered: seq<State>)
    ensures hit.None? ==> AllRefused(accepts, offered, |offered|)
    ensures hit.Some? ==>
              && offered != [] && AllRefused(accepts, offered, |offered| - 1) && accepts(offered)
              && var last := offered[|offered| - 1];
              && hit.value.position == last.position
              && hit.value.previousPosition == last.prevPosition
              && hit.value.distance == last.distance
              && hit.value.normal == Vec3i(last.prevPosition.x - last.position.x,
                                           last.prevPosition.y - last.position.y,
                                           last.prevPosition.z - last.position.z)
    ensures FollowsRay(origin, direction, StartVoxel(origin, direction), offered)
    ensures offered != [] ==> LastDistance(offered) <= maxDistance
    ensures Complete(origin, direction, StartVoxel(origin, direction), offered,
                     if hit.Some? then hit.value.distance else maxDistance)
    ensures Fresh(StartVoxel(origin, direction), offered) <==> StepsOutward(StartVoxel(origin, direction), offered)
    ensures NoIdleAxis(direction, maxDistance) ==> StepsOutward(StartVoxel(origin, direction), offered)
    ensures hit.None? && StepsOutward(StartVoxel(origin, direction), offered) ==> NoIdleAxis(direction, maxDistance)
    ensures NoIdleAxis(direction, maxDistance) && 0.0 <= maxDistance ==>
              |offered| as real
                  <= maxDistance * (AbsReal(direction.x) + AbsReal(direction.y) + AbsReal(direction.z)) + 3.0
  {
    hide Walking, Complete, FollowsRay, StepsOutward, Planes, StartVoxel, Sign, Delta, NoIdleAxis, AbsReal, Fresh;
    offered := [];
    var step := Vec3i(Sign(direction.x), Sign(direction.y), Sign(direction.z));
    var tdelta := Vec3(Delta(direction.x), Delta(direction.y), Delta(direction.z));
    var hitPos, tcross := FirstCrossings(origin, direction, step, tdelta, maxDistance);
    ghost var start := StartVoxel(origin, direction);
    var t := 0.0;
    ghost var total := Planes(direction, maxDistance, tcross[..]);
    while true
      invariant Walking(origin, direction, maxDistance, hitPos, tcross[..], t, offered)
      invariant AllRefused(accepts, offered, |offered|)
      invariant |offered| + Planes(direction, maxDistance, tcross[..]) == total
      decreases Planes(direction, maxDistance, tcross[..])
    {
      ghost var crossBefore := tcross[..];
      var crossed, state, normal :=
        NextState(origin, direction, maxDistance, step, tdelta, tcross, hitPos, t, offered);
      if !crossed {
        WalkingPromises(origin, direction, maxDistance, hitPos, crossBefore, t, offered);
        return None, offered;
      }
      RefusedSoFar(accepts, offered, state);
      hitPos, t, offered := state.position, state.distance, offered + [state];
      if accepts(offered) {
        WalkingIsComplete(origin, direction, maxDistance, hitPos, tcross[..], t, offered);
        WalkingPromises(origin, direction, maxDistance, hitPos, tcross[..], t, offered);
        return Some(Hit(hitPos, state.prevPosition, t, normal)), offered;
      }
    }
  }

  // ----- What callers may conclude -----

  /**
   When acceptance depends on the voxel alone, the first accepted voxel is the first solid one
   along the ray: up to the hit, every other interior the ray meets is not solid.
   */
  lemma {:induction false} HitIsFirstSolid(o: Vec3, d: Vec3, solid: Vec3i -> bool, accepts: seq<State> -> bool,
                                           offered: seq<State>, v: Vec3i, s: real)
    requires forall h: seq<State> :: h != [] ==> accepts(h) == solid(h[|h| - 1].position)
    requires offered != [] && AllRefused(accepts, offered, |offered| - 1)
    requires Complete(o, d, StartVoxel(o, d), offered, LastDistance(offered))
    requires 0.0 <= s <= LastDistance(offered) && RayInside(o, d, s, v)
    ensures v == StartVoxel(o, d) || v == LastPosition(StartVoxel(o, d), offered) || !solid(v)
  {
    assert Visited(StartVoxel(o, d), offered, v);
    if v != StartVoxel(o, d) {
      var k: nat :| k < |offered| && offered[k].position == v;
      if k < |offered| - 1 {
        assert offered[..k + 1] != [] && offered[..k + 1][|offered[..k + 1]| - 1] == offered[k];
      }
    }
  }
}
