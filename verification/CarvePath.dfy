/**
 Carving a tunnel: boxes stamped along an integer line walk, after validators have checked the
 number of steps, the voxels to visit and the range of the two end stamps.
 */
module CarvePath {
  import opened Geometry
  import opened Voxels
  import opened ShapeEdits

  const MAX_CARVE_PATH_STEPS := 65_536
  const MAX_CARVE_PATH_VOXEL_VISITS := 8_388_608

  /** `i32::MAX as f32`, which rounds up to 2^31. */
  const I32_MAX_AS_FLOAT: real := 2_147_483_648.0

  function FloorToI32(a: real): Option<int> {
    if a < I32_MIN as real || a >= I32_MAX_AS_FLOAT then None else Some(a.Floor)
  }

  function CheckedMul(a: Option<nat>, b: nat): Option<nat> {
    match a
    case Some(n) => if n * b > U64_MAX then None else Some(n * b)
    case None => None
  }

  // ----- The line walk -----

  datatype Walk = Walk(start: Vec3i, target: Vec3i, originX: int, half: int) {

    function Delta(): Vec3i {
      Vec3i(target.x - start.x, target.y - start.y, target.z - start.z)
    }

    function Steps(): (n: int)
      ensures n >= 1 && Abs(target.x - start.x) <= n && Abs(target.y - start.y) <= n && Abs(target.z - start.z) <= n
      ensures n == 1 || n == Abs(target.x - start.x) || n == Abs(target.y - start.y) || n == Abs(target.z - start.z)
    {
      Max(Max(Max(Abs(Delta().x), Abs(Delta().y)), Abs(Delta().z)), 1)
    }

    /** The center of stamp `i`, in buffer space. */
    function Center(i: int): Vec3i {
      Vec3i(start.x + Along(Delta().x, i, Steps()) + originX,
            start.y + Along(Delta().y, i, Steps()),
            start.z + Along(Delta().z, i, Steps()))
    }

    function Low(i: int): Vec3i {
      Vec3i(Center(i).x - half, Center(i).y - half, Center(i).z - half)
    }

    function High(i: int): Vec3i {
      Vec3i(Center(i).x + half, Center(i).y + half, Center(i).z + half)
    }
  }

  /** How far step `i` of `steps` has gone along an axis of length `d`. */
  function Along(d: int, i: int, steps: int): int
    requires steps >= 1
  {
    TruncDiv(d * i, steps)
  }

  /** Adding at most one divisor moves a quotient by 0 or 1. */
  lemma QuotientStep(a: int, d: int, n: int)
    requires 0 <= d <= n && 1 <= n
    ensures a / n <= (a + d) / n <= a / n + 1
    ensures d == n ==> (a + d) / n == a / n + 1
  {
    QuotientReaches(a, n, a / n);
    QuotientReaches(a, n, a / n + 1);
    OneMore(a / n, n);
    WholeQuotientIs(a + n, n, a / n + 1);
    QuotientOrder(a, a + d, n);
    QuotientOrder(a + d, a + n, n);
  }

  /** For a nonnegative length: the walk starts at 0, ends at `d`, stays between and moves by 0 or 1. */
  lemma {:induction false} ForwardWalk(d: int, i: int, steps: int)
    requires 0 <= d <= steps && 1 <= steps && 0 <= i <= steps
    ensures 0 <= d * i / steps <= d
    ensures d * 0 / steps == 0 && d * steps / steps == d
    ensures i < steps ==> d * i / steps <= d * (i + 1) / steps <= d * i / steps + 1
    ensures i < steps && d == steps ==> d * (i + 1) / steps == d * i / steps + 1
  {
    var a := d * i;
    ScaledOrder(0, i, d);
    ScaledOrder(i, steps, d);
    WholeQuotientIs(0, steps, 0);
    WholeQuotientIs(d * steps, steps, d);
    QuotientOrder(0, a, steps);
    QuotientOrder(a, d * steps, steps);
    assert d * (i + 1) == a + d;
    QuotientStep(a, d, steps);
  }

  /**
   The walk along one axis starts at 0, ends at `d`, stays between them, moves by at most one
   toward `d` each step, and by exactly one on the longest axis.
   */
  lemma {:induction false} AxisWalk(d: int, i: int, steps: int)
    requires 1 <= steps && Abs(d) <= steps && 0 <= i <= steps
    ensures Along(d, 0, steps) == 0 && Along(d, steps, steps) == d
    ensures if d >= 0 then 0 <= Along(d, i, steps) <= d else d <= Along(d, i, steps) <= 0
    ensures i < steps ==>
              var move := Along(d, i + 1, steps) - Along(d, i, steps);
              && (if d >= 0 then 0 <= move <= 1 else -1 <= move <= 0)
              && (Abs(d) == steps ==> Abs(move) == 1)
  {
    ForwardWalk(Abs(d), i, steps);
    if d < 0 {
      Negated(d, i);
      Negated(d, i + 1);
      Negated(d, steps);
      Negated(d, 0);
    }
    NegativeNumerator(d, i, steps);
    NegativeNumerator(d, i + 1, steps);
    NegativeNumerator(d, steps, steps);
    NegativeNumerator(d, 0, steps);
  }

  lemma Negated(d: int, i: int)
    ensures -(d * i) == (-d) * i
  {
  }

  /** Truncating division mirrors the nonnegative case. */
  lemma NegativeNumerator(d: int, i: int, steps: int)
    requires steps >= 1 && i >= 0
    ensures Along(d, i, steps) == if d >= 0 then d * i / steps else -((-d) * i / steps)
  {
    if d < 0 {
      Negated(d, i);
      ScaledOrder(0, i, -d);
      if d * i == 0 {
        WholeQuotientIs(0, steps, 0);
      }
    } else {
      ScaledOrder(0, i, d);
    }
  }

  // ----- Validators -----

  function ValidateSteps(steps: int): Option<nat> {
    if 1 <= steps <= MAX_CARVE_PATH_STEPS then Some(steps) else None
  }

  function MaxClippedStampVolume(half: int, size: Vec3i): Option<nat> {
    if half < 0 || size.x < 0 || size.y < 0 || size.z < 0 then None
    else CheckedMul(CheckedMul(Some(Min(2 * half, size.x)), Min(2 * half, size.y)), Min(2 * half, size.z))
  }

  function ValidateWork(steps: int, stampVolume: nat): Option<nat> {
    match ValidateSteps(steps)
    case None => None
    case Some(n) =>
      match CheckedMul(Some(n + 1), stampVolume)
      case None => None
      case Some(work) => if work > MAX_CARVE_PATH_VOXEL_VISITS then None else Some(work)
  }

  predicate CoordinateFits(center: int, half: int) {
    IsI32(center - half) && IsI32(center + half)
  }

  predicate CornersFit(center: Vec3i, half: int) {
    CoordinateFits(center.x, half) && CoordinateFits(center.y, half) && CoordinateFits(center.z, half)
  }

  /** The range check looks at the two end stamps only. */
  predicate ValidateStampRange(w: Walk) {
    && w.half >= 0
    && CornersFit(w.start.(x := w.start.x + w.originX), w.half)
    && CornersFit(w.target.(x := w.target.x + w.originX), w.half)
  }

  predicate Accepted(w: Walk, size: Vec3i) {
    && ValidateSteps(w.Steps()).Some?
    && MaxClippedStampVolume(w.half, size).Some?
    && ValidateWork(w.Steps(), MaxClippedStampVolume(w.half, size).value).Some?
    && ValidateStampRange(w)
  }

  /** The half-size and start cell read from the node, when they convert. */
  function PlanWalk(boxSize: real, position: Vec3, originX: int, target: Vec3i): Option<Walk> {
    if boxSize < 0.0 then None
    else
      match (FloorToI32(boxSize), FloorToI32(position.x), FloorToI32(position.y), FloorToI32(position.z))
      case (Some(half), Some(x), Some(y), Some(z)) => Some(Walk(Vec3i(x, y, z), target, originX, half))
      case _ => None
  }

  /** The cell of a coordinate that converts. */
  predicate IsCell(n: int, a: real) {
    -2_147_483_648.0 <= a < 2_147_483_648.0 && n as real <= a < n as real + 1.0
  }

  lemma FloorIs(a: real, n: int)
    ensures a.Floor == n <==> n as real <= a < n as real + 1.0
  {
  }

  lemma FloorIsCell(a: real, n: int)
    ensures FloorToI32(a) == Some(n) <==> IsCell(n, a)
    ensures FloorToI32(a).None? <==> a < -2_147_483_648.0 || a >= 2_147_483_648.0
  {
    FloorIs(a, n);
    assert I32_MIN as real == -2_147_483_648.0;
    if -2_147_483_648.0 <= a < 2_147_483_648.0 {
      assert FloorToI32(a) == Some(a.Floor);
    }
  }

  /**
   The plan starts at the node's own cell, with the floor of the box size as half-size. There is none exactly when
   the box size is negative or one of the four numbers does not convert.
   */
  lemma {:induction false} PlanExactly(boxSize: real, position: Vec3, originX: int, target: Vec3i, w: Walk)
    ensures PlanWalk(boxSize, position, originX, target) == Some(w) <==>
              && boxSize >= 0.0 && IsCell(w.half, boxSize)
              && IsCell(w.start.x, position.x) && IsCell(w.start.y, position.y) && IsCell(w.start.z, position.z)
              && w.target == target && w.originX == originX
    ensures PlanWalk(boxSize, position, originX, target).None? <==>
              || boxSize < 0.0 || boxSize >= 2_147_483_648.0
              || position.x < -2_147_483_648.0 || position.x >= 2_147_483_648.0
              || position.y < -2_147_483_648.0 || position.y >= 2_147_483_648.0
              || position.z < -2_147_483_648.0 || position.z >= 2_147_483_648.0
  {
    hide FloorToI32, IsCell;
    FloorIsCell(boxSize, w.half);
    FloorIsCell(position.x, w.start.x);
    FloorIsCell(position.y, w.start.y);
    FloorIsCell(position.z, w.start.z);
  }

  /** Shifted by the origin, a planned walk runs from the node's own cell to the target. */
  lemma {:induction false} PlannedWalkEnds(boxSize: real, position: Vec3, originX: int, target: Vec3i)
    requires PlanWalk(boxSize, position, originX, target).Some?
    ensures var w := PlanWalk(boxSize, position, originX, target).value;
            var first, last := w.Center(0), w.Center(w.Steps());
            && IsCell(first.x - originX, position.x) && IsCell(first.y, position.y) && IsCell(first.z, position.z)
            && last == Vec3i(target.x + originX, target.y, target.z)
  {
    var w := PlanWalk(boxSize, position, originX, target).value;
    PlanExactly(boxSize, position, originX, target, w);
    hide PlanWalk, IsCell;
    WalkIsConnected(w, 0);
  }

  /**
   A walk is accepted exactly when it has at most 65536 steps, its stamps visit at most 8388608 voxels in all by the
   clipped volume of one, the half-size is not negative, and both end stamps lie in the `i32` range.
   */
  lemma {:induction false} AcceptedExactly(w: Walk, size: Vec3i)
    requires 0 <= size.x <= I32_MAX && 0 <= size.y <= I32_MAX && 0 <= size.z <= I32_MAX
    ensures var m := Vec3i(Min(2 * w.half, size.x), Min(2 * w.half, size.y), Min(2 * w.half, size.z));
            Accepted(w, size) <==>
              && w.half >= 0 && w.Steps() <= 65_536 && (w.Steps() + 1) * (m.x * m.y * m.z) <= 8_388_608
              && EndFits(w.start.x + w.originX, w.start.y, w.start.z, w.half)
              && EndFits(w.target.x + w.originX, w.target.y, w.target.z, w.half)
  {
    if w.half >= 0 {
      var mx, my, mz := Min(2 * w.half, size.x), Min(2 * w.half, size.y), Min(2 * w.half, size.z);
      ProductOrder(mx, my, I32_MAX, I32_MAX);
      ProductOrder(0, 0, mx * my, mz);
      ScaledOrder(1, w.Steps() + 1, mx * my * mz);
      VolumeIs(w.half, size);
      WorkIs(w.Steps(), mx * my * mz);
      hide MaxClippedStampVolume, ValidateWork, CheckedMul;
    }
  }

  predicate EndFits(x: int, y: int, z: int, half: int) {
    && -2_147_483_648 <= x - half && x + half <= 2_147_483_647
    && -2_147_483_648 <= y - half && y + half <= 2_147_483_647
    && -2_147_483_648 <= z - half && z + half <= 2_147_483_647
  }

  lemma {:induction false} VolumeIs(half: int, size: Vec3i)
    requires half >= 0 && 0 <= size.x <= I32_MAX && 0 <= size.y <= I32_MAX && 0 <= size.z <= I32_MAX
    ensures var volume := Min(2 * half, size.x) * Min(2 * half, size.y) * Min(2 * half, size.z);
            MaxClippedStampVolume(half, size) == if 0 <= volume <= U64_MAX then Some(volume) else None
  {
    ProductOrder(Min(2 * half, size.x), Min(2 * half, size.y), I32_MAX, I32_MAX);
    ProductOrder(0, 0, Min(2 * half, size.x) * Min(2 * half, size.y), Min(2 * half, size.z));
  }

  lemma WorkIs(steps: int, volume: nat)
    requires steps >= 1
    ensures ValidateWork(steps, volume).Some? <==> steps <= 65_536 && (steps + 1) * volume <= 8_388_608
  {
  }

  /** Every center is the cell of the exact line point, rounded toward the start on each axis. */
  lemma {:induction false} CenterIsOnLine(w: Walk, i: int)
    requires 0 <= i <= w.Steps()
    ensures var c, n := w.Center(i), w.Steps();
            && RoundsTowardStart(c.x - w.originX - w.start.x, (w.target.x - w.start.x) * i, n)
            && RoundsTowardStart(c.y - w.start.y, (w.target.y - w.start.y) * i, n)
            && RoundsTowardStart(c.z - w.start.z, (w.target.z - w.start.z) * i, n)
  {
    AlongRounds(w.Delta().x, i, w.Steps());
    AlongRounds(w.Delta().y, i, w.Steps());
    AlongRounds(w.Delta().z, i, w.Steps());
    hide Along, RoundsTowardStart;
  }

  /** `k` is `a / n` rounded toward zero. */
  predicate RoundsTowardStart(k: int, a: int, n: int) {
    if a >= 0 then k * n <= a < k * n + n else k * n - n < a <= k * n
  }

  lemma AlongRounds(d: int, i: int, steps: int)
    requires steps >= 1
    ensures RoundsTowardStart(Along(d, i, steps), d * i, steps)
  {
    var a := d * i;
    assert Along(d, i, steps) == TruncDiv(a, steps);
    var q := Abs(a) / steps;
    QuotientReaches(Abs(a), steps, q);
    QuotientReaches(Abs(a), steps, q + 1);
    OneMore(q, steps);
    assert (-q) * steps == -(q * steps);
  }

  // ----- What the validators guarantee -----

  lemma {:induction false} CenterIsBetween(w: Walk, i: int)
    requires 0 <= i <= w.Steps()
    ensures var c, d, s := w.Center(i), w.Delta(), w.start;
            && (if d.x >= 0 then s.x <= c.x - w.originX <= w.target.x else w.target.x <= c.x - w.originX <= s.x)
            && (if d.y >= 0 then s.y <= c.y <= w.target.y else w.target.y <= c.y <= s.y)
            && (if d.z >= 0 then s.z <= c.z <= w.target.z else w.target.z <= c.z <= s.z)
  {
    hide Along;
    AxisWalk(w.Delta().x, i, w.Steps());
    AxisWalk(w.Delta().y, i, w.Steps());
    AxisWalk(w.Delta().z, i, w.Steps());
  }

  /** If the two end stamps fit `i32`, so does every stamp: no step's conversion can fail. */
  lemma {:induction false} EndpointsProtectAllStamps(w: Walk, i: int)
    requires ValidateStampRange(w) && 0 <= i <= w.Steps()
    ensures CornersFit(w.Center(i), w.half)
  {
    hide Along;
    CenterIsBetween(w, i);
  }

  /** The endpoints-only check accepts exactly the walks all of whose stamps fit `i32`. */
  lemma {:induction false} RangeCheckIsExact(w: Walk)
    requires w.half >= 0
    ensures ValidateStampRange(w) <==> forall i: int :: 0 <= i <= w.Steps() ==> CornersFit(w.Center(i), w.half)
  {
    hide CornersFit, Along;
    if ValidateStampRange(w) {
      forall i: int | 0 <= i <= w.Steps()
        ensures CornersFit(w.Center(i), w.half)
      {
        EndpointsProtectAllStamps(w, i);
      }
    } else {
      WalkIsConnected(w, 0);
    }
  }

  /** The walk begins at the start, ends at the target, and never jumps: each step moves at most one per axis. */
  lemma {:induction false} WalkIsConnected(w: Walk, i: int)
    requires 0 <= i < w.Steps()
    ensures w.Center(0) == w.start.(x := w.start.x + w.originX)
    ensures w.Center(w.Steps()) == w.target.(x := w.target.x + w.originX)
    ensures var a, b := w.Center(i), w.Center(i + 1);
            && Abs(b.x - a.x) <= 1 && Abs(b.y - a.y) <= 1 && Abs(b.z - a.z) <= 1
            && (Abs(w.Delta().x) == w.Steps() ==> Abs(b.x - a.x) == 1)
            && (Abs(w.Delta().y) == w.Steps() ==> Abs(b.y - a.y) == 1)
            && (Abs(w.Delta().z) == w.Steps() ==> Abs(b.z - a.z) == 1)
  {
    hide Along;
    AxisWalk(w.Delta().x, i, w.Steps());
    AxisWalk(w.Delta().y, i, w.Steps());
    AxisWalk(w.Delta().z, i, w.Steps());
  }

  lemma ProductOrder(a: int, b: int, m: int, n: int)
    requires 0 <= a <= m && 0 <= b <= n
    ensures 0 <= a * b <= m * n
  {
    assert a * b <= a * n <= m * n;
  }

  lemma AxisVisits(center: int, half: int, size: int)
    requires half >= 0 && size >= 0
    ensures Min(center + half, size) - Max(center - half, 0) <= Min(2 * half, size)
  {
  }

  /** No stamp visits more voxels than the clipped stamp volume the budget was computed with. */
  lemma {:induction false} StampVisitsAreBounded(w: Walk, size: Vec3i, i: int)
    requires MaxClippedStampVolume(w.half, size).Some?
    ensures 0 <= ClippedVolume(size, w.Low(i), w.High(i)) <= MaxClippedStampVolume(w.half, size).value
  {
    var c := w.Center(i);
    var l, h := ClipLow(w.Low(i)), ClipHigh(w.High(i), size);
    var mx, my, mz := Min(2 * w.half, size.x), Min(2 * w.half, size.y), Min(2 * w.half, size.z);
    AxisVisits(c.x, w.half, size.x);
    AxisVisits(c.y, w.half, size.y);
    AxisVisits(c.z, w.half, size.z);
    ProductOrder(0, 0, mx, my);
    ProductOrder(0, 0, mx * my, mz);
    if l.x < h.x && l.y < h.y && l.z < h.z {
      ProductOrder(h.y - l.y, h.x - l.x, my, mx);
      ProductOrder(h.z - l.z, (h.y - l.y) * (h.x - l.x), mz, my * mx);
      assert mz * (my * mx) == (mx * my) * mz;
    }
  }

  // ----- The carver -----

  /** The voxel lies in one of the first `n` stamps. */
  ghost predicate Stamped(w: Walk, n: int, v: Vec3i) {
    exists i: int :: 0 <= i < n && InBox(w.Low(i), w.High(i), v)
  }

  predicate NearCenter(c: Vec3i, half: int, v: Vec3i) {
    -half <= v.x - c.x < half && -half <= v.y - c.y < half && -half <= v.z - c.z < half
  }

  /** A voxel is stamped when it is within the half-size below, and less than it above, the center of a stamp. */
  lemma {:induction false} StampedExactly(w: Walk, n: int, v: Vec3i)
    ensures Stamped(w, n, v) <==>
              exists i: int :: 0 <= i < n && NearCenter(w.Center(i), w.half, v)
  {
    hide Along;
    assert forall i: int :: InBox(w.Low(i), w.High(i), v) <==> NearCenter(w.Center(i), w.half, v);
  }

  method CarvePath(c: Channel, boxSize: real, position: Vec3, originX: int, target: Vec3i)
    returns (stamped: int, ghost visited: nat)
    requires AllRaw(c) && IsI32(originX) && IsI32(target.x) && IsI32(target.y) && IsI32(target.z)
    modifies c
    ensures var plan := PlanWalk(boxSize, position, originX, target);
            if plan.Some? && Accepted(plan.value, Size(c)) then
              && stamped == plan.value.Steps() + 1
              && visited <= (plan.value.Steps() + 1) * MaxClippedStampVolume(plan.value.half, Size(c)).value
              && forall v: Vec3i :: InBounds(Size(c), v) ==>
                   At(c, v) == if Stamped(plan.value, stamped, v) then Raw(1) else old(At(c, v))
            else stamped == -1 && visited == 0 && Contents(c) == old(Contents(c))
    ensures visited <= MAX_CARVE_PATH_VOXEL_VISITS
  {
    visited := 0;
    var plan := PlanWalk(boxSize, position, originX, target);
    if plan.None? {
      return -1, 0;
    }
    var w := plan.value;
    var steps := w.Steps();
    if ValidateSteps(steps).None? {
      return -1, 0;
    }
    var volume := MaxClippedStampVolume(w.half, Size(c));
    if volume.None? {
      return -1, 0;
    }
    if ValidateWork(steps, volume.value).None? {
      return -1, 0;
    }
    if !ValidateStampRange(w) {
      return -1, 0;
    }
    var stamps := PlaceStamps(w);
    visited := StampAll(c, w, stamps, volume.value);
    stamped := |stamps|;
  }

  /** Every box is computed, and its corners fit `i32`, before the buffer is touched. */
  method PlaceStamps(w: Walk) returns (stamps: seq<(Vec3i, Vec3i)>)
    requires ValidateStampRange(w)
    ensures |stamps| == w.Steps() + 1
    ensures forall i: int :: 0 <= i < |stamps| ==> stamps[i] == (w.Low(i), w.High(i)) && CornersFit(w.Center(i), w.half)
  {
    hide Along;
    stamps := [];
    var steps := w.Steps();
    for i := 0 to steps + 1
      invariant |stamps| == i
      invariant forall j: int :: 0 <= j < i ==> stamps[j] == (w.Low(j), w.High(j)) && CornersFit(w.Center(j), w.half)
    {
      var cx := w.start.x + Along(w.Delta().x, i, steps) + w.originX;
      var cy := w.start.y + Along(w.Delta().y, i, steps);
      var cz := w.start.z + Along(w.Delta().z, i, steps);
      EndpointsProtectAllStamps(w, i);
      stamps := stamps + [(Vec3i(cx - w.half, cy - w.half, cz - w.half), Vec3i(cx + w.half, cy + w.half, cz + w.half))];
    }
  }

  method StampAll(c: Channel, ghost w: Walk, stamps: seq<(Vec3i, Vec3i)>, ghost volume: nat)
    returns (ghost visited: nat)
    requires AllRaw(c) && MaxClippedStampVolume(w.half, Size(c)) == Some(volume)
    requires forall i: int :: 0 <= i < |stamps| ==> stamps[i] == (w.Low(i), w.High(i))
    modifies c
    ensures visited <= |stamps| * volume
    ensures forall v: Vec3i :: InBounds(Size(c), v) ==>
              At(c, v) == if Stamped(w, |stamps|, v) then Raw(1) else old(At(c, v))
  {
    visited := 0;
    ghost var root: Root := (x: real) => 1.0;
    for i := 0 to |stamps|
      invariant visited <= i * volume
      invariant forall v: Vec3i :: InBounds(Size(c), v) ==>
        At(c, v) == if Stamped(w, i, v) then Raw(1) else old(At(c, v))
    {
      var (min, max) := stamps[i];
      ghost var before := Contents(c);
      ghost var more := DoBox(c, root, Set, 1, min, max);
      StampVisitsAreBounded(w, Size(c), i);
      visited := visited + more;
      SetsBox(root, Size(c), before, min, max);
      OneMoreStamp(w, i);
      assert (i + 1) * volume == i * volume + volume;
    }
  }

  lemma SetsBox(root: Root, size: Vec3i, g: Grid, lo: Vec3i, hi: Vec3i)
    requires forall v: Vec3i :: v in g ==> g[v].Raw?
    ensures var after := EditGrid(root, size, Edit(Box(lo, hi), Set, 1), g);
            forall v: Vec3i :: v in g ==> v in after && after[v] == if InBox(lo, hi, v) then Raw(1) else g[v]
  {
  }

  lemma OneMoreStamp(w: Walk, n: int)
    requires 0 <= n
    ensures forall v: Vec3i :: Stamped(w, n + 1, v) <==> Stamped(w, n, v) || InBox(w.Low(n), w.High(n), v)
  {
    forall v: Vec3i
      ensures Stamped(w, n + 1, v) <==> Stamped(w, n, v) || InBox(w.Low(n), w.High(n), v)
    {
      if i: int :| 0 <= i < n + 1 && InBox(w.Low(i), w.High(i), v) {
        assert i < n ==> Stamped(w, n, v);
      }
    }
  }
}
