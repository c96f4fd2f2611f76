/**
 Sphere, box and hemisphere edits of one channel: clipped loops over a bounding box, specified by
 what happens to every voxel of the buffer.

 The square root is a parameter `root`, assumed to be the real square root.
 */
module ShapeEdits {
  import opened Geometry
  import opened Voxels
  import opened SmoothBlend

  datatype EditMode = Add | Remove | Set

  datatype Shape =
    | Sphere(center: Vec3, radius: real)
    | Box(lo: Vec3i, hi: Vec3i)
    | Hemisphere(center: Vec3, radius: real, flat: Vec3, smoothness: real)

  datatype Edit = Edit(shape: Shape, mode: EditMode, value: int)

  /** A candidate for the square root: positive on positive numbers. */
  type Root = f: real -> real | forall x: real :: x > 0.0 ==> f(x) > 0.0 witness (x: real) => 1.0

  ghost predicate IsSqrt(root: Root) {
    forall x: real :: x >= 0.0 ==> root(x) >= 0.0 && root(x) * root(x) == x
  }

  // ----- Distances -----

  function VoxelCenter(v: Vec3i): Vec3 {
    Vec3(v.x as real + 0.5, v.y as real + 0.5, v.z as real + 0.5)
  }

  function Inverse(length: real): real
    requires length > 0.0
  {
    1.0 / length
  }

  function Scaled(n: Vec3, k: real): Vec3 {
    Vec3(n.x * k, n.y * k, n.z * k)
  }

  /** The normal of the flat face: the given direction normalized, or up when it is too short. */
  function FlatNormal(root: Root, flat: Vec3): Vec3 {
    var lengthSquared := LengthSquared(flat);
    if lengthSquared > TOO_SHORT then
      Scaled(flat, Inverse(root(lengthSquared)))
    else UP
  }

  const UP := Vec3(0.0, 1.0, 0.0)

  const TOO_SHORT: real := 0.000_000_000_000_000_1

  function PlaneDistance(p: Vec3, c: Vec3, n: Vec3): real {
    (p.x - c.x) * n.x + (p.y - c.y) * n.y + (p.z - c.z) * n.z
  }

  function HemisphereSdf(root: Root, p: Vec3, c: Vec3, radius: real, flat: Vec3, smoothness: real): real {
    var sphere := root(DistanceSquared(p, c)) - radius;
    var plane := PlaneDistance(p, c, FlatNormal(root, flat));
    SmoothIntersection(sphere, plane, MaxReal(smoothness, 0.0))
  }

  function AxisSdf(pos: int, lo: int, hi: int): real {
    var half := (hi - lo) as real * 0.5;
    AbsReal(pos as real + 0.5 - (lo as real + half)) - half
  }

  function SdfBox(v: Vec3i, lo: Vec3i, hi: Vec3i): real {
    var d := MaxReal(MaxReal(AxisSdf(v.x, lo.x, hi.x), AxisSdf(v.y, lo.y, hi.y)), AxisSdf(v.z, lo.z, hi.z));
    MaxReal(d, 0.0) + MinReal(d, 0.0)
  }

  // ----- Bounding boxes -----

  function FloorCorner(c: Vec3, pad: real): Vec3i {
    Vec3i(SaturateI32((c.x - pad).Floor), SaturateI32((c.y - pad).Floor), SaturateI32((c.z - pad).Floor))
  }

  function CeilCorner(c: Vec3, pad: real): Vec3i {
    Vec3i(SaturateI32(Ceil(c.x + pad)), SaturateI32(Ceil(c.y + pad)), SaturateI32(Ceil(c.z + pad)))
  }

  function ClipLow(lo: Vec3i): Vec3i {
    Vec3i(Max(lo.x, 0), Max(lo.y, 0), Max(lo.z, 0))
  }

  function ClipHigh(hi: Vec3i, size: Vec3i): Vec3i {
    Vec3i(Min(hi.x, size.x), Min(hi.y, size.y), Min(hi.z, size.z))
  }

  // ----- What an edit does to every voxel -----

  /** The voxel is one the shape covers. A sphere of negative radius covers what its inverted box leaves of it. */
  predicate Touches(root: Root, shape: Shape, v: Vec3i) {
    match shape
    case Sphere(c, r) =>
      DistanceSquared(VoxelCenter(v), c) <= r * r && (r >= 0.0 || InBox(FloorCorner(c, r), CeilCorner(c, r), v))
    case Box(lo, hi) => InBox(lo, hi, v)
    case Hemisphere(c, r, flat, k) => HemisphereSdf(root, VoxelCenter(v), c, r, flat, k) <= 0.0
  }

  /**
   The distance the shape blends in at a voxel. A box is first clipped to the buffer, which can bring a face
   nearer.
   */
  function ShapeSdf(root: Root, size: Vec3i, shape: Shape, v: Vec3i): real {
    match shape
    case Sphere(c, r) => root(DistanceSquared(VoxelCenter(v), c)) - r
    case Box(lo, hi) => SdfBox(v, ClipLow(lo), ClipHigh(hi, size))
    case Hemisphere(c, r, flat, k) => HemisphereSdf(root, VoxelCenter(v), c, r, flat, k)
  }

  function BlendSdf(existing: real, shapeSdf: real, mode: EditMode): real {
    match mode
    case Add => MinReal(existing, shapeSdf)
    case Remove => MaxReal(existing, -shapeSdf)
    case Set => shapeSdf
  }

  function EditCell(cell: Voxel, sdf: real, mode: EditMode, value: int): Voxel {
    match cell
    case Sdf(existing) => Sdf(BlendSdf(existing, sdf, mode))
    case Raw(id) =>
      match mode
      case Add => if id == 0 then Raw(value) else cell
      case Remove => Raw(0)
      case Set => Raw(value)
  }

  function Edited(root: Root, size: Vec3i, e: Edit, v: Vec3i, cell: Voxel): Voxel {
    if Touches(root, e.shape, v) then EditCell(cell, ShapeSdf(root, size, e.shape, v), e.mode, e.value) else cell
  }

  /** The whole buffer after an edit: no loop box and no loop order. */
  ghost function EditGrid(root: Root, size: Vec3i, e: Edit, g: Grid): Grid {
    map v: Vec3i | v in g :: Edited(root, size, e, v, g[v])
  }

  // ----- The bounding boxes lose nothing -----

  lemma {:induction false} FloorBelow(c: real, pad: real, x: int)
    requires c - pad <= x as real + 0.5 && 0 <= x < I32_MAX
    ensures SaturateI32((c - pad).Floor) <= x
  {
  }

  lemma {:induction false} CeilAbove(c: real, pad: real, x: int)
    requires x as real + 0.5 <= c + pad && 0 <= x < I32_MAX
    ensures x < SaturateI32(Ceil(c + pad))
  {
  }

  lemma DistanceIsNonnegative(p: Vec3, c: Vec3)
    ensures DistanceSquared(p, c) >= 0.0
    ensures Square(p.x - c.x) <= DistanceSquared(p, c)
    ensures Square(p.y - c.y) <= DistanceSquared(p, c)
    ensures Square(p.z - c.z) <= DistanceSquared(p, c)
  {
    SquareIsNonnegative(p.x - c.x);
    SquareIsNonnegative(p.y - c.y);
    SquareIsNonnegative(p.z - c.z);
  }

  /** A voxel whose center is within `radius` of `c` lies in the box padded by at least `radius`. */
  lemma {:induction false} PaddedBoxCovers(c: Vec3, radius: real, pad: real, size: Vec3i, v: Vec3i)
    requires 0.0 <= radius <= pad && DistanceSquared(VoxelCenter(v), c) <= radius * radius
    requires InBounds(size, v) && IsI32(size.x) && IsI32(size.y) && IsI32(size.z)
    ensures InBox(FloorCorner(c, pad), CeilCorner(c, pad), v)
  {
    var p := VoxelCenter(v);
    DistanceIsNonnegative(p, c);
    hide DistanceSquared;
    PaddedAxisCovers(c.x, radius, pad, size.x, v.x);
    PaddedAxisCovers(c.y, radius, pad, size.y, v.y);
    PaddedAxisCovers(c.z, radius, pad, size.z, v.z);
    hide SaturateI32, Ceil, Square;
  }

  lemma {:induction false} PaddedAxisCovers(c: real, radius: real, pad: real, size: int, x: int)
    requires 0.0 <= radius <= pad && Square(x as real + 0.5 - c) <= radius * radius && 0 <= x < size && IsI32(size)
    ensures SaturateI32((c - pad).Floor) <= x < SaturateI32(Ceil(c + pad))
  {
    SquareBelow(x as real + 0.5 - c, radius);
    FloorBelow(c, pad, x);
    CeilAbove(c, pad, x);
  }

  lemma {:induction false} RootBelow(root: Root, x: real, r: real)
    requires IsSqrt(root) && x >= 0.0
    ensures root(x) <= r <==> r >= 0.0 && x <= r * r
  {
    var s := root(x);
    assert s >= 0.0 && s * s == x;
    if r >= 0.0 {
      SquaresOrder(s, r);
    }
  }

  /** The hemisphere distance is never below the sphere distance, nor below the plane distance. */
  lemma {:induction false} HemisphereSdfBounds(root: Root, p: Vec3, c: Vec3, radius: real, flat: Vec3, smoothness: real)
    ensures HemisphereSdf(root, p, c, radius, flat, smoothness) >= root(DistanceSquared(p, c)) - radius
    ensures HemisphereSdf(root, p, c, radius, flat, smoothness) >= PlaneDistance(p, c, FlatNormal(root, flat))
  {
    hide SmoothIntersection, PlaneDistance, FlatNormal, DistanceSquared;
    var sphere, plane := root(DistanceSquared(p, c)) - radius, PlaneDistance(p, c, FlatNormal(root, flat));
    SmoothIntersectionBounds(sphere, plane, MaxReal(smoothness, 0.0));
  }

  lemma {:induction false} NonpositiveSdfIsInSphere(root: Root, p: Vec3, c: Vec3, radius: real, sdf: real)
    requires IsSqrt(root) && sdf <= 0.0 && sdf >= root(DistanceSquared(p, c)) - radius
    ensures radius >= 0.0 && DistanceSquared(p, c) <= radius * radius
  {
    DistanceIsNonnegative(p, c);
    RootBelow(root, DistanceSquared(p, c), radius);
  }

  /** Every voxel a hemisphere touches, the sphere of the same radius touches. */
  lemma {:induction false} HemisphereInSphere(root: Root, c: Vec3, radius: real, flat: Vec3, smoothness: real, v: Vec3i)
    requires IsSqrt(root) && Touches(root, Hemisphere(c, radius, flat, smoothness), v)
    ensures radius >= 0.0 && Touches(root, Sphere(c, radius), v)
  {
    hide HemisphereSdf, DistanceSquared, VoxelCenter, IsSqrt;
    var sdf := HemisphereSdf(root, VoxelCenter(v), c, radius, flat, smoothness);
    HemisphereSdfBounds(root, VoxelCenter(v), c, radius, flat, smoothness);
    NonpositiveSdfIsInSphere(root, VoxelCenter(v), c, radius, sdf);
    SphereTouchesBall(root, c, radius, v);
  }

  lemma SphereTouchesBall(root: Root, c: Vec3, radius: real, v: Vec3i)
    requires radius >= 0.0
    ensures Touches(root, Sphere(c, radius), v) <==> DistanceSquared(VoxelCenter(v), c) <= radius * radius
  {
  }

  /** The padded, clipped loop box of a hemisphere misses no voxel it touches. */
  lemma {:induction false} HemisphereBoxCovers(root: Root, c: Vec3, radius: real, flat: Vec3, smoothness: real,
                                               size: Vec3i, v: Vec3i)
    requires IsSqrt(root) && Touches(root, Hemisphere(c, radius, flat, smoothness), v)
    requires InBounds(size, v) && IsI32(size.x) && IsI32(size.y) && IsI32(size.z)
    ensures var pad := radius + MaxReal(smoothness, 0.0);
            InBox(FloorCorner(c, pad), CeilCorner(c, pad), v)
  {
    hide HemisphereSdf, DistanceSquared, VoxelCenter, IsSqrt;
    HemisphereInSphere(root, c, radius, flat, smoothness, v);
    PaddedBoxCovers(c, radius, radius + MaxReal(smoothness, 0.0), size, v);
  }

  /** With a sharp crease, the halves for a direction and its opposite cover exactly the sphere, if and only if
      the direction is long enough to be normalized; otherwise both halves face up. */
  lemma {:induction false} HalvesMakeSphereExactly(root: Root, flat: Vec3)
    requires IsSqrt(root)
    ensures (forall c: Vec3, radius: real, v: Vec3i :: HalvesMakeSphere(root, flat, c, radius, v))
            <==> LengthSquared(flat) > TOO_SHORT
  {
    if LengthSquared(flat) > TOO_SHORT {
      forall c: Vec3, radius: real, v: Vec3i
        ensures HalvesMakeSphere(root, flat, c, radius, v)
      {
        LongDirectionSplits(root, flat, c, radius, v);
      }
    } else {
      ShortDirectionMissesLowerHalf(root, flat);
    }
  }

  function Opposite(n: Vec3): Vec3 {
    Vec3(-n.x, -n.y, -n.z)
  }

  predicate HalvesMakeSphere(root: Root, flat: Vec3, c: Vec3, radius: real, v: Vec3i) {
    (radius >= 0.0 && Touches(root, Sphere(c, radius), v)) <==>
    (Touches(root, Hemisphere(c, radius, flat, 0.0), v) || Touches(root, Hemisphere(c, radius, Opposite(flat), 0.0), v))
  }

  lemma OppositeLength(n: Vec3)
    ensures LengthSquared(Opposite(n)) == LengthSquared(n)
  {
    OppositeSquare(n.x);
    OppositeSquare(n.y);
    OppositeSquare(n.z);
  }

  lemma OppositeSquare(d: real)
    ensures Square(-d) == Square(d)
  {
  }

  lemma OppositeProduct(a: real, b: real)
    ensures (-a) * b == -(a * b)
  {
  }

  lemma OppositeNormal(root: Root, flat: Vec3)
    requires LengthSquared(flat) > TOO_SHORT
    ensures FlatNormal(root, Opposite(flat)) == Opposite(FlatNormal(root, flat))
  {
    hide LengthSquared, Inverse, Scaled;
    OppositeLength(flat);
    OppositeScaled(flat, Inverse(root(LengthSquared(flat))));
  }

  lemma OppositeScaled(n: Vec3, k: real)
    ensures Scaled(Opposite(n), k) == Opposite(Scaled(n, k))
  {
    OppositeProduct(n.x, k);
    OppositeProduct(n.y, k);
    OppositeProduct(n.z, k);
  }

  lemma ShortNormal(root: Root, flat: Vec3)
    requires LengthSquared(flat) <= TOO_SHORT
    ensures FlatNormal(root, flat) == Vec3(0.0, 1.0, 0.0)
  {
  }

  lemma OppositePlane(p: Vec3, c: Vec3, n: Vec3)
    ensures PlaneDistance(p, c, Opposite(n)) == -PlaneDistance(p, c, n)
  {
  }

  lemma SharpSdf(root: Root, p: Vec3, c: Vec3, radius: real, flat: Vec3)
    ensures HemisphereSdf(root, p, c, radius, flat, 0.0)
            == MaxReal(root(DistanceSquared(p, c)) - radius, PlaneDistance(p, c, FlatNormal(root, flat)))
  {
    hide FlatNormal, PlaneDistance, DistanceSquared;
  }

  /**
   At smoothness 0 a hemisphere is the part of the ball behind the plane through its center that `flat`,
   or up if `flat` is too short, points away from: no square root, no normalized direction.
   */
  lemma {:induction false} SharpHemisphereIsHalfBall(root: Root, flat: Vec3, c: Vec3, radius: real, v: Vec3i)
    requires IsSqrt(root)
    ensures Touches(root, Hemisphere(c, radius, flat, 0.0), v) <==>
              && radius >= 0.0 && DistanceSquared(VoxelCenter(v), c) <= radius * radius
              && PlaneDistance(VoxelCenter(v), c, if LengthSquared(flat) > TOO_SHORT then flat else UP) <= 0.0
  {
    hide HemisphereSdf, PlaneDistance, DistanceSquared, VoxelCenter, IsSqrt, Inverse, Scaled, LengthSquared;
    var p := VoxelCenter(v);
    SharpSdf(root, p, c, radius, flat);
    DistanceIsNonnegative(p, c);
    RootBelow(root, DistanceSquared(p, c), radius);
    if LengthSquared(flat) > TOO_SHORT {
      InverseIsPositive(root(LengthSquared(flat)));
      ScaledPlane(p, c, flat, Inverse(root(LengthSquared(flat))));
    }
  }

  lemma InverseIsPositive(length: real)
    requires length > 0.0
    ensures Inverse(length) > 0.0
  {
  }

  lemma ScaledPlane(p: Vec3, c: Vec3, n: Vec3, k: real)
    requires k > 0.0
    ensures PlaneDistance(p, c, Scaled(n, k)) <= 0.0 <==> PlaneDistance(p, c, n) <= 0.0
  {
    assert PlaneDistance(p, c, Scaled(n, k)) == PlaneDistance(p, c, n) * k;
    SignOfProduct(PlaneDistance(p, c, n), k);
  }

  lemma {:induction false} LongDirectionSplits(root: Root, flat: Vec3, c: Vec3, radius: real, v: Vec3i)
    requires IsSqrt(root) && LengthSquared(flat) > TOO_SHORT
    ensures HalvesMakeSphere(root, flat, c, radius, v)
  {
    hide HemisphereSdf, PlaneDistance, FlatNormal, DistanceSquared, VoxelCenter, IsSqrt;
    var p := VoxelCenter(v);
    SharpSdf(root, p, c, radius, flat);
    SharpSdf(root, p, c, radius, Opposite(flat));
    OppositeNormal(root, flat);
    OppositePlane(p, c, FlatNormal(root, flat));
    DistanceIsNonnegative(p, c);
    RootBelow(root, DistanceSquared(p, c), radius);
    if radius >= 0.0 {
      SphereTouchesBall(root, c, radius, v);
    }
  }

  /** With a direction too short to normalize, neither half covers a point above the center. */
  lemma {:induction false} ShortDirectionMissesLowerHalf(root: Root, flat: Vec3)
    requires IsSqrt(root) && LengthSquared(flat) <= TOO_SHORT
    ensures !HalvesMakeSphere(root, flat, Vec3(0.5, 0.0, 0.5), 1.0, Vec3i(0, 0, 0))
  {
    hide HemisphereSdf, IsSqrt, FlatNormal, LengthSquared, Touches, PlaneDistance, DistanceSquared, VoxelCenter;
    var c, v := Vec3(0.5, 0.0, 0.5), Vec3i(0, 0, 0);
    PointAboveCenter(root);
    OppositeLength(flat);
    ShortNormal(root, flat);
    ShortNormal(root, Opposite(flat));
    HemisphereSdfBounds(root, VoxelCenter(v), c, 1.0, flat, 0.0);
    HemisphereSdfBounds(root, VoxelCenter(v), c, 1.0, Opposite(flat), 0.0);
    HemisphereTouchMeans(root, c, 1.0, flat, 0.0, v);
    HemisphereTouchMeans(root, c, 1.0, Opposite(flat), 0.0, v);
  }

  lemma PointAboveCenter(root: Root)
    ensures var c, v := Vec3(0.5, 0.0, 0.5), Vec3i(0, 0, 0);
            && Touches(root, Sphere(c, 1.0), v)
            && PlaneDistance(VoxelCenter(v), c, Vec3(0.0, 1.0, 0.0)) == 0.5
  {
    hide Touches, DistanceSquared, PlaneDistance;
    HalfAbove();
    SphereTouchesBall(root, Vec3(0.5, 0.0, 0.5), 1.0, Vec3i(0, 0, 0));
  }

  lemma HalfAbove()
    ensures DistanceSquared(Vec3(0.5, 0.5, 0.5), Vec3(0.5, 0.0, 0.5)) == 0.25
    ensures PlaneDistance(Vec3(0.5, 0.5, 0.5), Vec3(0.5, 0.0, 0.5), Vec3(0.0, 1.0, 0.0)) == 0.5
  {
  }

  lemma HemisphereTouchMeans(root: Root, c: Vec3, radius: real, flat: Vec3, smoothness: real, v: Vec3i)
    ensures Touches(root, Hemisphere(c, radius, flat, smoothness), v)
            <==> HemisphereSdf(root, VoxelCenter(v), c, radius, flat, smoothness) <= 0.0
    ensures forall size: Vec3i ::
              ShapeSdf(root, size, Hemisphere(c, radius, flat, smoothness), v)
              == HemisphereSdf(root, VoxelCenter(v), c, radius, flat, smoothness)
  {
    hide HemisphereSdf;
  }

  // ----- The loops -----

  /** The loop over a box has edited its voxels before `next`, and nothing else. */
  ghost predicate EditedUpTo(c: Channel, before: Grid, root: Root, e: Edit, lo: Vec3i, hi: Vec3i, next: Vec3i)
    reads c
  {
    forall v: Vec3i :: InBounds(Size(c), v) ==>
      && v in before
      && At(c, v) == if InBox(lo, hi, v) && Before(v, next) then Edited(root, Size(c), e, v, before[v]) else before[v]
  }

  method EditVoxel(c: Channel, x: int, y: int, z: int, sdf: real, mode: EditMode, value: int)
    requires InBounds(Size(c), Vec3i(x, y, z))
    modifies c
    ensures forall v: Vec3i :: InBounds(Size(c), v) ==>
              At(c, v) == if v == Vec3i(x, y, z) then EditCell(old(At(c, v)), sdf, mode, value) else old(At(c, v))
  {
    match c[x, y, z]
    case Sdf(existing) =>
      var blended := BlendSdf(existing, sdf, mode);
      c[x, y, z] := Sdf(blended);
    case Raw(current) =>
      match mode
      case Add =>
        if current == 0 {
          c[x, y, z] := Raw(value);
        }
      case Remove =>
        c[x, y, z] := Raw(0);
      case Set =>
        c[x, y, z] := Raw(value);
  }

  /** What the loop box leaves out, the shape does not touch. */
  ghost predicate BoxCovers(root: Root, size: Vec3i, shape: Shape, lo: Vec3i, hi: Vec3i) {
    forall v: Vec3i :: InBounds(size, v) && Touches(root, shape, v) ==> InBox(lo, hi, v)
  }

  lemma {:induction false} LoopIsEdit(c: Channel, before: Grid, root: Root, e: Edit, lo: Vec3i, hi: Vec3i)
    requires EditedUpTo(c, before, root, e, lo, hi, Vec3i(lo.x, lo.y, hi.z))
    requires BoxCovers(root, Size(c), e.shape, lo, hi)
    requires forall v: Vec3i :: v in before <==> InBounds(Size(c), v)
    ensures Contents(c) == EditGrid(root, Size(c), e, before)
  {
    hide Touches, ShapeSdf, EditCell;
    var after := EditGrid(root, Size(c), e, before);
    forall v: Vec3i | InBounds(Size(c), v)
      ensures At(c, v) == after[v]
    {
    }
  }

  lemma {:induction false} ClipKeepsInside(size: Vec3i, lo: Vec3i, hi: Vec3i, v: Vec3i)
    requires InBounds(size, v)
    ensures InBox(ClipLow(lo), ClipHigh(hi, size), v) <==> InBox(lo, hi, v)
  {
  }

  lemma SphereTouchMeans(root: Root, c: Vec3, radius: real, v: Vec3i)
    requires Touches(root, Sphere(c, radius), v)
    ensures DistanceSquared(VoxelCenter(v), c) <= radius * radius
    ensures radius >= 0.0 || InBox(FloorCorner(c, radius), CeilCorner(c, radius), v)
  {
  }

  /** The clipped bounding box of a sphere covers it. */
  lemma {:induction false} SphereBoxCovers(root: Root, size: Vec3i, c: Vec3, radius: real)
    requires IsI32(size.x) && IsI32(size.y) && IsI32(size.z)
    ensures BoxCovers(root, size, Sphere(c, radius), ClipLow(FloorCorner(c, radius)),
                      ClipHigh(CeilCorner(c, radius), size))
  {
    hide FloorCorner, CeilCorner, DistanceSquared, ClipLow, ClipHigh, Touches, InBox;
    forall v: Vec3i | InBounds(size, v) && Touches(root, Sphere(c, radius), v)
      ensures InBox(ClipLow(FloorCorner(c, radius)), ClipHigh(CeilCorner(c, radius), size), v)
    {
      SphereTouchMeans(root, c, radius, v);
      ClipKeepsInside(size, FloorCorner(c, radius), CeilCorner(c, radius), v);
      if radius >= 0.0 {
        PaddedBoxCovers(c, radius, radius, size, v);
      }
    }
  }

  /** The loop body: edits the voxel if the shape touches it. */
  method EditNext(c: Channel, ghost before: Grid, ghost root: Root, ghost e: Edit, ghost lo: Vec3i, ghost hi: Vec3i,
                  x: int, y: int, z: int, touched: bool, sdf: real, mode: EditMode, value: int)
    requires InBounds(Size(c), Vec3i(x, y, z)) && InBox(lo, hi, Vec3i(x, y, z))
    requires EditedUpTo(c, before, root, e, lo, hi, Vec3i(x, y, z))
    requires mode == e.mode && value == e.value
    requires touched <==> Touches(root, e.shape, Vec3i(x, y, z))
    requires touched ==> sdf == ShapeSdf(root, Size(c), e.shape, Vec3i(x, y, z))
    modifies c
    ensures EditedUpTo(c, before, root, e, lo, hi, Vec3i(x + 1, y, z))
  {
    hide Touches, ShapeSdf, EditCell;
    if touched {
      EditVoxel(c, x, y, z, sdf, mode, value);
    }
  }

  lemma RowEdited(c: Channel, before: Grid, root: Root, e: Edit, lo: Vec3i, hi: Vec3i, y: int, z: int)
    requires EditedUpTo(c, before, root, e, lo, hi, Vec3i(hi.x, y, z))
    ensures EditedUpTo(c, before, root, e, lo, hi, Vec3i(lo.x, y + 1, z))
  {
    hide Edited;
  }

  lemma LayerEdited(c: Channel, before: Grid, root: Root, e: Edit, lo: Vec3i, hi: Vec3i, z: int)
    requires EditedUpTo(c, before, root, e, lo, hi, Vec3i(lo.x, hi.y, z))
    ensures EditedUpTo(c, before, root, e, lo, hi, Vec3i(lo.x, lo.y, z + 1))
  {
    hide Edited;
  }

  lemma NothingEdited(c: Channel, root: Root, e: Edit, lo: Vec3i, hi: Vec3i)
    ensures EditedUpTo(c, Contents(c), root, e, lo, hi, lo)
  {
    hide Edited;
  }

  method DoSphere(c: Channel, root: Root, mode: EditMode, value: int, center: Vec3, radius: real)
    requires IsI32(c.Length0) && IsI32(c.Length1) && IsI32(c.Length2)
    modifies c
    ensures Contents(c) == EditGrid(root, Size(c), Edit(Sphere(center, radius), mode, value), old(Contents(c)))
  {
    hide EditedUpTo, BoxCovers, EditGrid, Touches, FloorCorner, CeilCorner, DistanceSquared, VoxelCenter, HemisphereSdf,
      ClipLow, ClipHigh;
    ghost var e, before := Edit(Sphere(center, radius), mode, value), Contents(c);
    var lo := ClipLow(FloorCorner(center, radius));
    var hi := ClipHigh(CeilCorner(center, radius), Size(c));
    SphereBoxCovers(root, Size(c), center, radius);
    NothingEdited(c, root, e, lo, hi);
    if lo.x >= hi.x || lo.y >= hi.y || lo.z >= hi.z {
      EmptyLoop(c, before, root, e, lo, hi);
      return;
    }
    var r2 := radius * radius;
    for z := lo.z to hi.z
      invariant EditedUpTo(c, before, root, e, lo, hi, Vec3i(lo.x, lo.y, z))
    {
      for y := lo.y to hi.y
        invariant EditedUpTo(c, before, root, e, lo, hi, Vec3i(lo.x, y, z))
      {
        for x := lo.x to hi.x
          invariant EditedUpTo(c, before, root, e, lo, hi, Vec3i(x, y, z))
        {
          var distSq := DistanceToCenter(x, y, z, center);
          ClipIsInside(Size(c), FloorCorner(center, radius), CeilCorner(center, radius), Vec3i(x, y, z));
          SphereBoxTouch(root, Size(c), center, radius, Vec3i(x, y, z));
          EditNext(c, before, root, e, lo, hi, x, y, z, distSq <= r2, root(distSq) - radius, mode, value);
        }
        RowEdited(c, before, root, e, lo, hi, y, z);
      }
      LayerEdited(c, before, root, e, lo, hi, z);
    }
    LoopIsEdit(c, before, root, e, lo, hi);
  }

  lemma {:induction false} SphereBoxTouch(root: Root, size: Vec3i, c: Vec3, radius: real, v: Vec3i)
    requires InBox(ClipLow(FloorCorner(c, radius)), ClipHigh(CeilCorner(c, radius), size), v)
    ensures Touches(root, Sphere(c, radius), v) <==> DistanceSquared(VoxelCenter(v), c) <= radius * radius
  {
    hide FloorCorner, CeilCorner, DistanceSquared, InBox, ClipLow, ClipHigh, Touches;
    ClipIsInside(size, FloorCorner(c, radius), CeilCorner(c, radius), v);
    if DistanceSquared(VoxelCenter(v), c) <= radius * radius {
      SphereTouchFrom(root, c, radius, v);
    }
    if Touches(root, Sphere(c, radius), v) {
      SphereTouchMeans(root, c, radius, v);
    }
  }

  lemma SphereTouchFrom(root: Root, c: Vec3, radius: real, v: Vec3i)
    requires DistanceSquared(VoxelCenter(v), c) <= radius * radius
    requires InBox(FloorCorner(c, radius), CeilCorner(c, radius), v)
    ensures Touches(root, Sphere(c, radius), v)
  {
    hide DistanceSquared, VoxelCenter, FloorCorner, CeilCorner, InBox, HemisphereSdf;
  }

  lemma ClipIsInside(size: Vec3i, lo: Vec3i, hi: Vec3i, v: Vec3i)
    requires InBox(ClipLow(lo), ClipHigh(hi, size), v)
    ensures InBounds(size, v) && InBox(lo, hi, v)
  {
  }

  method DistanceToCenter(x: int, y: int, z: int, center: Vec3) returns (distSq: real)
    ensures distSq == DistanceSquared(VoxelCenter(Vec3i(x, y, z)), center)
  {
    var dx := x as real + 0.5 - center.x;
    var dy := y as real + 0.5 - center.y;
    var dz := z as real + 0.5 - center.z;
    distSq := dx * dx + dy * dy + dz * dz;
  }

  lemma EmptyLoop(c: Channel, before: Grid, root: Root, e: Edit, lo: Vec3i, hi: Vec3i)
    requires EditedUpTo(c, before, root, e, lo, hi, lo) && (lo.x >= hi.x || lo.y >= hi.y || lo.z >= hi.z)
    requires BoxCovers(root, Size(c), e.shape, lo, hi) && forall v: Vec3i :: v in before <==> InBounds(Size(c), v)
    ensures Contents(c) == EditGrid(root, Size(c), e, before)
  {
    hide Touches, ShapeSdf, EditCell;
    assert EditedUpTo(c, before, root, e, lo, hi, Vec3i(lo.x, lo.y, hi.z));
    LoopIsEdit(c, before, root, e, lo, hi);
  }

  method DoBox(c: Channel, ghost root: Root, mode: EditMode, value: int, min: Vec3i, max: Vec3i)
    returns (ghost visited: nat)
    modifies c
    ensures Contents(c) == EditGrid(root, Size(c), Edit(Box(min, max), mode, value), old(Contents(c)))
    ensures visited == ClippedVolume(Size(c), min, max)
  {
    hide EditedUpTo, BoxCovers, EditGrid, Touches, DistanceSquared, VoxelCenter, HemisphereSdf, SdfBox;
    ghost var e, before := Edit(Box(min, max), mode, value), Contents(c);
    visited := 0;
    var lo := ClipLow(min);
    var hi := ClipHigh(max, Size(c));
    BoxIsCovered(root, Size(c), min, max);
    NothingEdited(c, root, e, lo, hi);
    if lo.x >= hi.x || lo.y >= hi.y || lo.z >= hi.z {
      EmptyLoop(c, before, root, e, lo, hi);
      return;
    }
    ghost var width, height := hi.x - lo.x, hi.y - lo.y;
    for z := lo.z to hi.z
      invariant EditedUpTo(c, before, root, e, lo, hi, Vec3i(lo.x, lo.y, z))
      invariant visited == (z - lo.z) * (height * width)
    {
      for y := lo.y to hi.y
        invariant EditedUpTo(c, before, root, e, lo, hi, Vec3i(lo.x, y, z))
        invariant visited == (z - lo.z) * (height * width) + (y - lo.y) * width
      {
        for x := lo.x to hi.x
          invariant EditedUpTo(c, before, root, e, lo, hi, Vec3i(x, y, z))
          invariant visited == (z - lo.z) * (height * width) + (y - lo.y) * width + x - lo.x
        {
          var pos := Vec3i(x, y, z);
          BoxTouch(root, Size(c), min, max, pos);
          var sdf := SdfBox(pos, lo, hi);
          EditNext(c, before, root, e, lo, hi, x, y, z, true, sdf, mode, value);
          visited := visited + 1;
        }
        RowEdited(c, before, root, e, lo, hi, y, z);
        OneMore(y - lo.y, width);
      }
      LayerEdited(c, before, root, e, lo, hi, z);
      OneMore(z - lo.z, height * width);
    }
    LoopIsEdit(c, before, root, e, lo, hi);
  }

  /** The number of voxels of a box that lie in the buffer. */
  function ClippedVolume(size: Vec3i, lo: Vec3i, hi: Vec3i): int {
    var l, h := ClipLow(lo), ClipHigh(hi, size);
    if l.x >= h.x || l.y >= h.y || l.z >= h.z then 0 else (h.z - l.z) * ((h.y - l.y) * (h.x - l.x))
  }

  lemma BoxTouch(root: Root, size: Vec3i, lo: Vec3i, hi: Vec3i, v: Vec3i)
    requires InBox(ClipLow(lo), ClipHigh(hi, size), v)
    ensures Touches(root, Box(lo, hi), v)
  {
  }

  lemma {:induction false} BoxIsCovered(root: Root, size: Vec3i, lo: Vec3i, hi: Vec3i)
    ensures BoxCovers(root, size, Box(lo, hi), ClipLow(lo), ClipHigh(hi, size))
  {
  }

  method DoHemisphere(c: Channel, root: Root, mode: EditMode, value: int, center: Vec3, radius: real, flat: Vec3,
                      smoothness: real)
    requires IsSqrt(root) && IsI32(c.Length0) && IsI32(c.Length1) && IsI32(c.Length2)
    modifies c
    ensures Contents(c)
            == EditGrid(root, Size(c), Edit(Hemisphere(center, radius, flat, smoothness), mode, value),
                old(Contents(c)))
  {
    hide EditedUpTo, BoxCovers, EditGrid, Touches, FloorCorner, CeilCorner, HemisphereSdf, IsSqrt, ShapeSdf,
      VoxelCenter, ClipLow, ClipHigh;
    ghost var e, before := Edit(Hemisphere(center, radius, flat, smoothness), mode, value), Contents(c);
    var pad := radius + MaxReal(smoothness, 0.0);
    var lo := ClipLow(FloorCorner(center, pad));
    var hi := ClipHigh(CeilCorner(center, pad), Size(c));
    HemisphereIsCovered(root, Size(c), center, radius, flat, smoothness);
    NothingEdited(c, root, e, lo, hi);
    if lo.x >= hi.x || lo.y >= hi.y || lo.z >= hi.z {
      EmptyLoop(c, before, root, e, lo, hi);
      return;
    }
    for z := lo.z to hi.z
      invariant EditedUpTo(c, before, root, e, lo, hi, Vec3i(lo.x, lo.y, z))
    {
      for y := lo.y to hi.y
        invariant EditedUpTo(c, before, root, e, lo, hi, Vec3i(lo.x, y, z))
      {
        for x := lo.x to hi.x
          invariant EditedUpTo(c, before, root, e, lo, hi, Vec3i(x, y, z))
        {
          var point := VoxelCenter(Vec3i(x, y, z));
          ClipIsInside(Size(c), FloorCorner(center, pad), CeilCorner(center, pad), Vec3i(x, y, z));
          var sdf := HemisphereSdf(root, point, center, radius, flat, smoothness);
          HemisphereTouchMeans(root, center, radius, flat, smoothness, Vec3i(x, y, z));
          EditNext(c, before, root, e, lo, hi, x, y, z, sdf <= 0.0, sdf, mode, value);
        }
        RowEdited(c, before, root, e, lo, hi, y, z);
      }
      LayerEdited(c, before, root, e, lo, hi, z);
    }
    LoopIsEdit(c, before, root, e, lo, hi);
  }

  /** The padded, clipped bounding box of a hemisphere covers it. */
  lemma {:induction false} HemisphereIsCovered(root: Root, size: Vec3i, c: Vec3, radius: real, flat: Vec3,
                                               smoothness: real)
    requires IsSqrt(root) && IsI32(size.x) && IsI32(size.y) && IsI32(size.z)
    ensures var pad := radius + MaxReal(smoothness, 0.0);
            BoxCovers(root, size, Hemisphere(c, radius, flat, smoothness), ClipLow(FloorCorner(c, pad)),
                      ClipHigh(CeilCorner(c, pad), size))
  {
    hide FloorCorner, CeilCorner, ClipLow, ClipHigh, Touches, InBox, IsSqrt;
    var pad := radius + MaxReal(smoothness, 0.0);
    forall v: Vec3i | InBounds(size, v) && Touches(root, Hemisphere(c, radius, flat, smoothness), v)
      ensures InBox(ClipLow(FloorCorner(c, pad)), ClipHigh(CeilCorner(c, pad), size), v)
    {
      HemisphereBoxCovers(root, c, radius, flat, smoothness, size, v);
      ClipKeepsInside(size, FloorCorner(c, pad), CeilCorner(c, pad), v);
    }
  }

  // ----- What an edit leaves behind -----

  /**
   After an edit with any shape: only touched voxels change; a touched id is zero after Remove, the value after Set,
   and after Add the value if it was air and itself if not.
   */
  lemma {:induction false} EditedIds(root: Root, size: Vec3i, g: Grid, shape: Shape, value: int, v: Vec3i, id: int)
    requires v in g && g[v] == Raw(id)
    ensures var added := EditGrid(root, size, Edit(shape, Add, value), g);
            var removed := EditGrid(root, size, Edit(shape, Remove, value), g);
            var replaced := EditGrid(root, size, Edit(shape, Set, value), g);
            && added.Keys == removed.Keys == replaced.Keys == g.Keys
            && (!Touches(root, shape, v) ==> added[v] == removed[v] == replaced[v] == Raw(id))
            && (Touches(root, shape, v) ==>
                  && removed[v] == Raw(0) && replaced[v] == Raw(value)
                  && added[v] == if id == 0 then Raw(value) else Raw(id))
  {
    hide Touches, ShapeSdf;
  }

  /**
   A touched distance is the smaller of the old one and the shape's after Add, the larger of the old one and minus
   the shape's after Remove, and the shape's after Set.
   */
  lemma {:induction false} EditedDistances(root: Root, size: Vec3i, g: Grid, shape: Shape, value: int, v: Vec3i,
                                         d: real)
    requires v in g && g[v] == Sdf(d)
    ensures var added := EditGrid(root, size, Edit(shape, Add, value), g);
            var removed := EditGrid(root, size, Edit(shape, Remove, value), g);
            var replaced := EditGrid(root, size, Edit(shape, Set, value), g);
            var s := ShapeSdf(root, size, shape, v);
            && added.Keys == removed.Keys == replaced.Keys == g.Keys
            && (!Touches(root, shape, v) ==> added[v] == removed[v] == replaced[v] == Sdf(d))
            && (Touches(root, shape, v) ==>
                  && added[v] == (if s < d then Sdf(s) else Sdf(d))
                  && removed[v] == (if -s > d then Sdf(-s) else Sdf(d))
                  && replaced[v] == Sdf(s))
  {
    hide Touches, ShapeSdf;
  }

  /** The squared distance from the center of a voxel to a point. */
  function FromCenter(v: Vec3i, c: Vec3): real {
    var dx, dy, dz := v.x as real + 0.5 - c.x, v.y as real + 0.5 - c.y, v.z as real + 0.5 - c.z;
    dx * dx + dy * dy + dz * dz
  }

  /**
   A sphere touches the voxels whose centers lie in the ball. One of negative radius touches a voxel whose center
   lies in the ball of the opposite radius, if that ball lies strictly inside the voxel.
   */
  lemma {:induction false} SphereTouchesExactly(root: Root, c: Vec3, r: real, v: Vec3i)
    requires 0 <= v.x < I32_MAX && 0 <= v.y < I32_MAX && 0 <= v.z < I32_MAX
    ensures Touches(root, Sphere(c, r), v) <==>
              && FromCenter(v, c) <= r * r
              && (r < 0.0 ==>
                    && v.x as real < c.x + r && c.x - r < (v.x + 1) as real
                    && v.y as real < c.y + r && c.y - r < (v.y + 1) as real
                    && v.z as real < c.z + r && c.z - r < (v.z + 1) as real)
  {
    FromCenterIs(v, c);
    BallInVoxel(c, r, v);
    SphereTouchIs(root, c, r, v);
    hide Touches, FromCenter, DistanceSquared, VoxelCenter, FloorCorner, CeilCorner, InBox;
  }

  lemma FromCenterIs(v: Vec3i, c: Vec3)
    ensures FromCenter(v, c) == DistanceSquared(VoxelCenter(v), c)
  {
  }

  lemma SphereTouchIs(root: Root, c: Vec3, r: real, v: Vec3i)
    ensures Touches(root, Sphere(c, r), v) <==>
              DistanceSquared(VoxelCenter(v), c) <= r * r && (r >= 0.0 || InBox(FloorCorner(c, r), CeilCorner(c, r), v))
  {
    hide DistanceSquared, VoxelCenter, FloorCorner, CeilCorner, InBox, HemisphereSdf;
  }

  lemma {:induction false} BallInVoxel(c: Vec3, r: real, v: Vec3i)
    requires 0 <= v.x < I32_MAX && 0 <= v.y < I32_MAX && 0 <= v.z < I32_MAX
    ensures InBox(FloorCorner(c, r), CeilCorner(c, r), v) <==>
              && v.x as real < c.x + r && c.x - r < (v.x + 1) as real
              && v.y as real < c.y + r && c.y - r < (v.y + 1) as real
              && v.z as real < c.z + r && c.z - r < (v.z + 1) as real
  {
    hide SaturateI32, Ceil;
    StrictlyInside(c.x, r, v.x);
    StrictlyInside(c.y, r, v.y);
    StrictlyInside(c.z, r, v.z);
  }

  lemma StrictlyInside(c: real, r: real, x: int)
    requires 0 <= x < I32_MAX
    ensures SaturateI32((c - r).Floor) <= x < SaturateI32(Ceil(c + r))
            <==> x as real < c + r && c - r < (x + 1) as real
  {
  }

  /** A sphere's distance is the distance from its center to the voxel's, less the radius. */
  lemma {:induction false} SphereDistance(root: Root, size: Vec3i, c: Vec3, r: real, v: Vec3i)
    requires IsSqrt(root)
    ensures var fromCenter := ShapeSdf(root, size, Sphere(c, r), v) + r;
            fromCenter >= 0.0 && fromCenter * fromCenter == FromCenter(v, c)
  {
    FromCenterIs(v, c);
    DistanceIsNonnegative(VoxelCenter(v), c);
    hide FromCenter, DistanceSquared, VoxelCenter, HemisphereSdf, SdfBox;
  }

  /** A box touches the voxels between its corners, with the high ones left out. */
  lemma BoxTouchesExactly(root: Root, lo: Vec3i, hi: Vec3i, v: Vec3i)
    ensures Touches(root, Box(lo, hi), v) <==>
              lo.x <= v.x && v.x < hi.x && lo.y <= v.y && v.y < hi.y && lo.z <= v.z && v.z < hi.z
  {
    hide HemisphereSdf;
  }

  /**
   A hemisphere's distance is the smooth intersection of the sphere's distance and the distance to its flat face.
   It touches the voxels where that is not positive.
   */
  lemma {:induction false} HemisphereDistance(root: Root, size: Vec3i, c: Vec3, r: real, flat: Vec3, smoothness: real,
                                              v: Vec3i)
    ensures var s := ShapeSdf(root, size, Hemisphere(c, r, flat, smoothness), v);
            && s == SmoothIntersection(ShapeSdf(root, size, Sphere(c, r), v),
                                       PlaneDistance(VoxelCenter(v), c, FlatNormal(root, flat)),
                                       if smoothness > 0.0 then smoothness else 0.0)
            && (Touches(root, Hemisphere(c, r, flat, smoothness), v) <==> s <= 0.0)
  {
    hide DistanceSquared, FlatNormal, PlaneDistance, SmoothIntersection, SdfBox;
  }

  /**
   The distance to the flat face, times the length of the direction, is the direction's dot product with the offset
   from the center. A direction too short to normalize counts as up.
   */
  lemma {:induction false} FaceIsAlongDirection(root: Root, c: Vec3, flat: Vec3, v: Vec3i)
    ensures var offset := Vec3(v.x as real + 0.5 - c.x, v.y as real + 0.5 - c.y, v.z as real + 0.5 - c.z);
            var plane := PlaneDistance(VoxelCenter(v), c, FlatNormal(root, flat));
            if Dot(flat, flat) > 0.000_000_000_000_000_1 then plane * root(Dot(flat, flat)) == Dot(offset, flat)
            else plane == offset.y
  {
    var offset := Vec3(v.x as real + 0.5 - c.x, v.y as real + 0.5 - c.y, v.z as real + 0.5 - c.z);
    PlaneAlong(root, VoxelCenter(v), c, flat, offset);
    hide FlatNormal, PlaneDistance, Dot, VoxelCenter;
  }

  function Dot(a: Vec3, b: Vec3): real {
    a.x * b.x + a.y * b.y + a.z * b.z
  }

  lemma DotIsLengthSquared(n: Vec3)
    ensures LengthSquared(n) == Dot(n, n)
  {
  }

  lemma {:induction false} PlaneAlong(root: Root, p: Vec3, c: Vec3, flat: Vec3, offset: Vec3)
    requires offset == Vec3(p.x - c.x, p.y - c.y, p.z - c.z)
    ensures var plane := PlaneDistance(p, c, FlatNormal(root, flat));
            if Dot(flat, flat) > TOO_SHORT then plane * root(Dot(flat, flat)) == Dot(offset, flat)
            else plane == offset.y
  {
    var square := Dot(flat, flat);
    PlaneUp(p, c);
    DotIsLengthSquared(flat);
    hide LengthSquared, Dot, Inverse, PlaneDistance, Scaled;
    if square > TOO_SHORT {
      ScaledIsDot(p, c, flat, Inverse(root(square)));
      Unscaled(Dot(offset, flat), root(square));
    }
  }

  lemma PlaneUp(p: Vec3, c: Vec3)
    ensures PlaneDistance(p, c, UP) == p.y - c.y
  {
  }

  lemma ScaledIsDot(p: Vec3, c: Vec3, n: Vec3, k: real)
    ensures PlaneDistance(p, c, Scaled(n, k)) == Dot(Vec3(p.x - c.x, p.y - c.y, p.z - c.z), n) * k
  {
    ProductMoves(p.x - c.x, n.x, k);
    ProductMoves(p.y - c.y, n.y, k);
    ProductMoves(p.z - c.z, n.z, k);
  }

  lemma ProductMoves(a: real, b: real, k: real)
    ensures a * (b * k) == (a * b) * k
  {
  }

  lemma Unscaled(a: real, length: real)
    requires length > 0.0
    ensures (a * Inverse(length)) * length == a
  {
    assert Inverse(length) * length == 1.0;
    ProductMoves(a, Inverse(length), length);
  }

  // ----- The algebra of edits -----

  /** An air voxel of an id channel that both edits would fill, each with another solid id. */
  ghost predicate Contested(root: Root, g: Grid, a: Edit, b: Edit, v: Vec3i) {
    && v in g && g[v] == Raw(0) && Touches(root, a.shape, v) && Touches(root, b.shape, v)
    && a.value != b.value && a.value != 0 && b.value != 0
  }

  /** Two Removes of any shapes commute, and two Adds do exactly when no air voxel is contested. */
  lemma {:induction false} EditsCommuteExactly(root: Root, size: Vec3i, g: Grid, a: Edit, b: Edit)
    requires a.mode == b.mode && a.mode != Set
    ensures EditGrid(root, size, b, EditGrid(root, size, a, g)) == EditGrid(root, size, a, EditGrid(root, size, b, g))
            <==> a.mode == Remove || forall v: Vec3i :: !Contested(root, g, a, b, v)
  {
    hide Touches, ShapeSdf, EditCell;
    var ab := EditGrid(root, size, b, EditGrid(root, size, a, g));
    var ba := EditGrid(root, size, a, EditGrid(root, size, b, g));
    forall v: Vec3i | v in g
      ensures ab[v] == ba[v] <==> a.mode == Remove || !Contested(root, g, a, b, v)
    {
      CellEditsCommute(g[v], ShapeSdf(root, size, a.shape, v), ShapeSdf(root, size, b.shape, v), a, b);
    }
  }

  lemma CellEditsCommute(cell: Voxel, s: real, t: real, a: Edit, b: Edit)
    requires a.mode == b.mode && a.mode != Set
    ensures EditCell(EditCell(cell, s, a.mode, a.value), t, b.mode, b.value)
            == EditCell(EditCell(cell, t, b.mode, b.value), s, a.mode, a.value)
            <==> a.mode == Remove || !(cell == Raw(0) && a.value != b.value && a.value != 0 && b.value != 0)
  {
  }

  /** Repeating an edit changes nothing. */
  lemma {:induction false} EditIsIdempotent(root: Root, size: Vec3i, g: Grid, e: Edit)
    ensures EditGrid(root, size, e, EditGrid(root, size, e, g)) == EditGrid(root, size, e, g)
  {
    hide Touches, ShapeSdf;
  }

  /** On distances, Add only lowers and Remove only raises; only touched voxels change. */
  lemma {:induction false} EditMovesOneWay(root: Root, size: Vec3i, g: Grid, e: Edit, v: Vec3i)
    requires v in g
    ensures var after := EditGrid(root, size, e, g);
            && v in after
            && (!Touches(root, e.shape, v) ==> after[v] == g[v])
            && (g[v].Sdf? && e.mode == Add ==> after[v].Sdf? && after[v].distance <= g[v].distance)
            && (g[v].Sdf? && e.mode == Remove ==> after[v].Sdf? && after[v].distance >= g[v].distance)
  {
    hide Touches, ShapeSdf;
  }

  /** The smaller of the distances from a voxel center to the two faces of an interval. */
  function FaceDistance(pos: int, lo: int, hi: int): real {
    MinReal(pos as real + 0.5 - lo as real, hi as real - (pos as real + 0.5))
  }

  /** The distance from a voxel center to the nearest of the six faces of a box. */
  function NearestFace(v: Vec3i, lo: Vec3i, hi: Vec3i): real {
    MinReal(MinReal(FaceDistance(v.x, lo.x, hi.x), FaceDistance(v.y, lo.y, hi.y)), FaceDistance(v.z, lo.z, hi.z))
  }

  lemma AxisSdfIsFaceDistance(pos: int, lo: int, hi: int)
    ensures AxisSdf(pos, lo, hi) == -FaceDistance(pos, lo, hi)
    ensures lo <= pos < hi ==> FaceDistance(pos, lo, hi) >= 0.5
  {
  }

  /** The box distance is minus the distance to the nearest face, and at most -1/2 inside. */
  lemma {:induction false} SdfBoxIsNearestFace(v: Vec3i, lo: Vec3i, hi: Vec3i)
    ensures SdfBox(v, lo, hi) == -NearestFace(v, lo, hi)
    ensures InBox(lo, hi, v) ==> SdfBox(v, lo, hi) <= -0.5
  {
    AxisSdfIsFaceDistance(v.x, lo.x, hi.x);
    AxisSdfIsFaceDistance(v.y, lo.y, hi.y);
    AxisSdfIsFaceDistance(v.z, lo.z, hi.z);
  }

  /**
   Clipping a box to the buffer intersects the two: its distance is unchanged exactly at the voxels that no
   border of the buffer is nearer to than every face of the box is.
   */
  lemma {:induction false} ClippedBoxDistance(root: Root, size: Vec3i, lo: Vec3i, hi: Vec3i, v: Vec3i)
    ensures var origin := Vec3i(0, 0, 0);
            && ShapeSdf(root, size, Box(lo, hi), v) == MaxReal(SdfBox(v, lo, hi), SdfBox(v, origin, size))
            && (ShapeSdf(root, size, Box(lo, hi), v) == SdfBox(v, lo, hi) <==>
                  NearestFace(v, lo, hi) <= NearestFace(v, origin, size))
  {
    hide SdfBox, FaceDistance, ClipLow, ClipHigh;
    ClippedAxis(v.x, lo.x, hi.x, size.x);
    ClippedAxis(v.y, lo.y, hi.y, size.y);
    ClippedAxis(v.z, lo.z, hi.z, size.z);
    ClippedCorners(size, lo, hi);
    SdfBoxIsNearestFace(v, lo, hi);
    SdfBoxIsNearestFace(v, Vec3i(0, 0, 0), size);
    SdfBoxIsNearestFace(v, ClipLow(lo), ClipHigh(hi, size));
  }

  lemma ClippedCorners(size: Vec3i, lo: Vec3i, hi: Vec3i)
    ensures ClipLow(lo) == Vec3i(Max(lo.x, 0), Max(lo.y, 0), Max(lo.z, 0))
    ensures ClipHigh(hi, size) == Vec3i(Min(hi.x, size.x), Min(hi.y, size.y), Min(hi.z, size.z))
  {
  }

  lemma ClippedAxis(pos: int, lo: int, hi: int, size: int)
    ensures FaceDistance(pos, Max(lo, 0), Min(hi, size))
            == MinReal(FaceDistance(pos, lo, hi), FaceDistance(pos, 0, size))
  {
  }

  /** After a box Add every covered distance is at most -1/2; after a box Remove, at least 1/2. */
  lemma {:induction false} BoxEditsReachHalf(root: Root, size: Vec3i, g: Grid, lo: Vec3i, hi: Vec3i, mode: EditMode,
                                             value: int, v: Vec3i)
    requires v in g && g[v].Sdf? && InBounds(size, v) && InBox(lo, hi, v)
    ensures var after := EditGrid(root, size, Edit(Box(lo, hi), mode, value), g)[v].distance;
            && (mode == Add || mode == Set ==> after <= -0.5)
            && (mode == Remove ==> after >= 0.5)
  {
    hide SdfBox;
    ClipKeepsInside(size, lo, hi, v);
    SdfBoxIsNearestFace(v, ClipLow(lo), ClipHigh(hi, size));
  }
}
