/**
 Smoothing an SDF channel: each voxel inside a sphere of influence becomes the mean of a clipped
 cube of pre-edit values around it.

 The window bounds are computed in wrapping `i32` arithmetic, as a release build does.
 */
module Blur {
  import opened Geometry
  import opened Voxels

  /** How an 8-bit SDF channel reads and writes its raw cells as distances. */
  datatype Codec = Codec(read: int -> real, write: real -> int)

  function Read(q: Codec, cell: Voxel): real {
    match cell
    case Sdf(distance) => distance
    case Raw(id) => q.read(id)
  }

  /** The cell after a distance is written to it. */
  function Store(q: Codec, cell: Voxel, distance: real): Voxel {
    match cell
    case Sdf(_) => Sdf(distance)
    case Raw(_) => Raw(q.write(distance))
  }

  /** The distances an SDF channel holds, as they are read. */
  type Field = map<Vec3i, real>

  ghost function Distances(q: Codec, g: Grid): Field {
    map v: Vec3i | v in g :: Read(q, g[v])
  }

  function Value(d: Field, v: Vec3i): real {
    if v in d then d[v] else 0.0
  }

  // ----- The window -----

  function WindowLow(x: int, radius: int): int {
    Max(WrapI32(x - radius), 0)
  }

  function WindowHigh(x: int, radius: int, size: int): int {
    Min(WrapI32(x + radius + 1), size)
  }

  function LowCorner(v: Vec3i, radius: int): Vec3i {
    Vec3i(WindowLow(v.x, radius), WindowLow(v.y, radius), WindowLow(v.z, radius))
  }

  function HighCorner(v: Vec3i, radius: int, size: Vec3i): Vec3i {
    Vec3i(WindowHigh(v.x, radius, size.x), WindowHigh(v.y, radius, size.y), WindowHigh(v.z, radius, size.z))
  }

  function Extent(lo: int, hi: int): nat {
    if lo < hi then hi - lo else 0
  }

  function Volume(lo: Vec3i, hi: Vec3i): nat {
    Extent(lo.z, hi.z) * (Extent(lo.y, hi.y) * Extent(lo.x, hi.x))
  }

  // ----- Sums over boxes -----

  function SumRow(d: Field, lo: Vec3i, hiX: int, y: int, z: int): real
    decreases Extent(lo.x, hiX)
  {
    if hiX <= lo.x then 0.0 else SumRow(d, lo, hiX - 1, y, z) + Value(d, Vec3i(hiX - 1, y, z))
  }

  function SumLayer(d: Field, lo: Vec3i, hiX: int, hiY: int, z: int): real
    decreases Extent(lo.y, hiY)
  {
    if hiY <= lo.y then 0.0 else SumLayer(d, lo, hiX, hiY - 1, z) + SumRow(d, lo, hiX, hiY - 1, z)
  }

  function SumBox(d: Field, lo: Vec3i, hi: Vec3i): real
    decreases Extent(lo.z, hi.z)
  {
    if hi.z <= lo.z then 0.0 else SumBox(d, lo, hi.(z := hi.z - 1)) + SumLayer(d, lo, hi.x, hi.y, hi.z - 1)
  }

  // ----- What the blur does to every voxel -----

  predicate InInfluence(v: Vec3i, center: Vec3, sphereRadius: real) {
    var dx, dy, dz := v.x as real - center.x, v.y as real - center.y, v.z as real - center.z;
    dx * dx + dy * dy + dz * dz <= sphereRadius * sphereRadius
  }

  /** The mean over the window, or the old value when the window is empty. */
  function Averaged(d: Field, size: Vec3i, radius: int, v: Vec3i): real {
    var lo, hi := LowCorner(v, radius), HighCorner(v, radius, size);
    if Volume(lo, hi) > 0 then SumBox(d, lo, hi) / Volume(lo, hi) as real else Value(d, v)
  }

  /** The new distance of a voxel. */
  function Smoothed(d: Field, size: Vec3i, radius: int, center: Vec3, sphereRadius: real, v: Vec3i): real {
    if InInfluence(v, center, sphereRadius) then Averaged(d, size, radius, v) else Value(d, v)
  }

  ghost function BlurGrid(q: Codec, g: Grid, size: Vec3i, radius: int, center: Vec3, sphereRadius: real): Grid {
    map v: Vec3i | v in g :: Store(q, g[v], Smoothed(Distances(q, g), size, radius, center, sphereRadius, v))
  }

  // ----- The loops -----

  method RowSum(q: Codec, src: Channel, lo: Vec3i, hiX: int, y: int, z: int, start: real, startCount: nat)
    returns (sum: real, count: nat)
    requires 0 <= lo.x && hiX <= src.Length0 && 0 <= y < src.Length1 && 0 <= z < src.Length2
    ensures sum == start + SumRow(Distances(q, Contents(src)), lo, hiX, y, z)
    ensures count == startCount + Extent(lo.x, hiX)
  {
    sum, count := start, startCount;
    var x := lo.x;
    while x < hiX
      invariant lo.x <= x && (x <= hiX || x == lo.x)
      invariant sum == start + SumRow(Distances(q, Contents(src)), lo, x, y, z)
      invariant count == startCount + (x - lo.x)
    {
      assert src[x, y, z] == At(src, Vec3i(x, y, z));
      sum := sum + Read(q, src[x, y, z]);
      count := count + 1;
      x := x + 1;
    }
  }

  method LayerSum(q: Codec, src: Channel, lo: Vec3i, hi: Vec3i, z: int, start: real, startCount: nat)
    returns (sum: real, count: nat)
    requires 0 <= lo.x && 0 <= lo.y && 0 <= z < src.Length2
    requires hi.x <= src.Length0 && hi.y <= src.Length1
    ensures sum == start + SumLayer(Distances(q, Contents(src)), lo, hi.x, hi.y, z)
    ensures count == startCount + Extent(lo.y, hi.y) * Extent(lo.x, hi.x)
  {
    hide SumRow;
    sum, count := start, startCount;
    ghost var width := Extent(lo.x, hi.x);
    var y := lo.y;
    while y < hi.y
      invariant lo.y <= y && (y <= hi.y || y == lo.y)
      invariant sum == start + SumLayer(Distances(q, Contents(src)), lo, hi.x, y, z)
      invariant count == startCount + (y - lo.y) * width
    {
      sum, count := RowSum(q, src, lo, hi.x, y, z, sum, count);
      OneMore(y - lo.y, width);
      y := y + 1;
    }
  }

  method WindowSum(q: Codec, src: Channel, lo: Vec3i, hi: Vec3i) returns (sum: real, count: nat)
    requires 0 <= lo.x && 0 <= lo.y && 0 <= lo.z
    requires hi.x <= src.Length0 && hi.y <= src.Length1 && hi.z <= src.Length2
    ensures sum == SumBox(Distances(q, Contents(src)), lo, hi) && count == Volume(lo, hi)
  {
    hide SumLayer;
    sum, count := 0.0, 0;
    ghost var layer := Extent(lo.y, hi.y) * Extent(lo.x, hi.x);
    var z := lo.z;
    while z < hi.z
      invariant lo.z <= z && (z <= hi.z || z == lo.z)
      invariant sum == SumBox(Distances(q, Contents(src)), lo, hi.(z := z))
      invariant count == (z - lo.z) * layer
    {
      sum, count := LayerSum(q, src, lo, hi, z, sum, count);
      OneMore(z - lo.z, layer);
      z := z + 1;
      assert hi.(z := z).(z := z - 1) == hi.(z := z - 1);
    }
    assert hi.(z := hi.z) == hi;
    EmptyBox(Distances(q, Contents(src)), lo, hi, z);
  }

  lemma EmptyBox(d: Field, lo: Vec3i, hi: Vec3i, z: int)
    requires z == Max(lo.z, hi.z)
    ensures SumBox(d, lo, hi.(z := z)) == SumBox(d, lo, hi)
  {
    assert hi.(z := hi.z) == hi;
  }

  method BoxBlur(q: Codec, src: Channel, dst: Channel, radius: int, center: Vec3, sphereRadius: real)
    requires src != dst && Size(src) == Size(dst)
    modifies dst
    ensures Contents(dst) == BlurGrid(q, Contents(src), Size(src), radius, center, sphereRadius)
  {
    hide Smoothed, Store;
    ghost var g, size := Contents(src), Size(src);
    ghost var d := Distances(q, g);
    for z := 0 to src.Length2
      invariant forall v: Vec3i :: InBounds(size, v) && Before(v, Vec3i(0, 0, z)) ==>
        At(dst, v) == Store(q, g[v], Smoothed(d, size, radius, center, sphereRadius, v))
    {
      for y := 0 to src.Length1
        invariant forall v: Vec3i :: InBounds(size, v) && Before(v, Vec3i(0, y, z)) ==>
          At(dst, v) == Store(q, g[v], Smoothed(d, size, radius, center, sphereRadius, v))
      {
        for x := 0 to src.Length0
          invariant forall v: Vec3i :: InBounds(size, v) && Before(v, Vec3i(x, y, z)) ==>
            At(dst, v) == Store(q, g[v], Smoothed(d, size, radius, center, sphereRadius, v))
        {
          BlurVoxel(q, src, dst, radius, center, sphereRadius, x, y, z);
        }
      }
    }
    assert forall v: Vec3i :: InBounds(size, v) ==> Before(v, Vec3i(0, 0, src.Length2));
  }

  method IsFar(x: int, y: int, z: int, center: Vec3, sphereRadius: real) returns (far: bool)
    ensures far <==> !InInfluence(Vec3i(x, y, z), center, sphereRadius)
  {
    var dx, dy, dz := x as real - center.x, y as real - center.y, z as real - center.z;
    far := dx * dx + dy * dy + dz * dz > sphereRadius * sphereRadius;
  }

  lemma WindowInBuffer(v: Vec3i, radius: int, size: Vec3i)
    ensures var lo, hi := LowCorner(v, radius), HighCorner(v, radius, size);
            0 <= lo.x && 0 <= lo.y && 0 <= lo.z && hi.x <= size.x && hi.y <= size.y && hi.z <= size.z
  {
  }

  method BlurVoxel(q: Codec, src: Channel, dst: Channel, radius: int, center: Vec3, sphereRadius: real,
                   x: int, y: int, z: int)
    requires src != dst && Size(src) == Size(dst) && InBounds(Size(src), Vec3i(x, y, z))
    modifies dst
    ensures forall v: Vec3i :: InBounds(Size(dst), v) ==>
              At(dst, v) == if v == Vec3i(x, y, z)
                            then Store(q, At(src, v), Smoothed(Distances(q, Contents(src)), Size(src), radius, center,
                                                               sphereRadius, v))
                            else old(At(dst, v))
  {
    hide SumBox, Volume, InInfluence, WindowLow, WindowHigh, Store, Read;
    var current := src[x, y, z];
    assert current == At(src, Vec3i(x, y, z));
    var far := IsFar(x, y, z, center, sphereRadius);
    if far {
      Write(dst, x, y, z, Store(q, current, Read(q, current)));
      return;
    }
    var lo := Vec3i(WindowLow(x, radius), WindowLow(y, radius), WindowLow(z, radius));
    var hi := Vec3i(WindowHigh(x, radius, src.Length0), WindowHigh(y, radius, src.Length1),
                    WindowHigh(z, radius, src.Length2));
    WindowInBuffer(Vec3i(x, y, z), radius, Size(src));
    var sum, count := WindowSum(q, src, lo, hi);
    var average := if count > 0 then sum / count as real else Read(q, current);
    Write(dst, x, y, z, Store(q, current, average));
  }

  method DoSmooth(q: Codec, c: Channel, isSdf: bool, center: Vec3, radius: real, blurRadius: int)
    modifies c
    ensures Contents(c) == if !isSdf || radius < 0.0 then old(Contents(c))
                           else BlurGrid(q, old(Contents(c)), Size(c), Max(blurRadius, 0), center, radius)
  {
    if !isSdf || radius < 0.0 {
      return;
    }
    var src := new Voxel[c.Length0, c.Length1, c.Length2]((x, y, z)
      requires 0 <= x < c.Length0 && 0 <= y < c.Length1 && 0 <= z < c.Length2 reads c => c[x, y, z]);
    assert forall v: Vec3i :: InBounds(Size(c), v) ==> At(src, v) == At(c, v);
    assert Contents(src) == Contents(c);
    BoxBlur(q, src, c, Max(blurRadius, 0), center, radius);
  }

  // ----- The window is never empty, unless it overflows -----

  /** The window bounds fit `i32` on every axis. */
  predicate WindowFits(v: Vec3i, radius: int) {
    v.x + radius + 1 <= I32_MAX && v.y + radius + 1 <= I32_MAX && v.z + radius + 1 <= I32_MAX
  }

  lemma {:induction false} AxisWindow(x: int, radius: int, size: int)
    requires 0 <= x < size <= I32_MAX && 0 <= radius <= I32_MAX
    ensures WindowLow(x, radius) == Max(x - radius, 0)
    ensures if x + radius + 1 <= I32_MAX
            then WindowHigh(x, radius, size) == Min(x + radius + 1, size)
                && WindowLow(x, radius) <= x < WindowHigh(x, radius, size)
            else WindowHigh(x, radius, size) <= WindowLow(x, radius)
  {
  }

  lemma PositiveVolume(lo: Vec3i, hi: Vec3i)
    ensures Volume(lo, hi) > 0 <==> lo.x < hi.x && lo.y < hi.y && lo.z < hi.z
  {
    var a, b, c := Extent(lo.x, hi.x), Extent(lo.y, hi.y), Extent(lo.z, hi.z);
    if a > 0 && b > 0 && c > 0 {
      assert b * a > 0;
      assert c * (b * a) > 0;
    }
  }

  /** The fallback for an empty window is reached exactly when the window bounds overflow. */
  lemma {:induction false} WindowEmptyExactly(size: Vec3i, radius: int, v: Vec3i)
    requires InBounds(size, v) && size.x <= I32_MAX && size.y <= I32_MAX && size.z <= I32_MAX && 0 <= radius <= I32_MAX
    ensures Volume(LowCorner(v, radius), HighCorner(v, radius, size)) > 0 <==> WindowFits(v, radius)
  {
    AxisWindow(v.x, radius, size.x);
    AxisWindow(v.y, radius, size.y);
    AxisWindow(v.z, radius, size.z);
    PositiveVolume(LowCorner(v, radius), HighCorner(v, radius, size));
  }

  /** With the largest radius no window fits, so a voxel whose window should be the whole buffer keeps its value. */
  lemma HugeRadiusKeepsValue(d: Field)
    ensures var size, v := Vec3i(16, 16, 16), Vec3i(0, 0, 0);
            && Volume(LowCorner(v, I32_MAX), HighCorner(v, I32_MAX, size)) == 0
            && Averaged(d, size, I32_MAX, v) == Value(d, v)
  {
    WindowEmptyExactly(Vec3i(16, 16, 16), I32_MAX, Vec3i(0, 0, 0));
  }

  // ----- Bounds and fixed points -----

  /** Every value in the box lies between the bounds. */
  ghost predicate ValuesBetween(d: Field, lo: Vec3i, hi: Vec3i, a: real, b: real) {
    forall v: Vec3i :: InBox(lo, hi, v) ==> a <= Value(d, v) <= b
  }

  /** The total of `n` values equal to `a`. */
  function Times(n: nat, a: real): real {
    n as real * a
  }

  lemma TimesAdds(m: nat, n: nat, a: real)
    ensures Times(m + n, a) == Times(m, a) + Times(n, a)
    ensures Times(0, a) == 0.0 && Times(1, a) == a
  {
  }

  lemma {:induction false} RowBetween(d: Field, lo: Vec3i, hi: Vec3i, hiX: int, y: int, z: int, a: real, b: real)
    requires ValuesBetween(d, lo, hi, a, b) && hiX <= hi.x && lo.y <= y < hi.y && lo.z <= z < hi.z
    ensures Times(Extent(lo.x, hiX), a) <= SumRow(d, lo, hiX, y, z) <= Times(Extent(lo.x, hiX), b)
    decreases Extent(lo.x, hiX)
  {
    hide Times, Value;
    var n := Extent(lo.x, hiX - 1);
    TimesAdds(n, 1, a);
    TimesAdds(n, 1, b);
    if lo.x < hiX {
      RowBetween(d, lo, hi, hiX - 1, y, z, a, b);
      assert InBox(lo, hi, Vec3i(hiX - 1, y, z));
    }
  }

  lemma {:induction false} LayerBetween(d: Field, lo: Vec3i, hi: Vec3i, hiY: int, z: int, a: real, b: real)
    requires ValuesBetween(d, lo, hi, a, b) && hiY <= hi.y && lo.z <= z < hi.z
    ensures var n := Extent(lo.y, hiY) * Extent(lo.x, hi.x);
            Times(n, a) <= SumLayer(d, lo, hi.x, hiY, z) <= Times(n, b)
    decreases Extent(lo.y, hiY)
  {
    hide Times, SumRow, ValuesBetween;
    var k, width := Extent(lo.y, hiY - 1), Extent(lo.x, hi.x);
    TimesAdds(k * width, width, a);
    TimesAdds(k * width, width, b);
    OneMore(k, width);
    if lo.y < hiY {
      LayerBetween(d, lo, hi, hiY - 1, z, a, b);
      RowBetween(d, lo, hi, hi.x, hiY - 1, z, a, b);
      assert Extent(lo.y, hiY) * width == k * width + width;
    } else {
      assert Extent(lo.y, hiY) * width == 0;
    }
  }

  lemma {:induction false} BoxBetween(d: Field, lo: Vec3i, hi: Vec3i, hiZ: int, a: real, b: real)
    requires ValuesBetween(d, lo, hi, a, b) && hiZ <= hi.z
    ensures var n := Extent(lo.z, hiZ) * (Extent(lo.y, hi.y) * Extent(lo.x, hi.x));
            Times(n, a) <= SumBox(d, lo, hi.(z := hiZ)) <= Times(n, b)
    decreases Extent(lo.z, hiZ)
  {
    hide Times, SumLayer, ValuesBetween;
    var k, layer := Extent(lo.z, hiZ - 1), Extent(lo.y, hi.y) * Extent(lo.x, hi.x);
    TimesAdds(k * layer, layer, a);
    TimesAdds(k * layer, layer, b);
    OneMore(k, layer);
    if lo.z < hiZ {
      BoxBetween(d, lo, hi, hiZ - 1, a, b);
      LayerBetween(d, lo, hi, hi.y, hiZ - 1, a, b);
      assert hi.(z := hiZ).(z := hiZ - 1) == hi.(z := hiZ - 1);
      assert Extent(lo.z, hiZ) * layer == k * layer + layer;
    } else {
      assert Extent(lo.z, hiZ) * layer == 0;
    }
  }

  lemma MeanBetween(sum: real, n: nat, a: real, b: real)
    requires n > 0 && Times(n, a) <= sum <= Times(n, b)
    ensures a <= sum / n as real <= b
  {
    var q := sum / n as real;
    assert q * n as real == sum;
    Unscale(a, q, n as real);
    Unscale(q, b, n as real);
  }

  /** The result lies between any bounds on the values in the window. */
  lemma {:induction false} BlurStaysBetween(d: Field, size: Vec3i, radius: int, center: Vec3, sphereRadius: real,
                                            v: Vec3i, a: real, b: real)
    requires a <= Value(d, v) <= b
    requires ValuesBetween(d, LowCorner(v, radius), HighCorner(v, radius, size), a, b)
    ensures a <= Smoothed(d, size, radius, center, sphereRadius, v) <= b
  {
    hide InInfluence, LowCorner, HighCorner, SumBox, Times, Extent;
    var lo, hi := LowCorner(v, radius), HighCorner(v, radius, size);
    BoxBetween(d, lo, hi, hi.z, a, b);
    assert hi.(z := hi.z) == hi;
    if Volume(lo, hi) > 0 {
      MeanBetween(SumBox(d, lo, hi), Volume(lo, hi), a, b);
    }
  }

  /** A constant channel is a fixed point exactly when its cell survives being read and written. */
  lemma {:induction false} ConstantIsFixed(q: Codec, g: Grid, size: Vec3i, radius: int, center: Vec3,
                                           sphereRadius: real, cell: Voxel)
    requires forall v: Vec3i :: v in g <==> InBounds(size, v)
    requires forall v: Vec3i :: v in g ==> g[v] == cell
    ensures BlurGrid(q, g, size, radius, center, sphereRadius) == g
            <==> g == map[] || Store(q, cell, Read(q, cell)) == cell
    ensures cell.Sdf? ==> Store(q, cell, Read(q, cell)) == cell
  {
    hide Smoothed;
    var d, k := Distances(q, g), Read(q, cell);
    forall v: Vec3i | v in g
      ensures Smoothed(d, size, radius, center, sphereRadius, v) == k
    {
      ConstantField(d, size, radius, center, sphereRadius, v, k);
    }
    hide Store, Read;
    var blurred := BlurGrid(q, g, size, radius, center, sphereRadius);
    assert forall v: Vec3i :: v in g ==> blurred[v] == Store(q, cell, k);
    if g != map[] {
      var v: Vec3i :| v in g;
      assert blurred[v] == Store(q, cell, k) && g[v] == cell;
    }
  }

  lemma {:induction false} ConstantField(d: Field, size: Vec3i, radius: int, center: Vec3, sphereRadius: real,
                                         v: Vec3i, k: real)
    requires forall w: Vec3i :: w in d <==> InBounds(size, w)
    requires forall w: Vec3i :: w in d ==> d[w] == k
    requires v in d
    ensures Smoothed(d, size, radius, center, sphereRadius, v) == k
  {
    hide Smoothed, WindowLow, WindowHigh;
    WindowInBuffer(v, radius, size);
    BlurStaysBetween(d, size, radius, center, sphereRadius, v, k, k);
  }

  /**
   A voxel whose corner lies in the sphere, and whose window fits, gets the mean of the old values in the cube around
   it, clipped to the buffer. Every other voxel keeps its value.
   */
  lemma {:induction false} BlurIsMean(d: Field, size: Vec3i, radius: int, center: Vec3, sphereRadius: real, v: Vec3i)
    requires InBounds(size, v) && size.x <= I32_MAX && size.y <= I32_MAX && size.z <= I32_MAX && 0 <= radius <= I32_MAX
    ensures var r, corner := Smoothed(d, size, radius, center, sphereRadius, v),
                             Vec3(v.x as real, v.y as real, v.z as real);
            var lo := Vec3i(Max(v.x - radius, 0), Max(v.y - radius, 0), Max(v.z - radius, 0));
            var hi := Vec3i(Min(v.x + radius + 1, size.x), Min(v.y + radius + 1, size.y),
                            Min(v.z + radius + 1, size.z));
            if DistanceSquared(corner, center) <= Square(sphereRadius) && WindowFits(v, radius)
            then InBox(lo, hi, v) && IsMean(r, SumBox(d, lo, hi), (hi.z - lo.z) * ((hi.y - lo.y) * (hi.x - lo.x)))
            else r == Value(d, v)
  {
    InfluenceIs(v, center, sphereRadius);
    WindowEmptyExactly(size, radius, v);
    hide InInfluence, SumBox, LowCorner, HighCorner, DistanceSquared, Square, Volume, IsMean;
    if WindowFits(v, radius) {
      CornersAre(v, radius, size);
      var lo, hi := LowCorner(v, radius), HighCorner(v, radius, size);
      VolumeIs(lo, hi);
      if InInfluence(v, center, sphereRadius) {
        assert Smoothed(d, size, radius, center, sphereRadius, v) == SumBox(d, lo, hi) / Volume(lo, hi) as real;
        MeanTimesCount(SumBox(d, lo, hi), Volume(lo, hi));
      }
    }
  }

  lemma InfluenceIs(v: Vec3i, center: Vec3, sphereRadius: real)
    ensures InInfluence(v, center, sphereRadius) <==>
              DistanceSquared(Vec3(v.x as real, v.y as real, v.z as real), center) <= Square(sphereRadius)
  {
  }

  lemma MeanTimesCount(sum: real, n: nat)
    requires n > 0
    ensures IsMean(sum / n as real, sum, n)
  {
  }

  predicate IsMean(r: real, sum: real, count: int) {
    r * count as real == sum
  }

  lemma VolumeIs(lo: Vec3i, hi: Vec3i)
    requires lo.x < hi.x && lo.y < hi.y && lo.z < hi.z
    ensures Volume(lo, hi) == (hi.z - lo.z) * ((hi.y - lo.y) * (hi.x - lo.x)) > 0
  {
    PositiveVolume(lo, hi);
  }

  lemma {:induction false} CornersAre(v: Vec3i, radius: int, size: Vec3i)
    requires InBounds(size, v) && size.x <= I32_MAX && size.y <= I32_MAX && size.z <= I32_MAX && 0 <= radius <= I32_MAX
    requires WindowFits(v, radius)
    ensures LowCorner(v, radius) == Vec3i(Max(v.x - radius, 0), Max(v.y - radius, 0), Max(v.z - radius, 0))
    ensures HighCorner(v, radius, size)
            == Vec3i(Min(v.x + radius + 1, size.x), Min(v.y + radius + 1, size.y), Min(v.z + radius + 1, size.z))
    ensures InBox(LowCorner(v, radius), HighCorner(v, radius, size), v)
  {
    hide WindowLow, WindowHigh;
    AxisWindow(v.x, radius, size.x);
    AxisWindow(v.y, radius, size.y);
    AxisWindow(v.z, radius, size.z);
  }

  /** The blur reads every cell as a distance and writes every cell back in its own kind. */
  lemma {:induction false} BlurredCell(q: Codec, g: Grid, size: Vec3i, radius: int, center: Vec3, sphereRadius: real,
                                       v: Vec3i)
    requires v in g
    ensures var d := Distances(q, g);
            var s := Smoothed(d, size, radius, center, sphereRadius, v);
            && d.Keys == g.Keys && BlurGrid(q, g, size, radius, center, sphereRadius).Keys == g.Keys
            && (g[v].Sdf? ==> d[v] == g[v].distance && BlurGrid(q, g, size, radius, center, sphereRadius)[v] == Sdf(s))
            && (g[v].Raw? ==>
                  && d[v] == q.read(g[v].id)
                  && BlurGrid(q, g, size, radius, center, sphereRadius)[v] == Raw(q.write(s)))
  {
    hide Smoothed;
  }

  // ----- What the sums are -----

  /** Changing one voxel changes the sum over a box by the difference if the box holds the voxel, and not if not. */
  lemma {:induction false} SumCountsEachOnce(d: Field, lo: Vec3i, hi: Vec3i, w: Vec3i, a: real)
    ensures SumBox(d[w := a], lo, hi) - SumBox(d, lo, hi) == if InBox(lo, hi, w) then a - Value(d, w) else 0.0
    decreases Extent(lo.z, hi.z)
  {
    hide SumLayer, Value;
    if lo.z < hi.z {
      SumCountsEachOnce(d, lo, hi.(z := hi.z - 1), w, a);
      LayerCountsEachOnce(d, lo, hi.x, hi.y, hi.z - 1, w, a);
    }
  }

  lemma {:induction false} LayerCountsEachOnce(d: Field, lo: Vec3i, hiX: int, hiY: int, z: int, w: Vec3i, a: real)
    ensures SumLayer(d[w := a], lo, hiX, hiY, z) - SumLayer(d, lo, hiX, hiY, z)
            == if lo.x <= w.x < hiX && lo.y <= w.y < hiY && w.z == z then a - Value(d, w) else 0.0
    decreases Extent(lo.y, hiY)
  {
    hide SumRow, Value;
    if lo.y < hiY {
      LayerCountsEachOnce(d, lo, hiX, hiY - 1, z, w, a);
      RowCountsEachOnce(d, lo, hiX, hiY - 1, z, w, a);
    }
  }

  lemma {:induction false} RowCountsEachOnce(d: Field, lo: Vec3i, hiX: int, y: int, z: int, w: Vec3i, a: real)
    ensures SumRow(d[w := a], lo, hiX, y, z) - SumRow(d, lo, hiX, y, z)
            == if lo.x <= w.x < hiX && w.y == y && w.z == z then a - Value(d, w) else 0.0
    decreases Extent(lo.x, hiX)
  {
    if lo.x < hiX {
      RowCountsEachOnce(d, lo, hiX - 1, y, z, w, a);
    }
  }

  /** The sum over a box that holds no nonzero value is zero. */
  lemma {:induction false} SumOfNothing(lo: Vec3i, hi: Vec3i)
    ensures SumBox(map[], lo, hi) == 0.0
  {
    hide SumLayer, Times;
    BoxBetween(map[], lo, hi, hi.z, 0.0, 0.0);
    assert hi.(z := hi.z) == hi;
    assert forall n: nat :: Times(n, 0.0) == 0.0 by {
      ZeroTimes();
    }
  }

  lemma ZeroTimes()
    ensures forall n: nat :: Times(n, 0.0) == 0.0
  {
  }
}
