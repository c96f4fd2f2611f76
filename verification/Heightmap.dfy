/**
 Terrain from a height function: one sample per column, filled as solid ids below the surface
 or as distances to it, at any level of detail.
 */
module Heightmap {
  import opened Geometry
  import opened Voxels

  datatype Params = Params(useSdf: bool, matterType: int, heightStart: real, heightRange: real, isoScale: real,
                           offsetX: int, offsetZ: int)

  // ----- The rule, in world coordinates -----

  function Surface(height: (int, int) -> real, p: Params, worldX: int, worldZ: int): real {
    height(worldX, worldZ) * p.heightRange + p.heightStart
  }

  /** The lowest world coordinate that the voxel at `index` covers on an axis. */
  function WorldAt(origin: int, index: int, lod: nat): int {
    origin + index * Pow2(lod)
  }

  lemma WorldNext(origin: int, index: int, lod: nat)
    ensures WorldAt(origin, index + 1, lod) == WorldAt(origin, index, lod) + Pow2(lod)
  {
    OneMore(index, Pow2(lod));
  }

  lemma WorldIsMonotone(origin: int, i: int, j: int, lod: nat)
    requires i <= j
    ensures WorldAt(origin, i, lod) <= WorldAt(origin, j, lod)
    ensures i < j ==> WorldAt(origin, i, lod) < WorldAt(origin, j, lod)
  {
    ScaledOrder(i, j, Pow2(lod));
  }

  /** A voxel is solid when its top, `WorldAt(originY, y + 1, lod)`, is not above the surface. */
  predicate Solid(surface: real, originY: int, y: int, lod: nat) {
    WorldAt(originY, y + 1, lod) as real <= surface
  }

  function SurfaceOver(height: (int, int) -> real, p: Params, origin: Vec3i, lod: nat, v: Vec3i): real {
    Surface(height, p, WorldAt(origin.x - p.offsetX, v.x, lod), WorldAt(origin.z - p.offsetZ, v.z, lod))
  }

  /** The value the rule gives to voxel `v` of a block, which held `before`. */
  function Generated(height: (int, int) -> real, p: Params, origin: Vec3i, lod: nat, v: Vec3i, before: Voxel): Voxel {
    InColumn(p, SurfaceOver(height, p, origin, lod, v), origin.y, lod, v.y, before)
  }

  function InColumn(p: Params, surface: real, originY: int, lod: nat, y: int, before: Voxel): Voxel {
    if p.useSdf then Sdf(p.isoScale * (WorldAt(originY, y, lod) as real - surface))
    else if Solid(surface, originY, y, lod) then Raw(p.matterType)
    else before
  }

  /**
   The terrain in the caller's terms, apart from the code's own arithmetic: a distance is scaled from the gap
   between the voxel's bottom and the scaled sample of its column, and matter fills every voxel whose top is not
   above that sample.
   */
  function Terrain(height: (int, int) -> real, p: Params, origin: Vec3i, lod: nat, v: Vec3i, before: Voxel): Voxel {
    var sample := height(origin.x - p.offsetX + v.x * Pow2(lod), origin.z - p.offsetZ + v.z * Pow2(lod));
    var bottom, top := origin.y + v.y * Pow2(lod), origin.y + (v.y + 1) * Pow2(lod);
    if p.useSdf then Sdf(p.isoScale * (bottom as real - p.heightStart - p.heightRange * sample))
    else if top as real - p.heightStart <= p.heightRange * sample then Raw(p.matterType)
    else before
  }

  lemma {:induction false} GeneratedIsTerrain(height: (int, int) -> real, p: Params, origin: Vec3i, lod: nat, v: Vec3i,
                                              before: Voxel)
    ensures Generated(height, p, origin, lod, v, before) == Terrain(height, p, origin, lod, v, before)
  {
    hide Pow2;
    var sample := height(origin.x - p.offsetX + v.x * Pow2(lod), origin.z - p.offsetZ + v.z * Pow2(lod));
    var bottom := origin.y + v.y * Pow2(lod);
    assert SurfaceOver(height, p, origin, lod, v) == p.heightRange * sample + p.heightStart;
    assert bottom as real - (p.heightRange * sample + p.heightStart)
           == bottom as real - p.heightStart - p.heightRange * sample;
  }

  predicate AboveAllGround(p: Params, origin: Vec3i) {
    origin.y as real > p.heightStart + p.heightRange
  }

  predicate BelowAllGround(p: Params, origin: Vec3i, sizeY: int, lod: nat) {
    (WorldAt(origin.y, sizeY, lod) as real) < p.heightStart
  }

  function ClearValue(p: Params): Voxel {
    // Raw zero reads as distance zero.
    if p.useSdf then Sdf(0.0) else Raw(p.matterType)
  }

  // ----- The same in machine integers -----

  /** The coordinate that wrapping additions of the stride reach; `1 << lod` itself wraps. */
  function Running(origin: int, index: int, lod: nat): int {
    WrapI32(WorldAt(origin, index, lod))
  }

  /** The voxel is solid and the saturated column height can reach it. */
  predicate Filled(surface: real, originY: int, y: int, lod: nat) {
    Solid(surface, originY, y, lod) && (y + 1) * Pow2(lod) <= I32_MAX
  }

  function RunningSurface(height: (int, int) -> real, p: Params, origin: Vec3i, lod: nat, v: Vec3i): real {
    Surface(height, p, Running(origin.x - p.offsetX, v.x, lod), Running(origin.z - p.offsetZ, v.z, lod))
  }

  function FilledColumn(p: Params, surface: real, originY: int, lod: nat, y: int, before: Voxel): Voxel {
    if p.useSdf then Sdf(p.isoScale * (Running(originY, y, lod) as real - surface))
    else if Filled(surface, originY, y, lod) then Raw(p.matterType)
    else before
  }

  /** The value the full loop gives to voxel `v`. */
  function Looped(height: (int, int) -> real, p: Params, origin: Vec3i, lod: nat, v: Vec3i, before: Voxel): Voxel {
    FilledColumn(p, RunningSurface(height, p, origin, lod, v), origin.y, lod, v.y, before)
  }

  /** The block top, as computed, is below all ground. */
  predicate EndsBelow(p: Params, origin: Vec3i, sizeY: int, lod: nat) {
    (Running(origin.y, sizeY, lod) as real) < p.heightStart
  }

  /** The value voxel `v` ends up with: the two early exits, then the loop. */
  function BlockValue(height: (int, int) -> real, p: Params, origin: Vec3i, sizeY: int, lod: nat, v: Vec3i,
                      before: Voxel): Voxel {
    if AboveAllGround(p, origin) then before
    else if EndsBelow(p, origin, sizeY, lod) then ClearValue(p)
    else Looped(height, p, origin, lod, v, before)
  }

  /** The sampled columns, the block top and the block height are in the `i32` range. */
  predicate InWorld(p: Params, origin: Vec3i, size: Vec3i, lod: nat) {
    && AxisInWorld(origin.x - p.offsetX, size.x - 1, lod)
    && AxisInWorld(origin.y, size.y, lod)
    && AxisInWorld(origin.z - p.offsetZ, size.z - 1, lod)
    && size.y * Pow2(lod) <= I32_MAX
  }

  /** The coordinates from index 0 to `last` are in the `i32` range. */
  predicate AxisInWorld(origin: int, last: int, lod: nat) {
    IsI32(origin) && IsI32(WorldAt(origin, last, lod))
  }

  lemma WrapIs(n: int, x: int, k: int)
    requires IsI32(x) && n == x + U32_MODULUS * k
    ensures WrapI32(n) == x
  {
  }

  lemma WrapOf(n: int) returns (k: int)
    ensures IsI32(WrapI32(n)) && n == WrapI32(n) + U32_MODULUS * k
  {
    k := (n - I32_MIN) / U32_MODULUS;
  }

  lemma {:induction false} WrapAdds(a: int, b: int)
    ensures WrapI32(WrapI32(a) + WrapI32(b)) == WrapI32(a + b)
  {
    hide WrapI32;
    var i := WrapOf(a);
    var j := WrapOf(b);
    var k := WrapOf(a + b);
    WrapIs(WrapI32(a) + WrapI32(b), WrapI32(a + b), k - i - j);
  }

  lemma WrapKeeps(n: int)
    requires IsI32(n)
    ensures WrapI32(n) == n
  {
  }

  lemma {:induction false} RunningNext(origin: int, index: int, lod: nat)
    ensures WrapI32(Running(origin, index, lod) + WrapI32(Pow2(lod))) == Running(origin, index + 1, lod)
  {
    hide WrapI32;
    WorldNext(origin, index, lod);
    WrapAdds(WorldAt(origin, index, lod), Pow2(lod));
  }

  lemma {:induction false} AxisKeeps(origin: int, last: int, lod: nat, index: int)
    requires AxisInWorld(origin, last, lod) && 0 <= index <= last
    ensures Running(origin, index, lod) == WorldAt(origin, index, lod)
  {
    WorldIsMonotone(origin, 0, index, lod);
    WorldIsMonotone(origin, index, last, lod);
    WrapKeeps(WorldAt(origin, index, lod));
  }

  /** Inside the world nothing wraps or saturates: the loop and the block top are the rule's. */
  lemma {:induction false} LoopFollowsRule(height: (int, int) -> real, p: Params, origin: Vec3i, size: Vec3i, lod: nat,
                                           v: Vec3i, before: Voxel)
    requires InWorld(p, origin, size, lod) && InBounds(size, v)
    ensures Looped(height, p, origin, lod, v, before) == Generated(height, p, origin, lod, v, before)
    ensures EndsBelow(p, origin, size.y, lod) <==> BelowAllGround(p, origin, size.y, lod)
  {
    hide AxisInWorld, Running, WorldAt, Solid;
    AxisKeeps(origin.x - p.offsetX, size.x - 1, lod, v.x);
    AxisKeeps(origin.y, size.y, lod, v.y);
    AxisKeeps(origin.y, size.y, lod, size.y);
    AxisKeeps(origin.z - p.offsetZ, size.z - 1, lod, v.z);
    ScaledOrder(v.y + 1, size.y, Pow2(lod));
  }

  lemma WholeBelow(h: real, m: int)
    requires 1 <= m
    ensures m <= TruncateToI32(h) <==> m as real <= h && m <= I32_MAX
  {
  }

  /** Below the truncated, saturated and shifted column height are exactly the solid voxels that an `i32` reaches. */
  lemma {:induction false} ColumnHeightIsRule(surface: real, originY: int, lod: nat, y: int)
    requires 0 <= y
    ensures y < ShiftRight(TruncateToI32(surface - originY as real), lod) <==> Filled(surface, originY, y, lod)
  {
    var h := surface - originY as real;
    var t, p, m := TruncateToI32(h), Pow2(lod), (y + 1) * Pow2(lod);
    QuotientReaches(t, p, y + 1);
    ScaledOrder(1, y + 1, p);
    WholeBelow(h, m);
  }

  // ----- The generator -----

  method SdfColumn(c: Channel, surface: real, p: Params, originY: int, lod: nat, x: int, z: int)
    requires p.useSdf && IsI32(originY) && 0 <= x < c.Length0 && 0 <= z < c.Length2
    modifies c
    ensures forall v: Vec3i :: InBounds(Size(c), v) ==>
              At(c, v) == if v.x == x && v.z == z then FilledColumn(p, surface, originY, lod, v.y, old(At(c, v)))
                          else old(At(c, v))
  {
    hide Running, WrapI32;
    var stride := WrapI32(Pow2(lod));
    var gy := originY;
    RunningStarts(originY, lod);
    for y := 0 to c.Length1
      invariant gy == Running(originY, y, lod)
      invariant forall v: Vec3i :: InBounds(Size(c), v) ==>
        At(c, v) == if v.x == x && v.z == z && v.y < y then FilledColumn(p, surface, originY, lod, v.y, old(At(c, v)))
                    else old(At(c, v))
    {
      var sdf := p.isoScale * (gy as real - surface);
      Write(c, x, y, z, Sdf(sdf));
      RunningNext(originY, y, lod);
      gy := WrapI32(gy + stride);
    }
  }

  lemma RunningStarts(origin: int, lod: nat)
    ensures Running(origin, 0, lod) == WrapI32(origin)
    ensures IsI32(origin) ==> Running(origin, 0, lod) == origin
  {
  }

  method BlockyColumn(c: Channel, surface: real, p: Params, originY: int, lod: nat, x: int, z: int)
    requires !p.useSdf && 0 <= x < c.Length0 && 0 <= z < c.Length2
    modifies c
    ensures forall v: Vec3i :: InBounds(Size(c), v) ==>
              At(c, v) == if v.x == x && v.z == z then FilledColumn(p, surface, originY, lod, v.y, old(At(c, v)))
                          else old(At(c, v))
  {
    hide ShiftRight, TruncateToI32, Filled;
    var ih := ShiftRight(TruncateToI32(surface - originY as real), lod);
    forall y | 0 <= y < c.Length1
      ensures y < ih <==> Filled(surface, originY, y, lod)
    {
      ColumnHeightIsRule(surface, originY, lod, y);
    }
    if ih > 0 {
      if ih > c.Length1 {
        ih := c.Length1;
      }
      FillArea(c, Raw(p.matterType), Vec3i(x, 0, z), Vec3i(x + 1, ih, z + 1));
    }
  }

  method GenerateHeightmap(c: Channel, height: (int, int) -> real, p: Params, origin: Vec3i, lod: nat)
    returns (maxLodHint: bool)
    requires IsI32(origin.y) && lod < 32
    modifies c
    ensures maxLodHint <==> || origin.y as real > p.heightStart + p.heightRange
                            || (WrapI32(origin.y + c.Length1 * Pow2(lod)) as real) < p.heightStart
    ensures forall v: Vec3i :: InBounds(Size(c), v) ==>
              At(c, v) == BlockValue(height, p, origin, c.Length1, lod, v, old(At(c, v)))
    // The early exits leave the block as it was above all ground, and write one value to it all below.
    ensures maxLodHint ==>
              forall v: Vec3i :: InBounds(Size(c), v) ==>
                At(c, v) == if origin.y as real > p.heightStart + p.heightRange then old(At(c, v))
                            else if p.useSdf then Sdf(0.0) else Raw(p.matterType)
    // In the world and in range, a blocky block is the terrain, whichever way it was filled.
    ensures !p.useSdf && InUnit(height) && p.heightRange >= 0.0 && InWorld(p, origin, Size(c), lod) ==>
              forall v: Vec3i :: InBounds(Size(c), v) ==> At(c, v) == Terrain(height, p, origin, lod, v, old(At(c, v)))
    // In the world and off the early exits, an SDF block is the terrain.
    ensures p.useSdf && !maxLodHint && InWorld(p, origin, Size(c), lod) ==>
              forall v: Vec3i :: InBounds(Size(c), v) ==> At(c, v) == Terrain(height, p, origin, lod, v, old(At(c, v)))
  {
    hide Looped, Running, WrapI32, InUnit, Generated, InWorld, Terrain;
    ghost var before := Contents(c);
    if !p.useSdf && InUnit(height) && p.heightRange >= 0.0 && InWorld(p, origin, Size(c), lod) {
      BlockyBlockFollowsRule(height, p, origin, Size(c), lod, before);
    }
    forall v: Vec3i | v in before
      ensures Generated(height, p, origin, lod, v, before[v]) == Terrain(height, p, origin, lod, v, before[v])
    {
      GeneratedIsTerrain(height, p, origin, lod, v, before[v]);
    }
    RunningIs(origin.y, c.Length1, lod);
    if (origin.y as real) > p.heightStart + p.heightRange {
      return true;
    }
    var blockTop := WrapI32(origin.y + WrapI32(c.Length1 * Pow2(lod)));
    BlockTopIsRunning(origin.y, c.Length1, lod);
    if (blockTop as real) < p.heightStart {
      FillArea(c, ClearValue(p), Vec3i(0, 0, 0), Size(c));
      return true;
    }
    FillBlock(c, height, p, origin, lod);
    return false;
  }

  lemma RunningIs(origin: int, index: int, lod: nat)
    ensures Running(origin, index, lod) == WrapI32(origin + index * Pow2(lod))
  {
  }

  lemma {:induction false} BlockTopIsRunning(originY: int, sizeY: int, lod: nat)
    requires IsI32(originY)
    ensures WrapI32(originY + WrapI32(sizeY * Pow2(lod))) == Running(originY, sizeY, lod)
  {
    hide WrapI32;
    WrapKeeps(originY);
    WrapAdds(originY, sizeY * Pow2(lod));
  }

  method FillColumn(c: Channel, surface: real, p: Params, originY: int, lod: nat, x: int, z: int)
    requires IsI32(originY) && 0 <= x < c.Length0 && 0 <= z < c.Length2
    modifies c
    ensures forall v: Vec3i :: InBounds(Size(c), v) ==>
              At(c, v) == if v.x == x && v.z == z then FilledColumn(p, surface, originY, lod, v.y, old(At(c, v)))
                          else old(At(c, v))
  {
    if p.useSdf {
      SdfColumn(c, surface, p, originY, lod, x, z);
    } else {
      BlockyColumn(c, surface, p, originY, lod, x, z);
    }
  }

  method FillBlock(c: Channel, height: (int, int) -> real, p: Params, origin: Vec3i, lod: nat)
    requires IsI32(origin.y)
    modifies c
    ensures forall v: Vec3i :: InBounds(Size(c), v) ==> At(c, v) == Looped(height, p, origin, lod, v, old(At(c, v)))
    ensures InWorld(p, origin, Size(c), lod) ==>
              forall v: Vec3i :: InBounds(Size(c), v) ==> At(c, v) == Terrain(height, p, origin, lod, v, old(At(c, v)))
  {
    hide Running, WrapI32, FilledColumn, InWorld, Terrain;
    ghost var before := Contents(c);
    var stride := WrapI32(Pow2(lod));
    var gz := WrapI32(origin.z - p.offsetZ);
    RunningStarts(origin.z - p.offsetZ, lod);
    for z := 0 to c.Length2
      invariant gz == Running(origin.z - p.offsetZ, z, lod)
      invariant forall v: Vec3i :: InBounds(Size(c), v) ==>
        At(c, v) == if v.z < z then Looped(height, p, origin, lod, v, old(At(c, v))) else old(At(c, v))
    {
      var gx := WrapI32(origin.x - p.offsetX);
      RunningStarts(origin.x - p.offsetX, lod);
      for x := 0 to c.Length0
        invariant gx == Running(origin.x - p.offsetX, x, lod)
        invariant forall v: Vec3i :: InBounds(Size(c), v) ==>
          At(c, v) == if v.z < z || (v.z == z && v.x < x) then Looped(height, p, origin, lod, v, old(At(c, v)))
                      else old(At(c, v))
      {
        var surface := height(gx, gz) * p.heightRange + p.heightStart;
        assert forall v: Vec3i :: v.x == x && v.z == z ==> RunningSurface(height, p, origin, lod, v) == surface;
        FillColumn(c, surface, p, origin.y, lod, x, z);
        RunningNext(origin.x - p.offsetX, x, lod);
        gx := WrapI32(gx + stride);
      }
      RunningNext(origin.z - p.offsetZ, z, lod);
      gz := WrapI32(gz + stride);
    }
    LoopIsTerrain(height, p, origin, Size(c), lod, before);
  }

  /** Inside the world the loop generates the terrain. */
  lemma {:induction false} LoopIsTerrain(height: (int, int) -> real, p: Params, origin: Vec3i, size: Vec3i, lod: nat,
                                         g: Grid)
    requires forall v: Vec3i :: v in g <==> InBounds(size, v)
    ensures InWorld(p, origin, size, lod) ==>
              forall v: Vec3i :: v in g ==>
                Looped(height, p, origin, lod, v, g[v]) == Terrain(height, p, origin, lod, v, g[v])
  {
    hide Looped, Generated, InWorld, Terrain;
    if InWorld(p, origin, size, lod) {
      forall v: Vec3i | v in g
        ensures Looped(height, p, origin, lod, v, g[v]) == Terrain(height, p, origin, lod, v, g[v])
      {
        LoopFollowsRule(height, p, origin, size, lod, v, g[v]);
        GeneratedIsTerrain(height, p, origin, lod, v, g[v]);
      }
    }
  }

  // ----- Consequences of the rule -----

  /** Sampled heights lie in [0, 1]. */
  ghost predicate InUnit(height: (int, int) -> real) {
    forall x: int, z: int :: 0.0 <= height(x, z) <= 1.0
  }

  lemma {:induction false} SurfaceInRange(height: (int, int) -> real, p: Params, worldX: int, worldZ: int)
    requires InUnit(height) && p.heightRange >= 0.0
    ensures p.heightStart <= Surface(height, p, worldX, worldZ) <= p.heightStart + p.heightRange
  {
    ScaledUnit(height(worldX, worldZ), p.heightRange);
  }

  lemma ScaledUnit(h: real, range: real)
    requires 0.0 <= h <= 1.0 && range >= 0.0
    ensures 0.0 <= h * range <= range
  {
    assert h * range >= 0.0;
    assert (1.0 - h) * range >= 0.0;
    assert (1.0 - h) * range == range - h * range;
  }

  /** A block above all ground has no solid voxel, and in a block below all ground every voxel is solid. */
  lemma {:induction false} EarlyExitsFollowRule(height: (int, int) -> real, p: Params, origin: Vec3i, size: Vec3i,
                                                lod: nat)
    requires InUnit(height) && p.heightRange >= 0.0
    ensures forall v: Vec3i :: InBounds(size, v) && AboveAllGround(p, origin) ==>
              !Solid(SurfaceOver(height, p, origin, lod, v), origin.y, v.y, lod)
    ensures forall v: Vec3i :: InBounds(size, v) && BelowAllGround(p, origin, size.y, lod) ==>
              Solid(SurfaceOver(height, p, origin, lod, v), origin.y, v.y, lod)
    ensures p.heightRange >= 0.0 && size.y >= 0 ==>
            !(AboveAllGround(p, origin) && BelowAllGround(p, origin, size.y, lod))
  {
    forall v: Vec3i | InBounds(size, v)
      ensures AboveAllGround(p, origin) ==> !Solid(SurfaceOver(height, p, origin, lod, v), origin.y, v.y, lod)
      ensures BelowAllGround(p, origin, size.y, lod) ==>
              Solid(SurfaceOver(height, p, origin, lod, v), origin.y, v.y, lod)
    {
      SurfaceInRange(height, p, WorldAt(origin.x - p.offsetX, v.x, lod), WorldAt(origin.z - p.offsetZ, v.z, lod));
      WorldIsMonotone(origin.y, 0, v.y + 1, lod);
      WorldIsMonotone(origin.y, v.y + 1, size.y, lod);
    }
    if size.y >= 0 {
      WorldIsMonotone(origin.y, 0, size.y, lod);
    }
  }

  /** Two blocks that cover the same world voxel generate the same value there, whatever their origins. */
  lemma {:induction false} BlocksAgree(height: (int, int) -> real, p: Params, a: Vec3i, b: Vec3i, lod: nat,
                                       v: Vec3i, w: Vec3i, before: Voxel)
    requires WorldAt(a.x, v.x, lod) == WorldAt(b.x, w.x, lod)
    requires WorldAt(a.y, v.y, lod) == WorldAt(b.y, w.y, lod)
    requires WorldAt(a.z, v.z, lod) == WorldAt(b.z, w.z, lod)
    ensures Generated(height, p, a, lod, v, before) == Generated(height, p, b, lod, w, before)
  {
    WorldNext(a.y, v.y, lod);
    WorldNext(b.y, w.y, lod);
    assert SurfaceOver(height, p, a, lod, v) == SurfaceOver(height, p, b, lod, w) by {
      assert WorldAt(a.x - p.offsetX, v.x, lod) == WorldAt(b.x - p.offsetX, w.x, lod);
      assert WorldAt(a.z - p.offsetZ, v.z, lod) == WorldAt(b.z - p.offsetZ, w.z, lod);
    }
  }

  /** A coarse voxel is solid exactly when all the full-detail voxels it covers in its column are. */
  lemma {:induction false} CoarseIsAllFine(surface: real, originY: int, y: int, lod: nat)
    ensures Solid(surface, originY, y, lod) <==>
              forall j: int :: 0 <= j < Pow2(lod) ==> Solid(surface, WorldAt(originY, y, lod), j, 0)
  {
    var bottom, p := WorldAt(originY, y, lod), Pow2(lod);
    WorldNext(originY, y, lod);
    assert Pow2(0) == 1;
    assert forall j: int :: Solid(surface, bottom, j, 0) <==> (bottom + j + 1) as real <= surface;
    if forall j: int :: 0 <= j < p ==> Solid(surface, bottom, j, 0) {
      assert Solid(surface, bottom, p - 1, 0);
    }
  }

  /**
   The two fills agree: voxel y is solid in the blocky fill exactly when the distance one voxel up is not
   positive.
   */
  lemma {:induction false} BlockyMatchesSdf(height: (int, int) -> real, p: Params, origin: Vec3i, lod: nat, v: Vec3i,
                                            before: Voxel)
    requires p.isoScale > 0.0
    ensures var above := Generated(height, p.(useSdf := true), origin, lod, v.(y := v.y + 1), before);
            Solid(SurfaceOver(height, p, origin, lod, v), origin.y, v.y, lod) <==> above.distance <= 0.0
  {
    var gap := WorldAt(origin.y, v.y + 1, lod) as real - SurfaceOver(height, p, origin, lod, v);
    SignOfProduct(gap, p.isoScale);
  }

  /** In the world and in range, a blocky block obeys the rule, early exits included. */
  lemma {:induction false} BlockyBlockFollowsRule(height: (int, int) -> real, p: Params, origin: Vec3i, size: Vec3i,
                                                  lod: nat, g: Grid)
    requires !p.useSdf && InUnit(height) && p.heightRange >= 0.0 && InWorld(p, origin, size, lod)
    requires forall v: Vec3i :: v in g <==> InBounds(size, v)
    ensures forall v: Vec3i :: v in g ==>
              BlockValue(height, p, origin, size.y, lod, v, g[v]) == Generated(height, p, origin, lod, v, g[v])
  {
    hide InUnit, InWorld, Looped, EndsBelow, AboveAllGround, BelowAllGround, Solid;
    EarlyExitsFollowRule(height, p, origin, size, lod);
    forall v: Vec3i | v in g
      ensures BlockValue(height, p, origin, size.y, lod, v, g[v]) == Generated(height, p, origin, lod, v, g[v])
    {
      LoopFollowsRule(height, p, origin, size, lod, v, g[v]);
    }
  }

  /** A block that was air obeys the rule everywhere. */
  ghost predicate ObeysRule(height: (int, int) -> real, p: Params, origin: Vec3i, size: Vec3i, lod: nat) {
    forall v: Vec3i :: InBounds(size, v) ==>
      BlockValue(height, p, origin, size.y, lod, v, Raw(0)) == Generated(height, p, origin, lod, v, Raw(0))
  }

  /** A blocky terrain of solid matter, with the offsets of `q`. */
  predicate IsBlocky(p: Params, q: Params) {
    !p.useSdf && p.matterType != 0 && p.heightRange >= 0.0 && p.offsetX == q.offsetX && p.offsetZ == q.offsetZ
  }

  /** Every blocky terrain obeys the rule in a block if and only if the block is in the world. */
  lemma {:induction false} BlocksObeyRuleExactly(q: Params, origin: Vec3i, size: Vec3i, lod: nat)
    requires IsI32(origin.y) && size.x >= 1 && size.y >= 1 && size.z >= 1
    ensures (forall height: (int, int) -> real, p: Params ::
               InUnit(height) && IsBlocky(p, q) ==> ObeysRule(height, p, origin, size, lod))
            <==> InWorld(q, origin, size, lod)
  {
    hide InUnit, BlockValue, Generated;
    if InWorld(q, origin, size, lod) {
      forall height: (int, int) -> real, p: Params | InUnit(height) && IsBlocky(p, q)
        ensures ObeysRule(height, p, origin, size, lod)
      {
        var air := map v: Vec3i | v in Cells(size) :: Raw(0);
        BlockyBlockFollowsRule(height, p, origin, size, lod, air);
      }
    } else if WorldAt(origin.y, size.y, lod) > I32_MAX {
      var p := WrappedTopFillsAir(q, origin, size, lod);
    } else if size.y * Pow2(lod) > I32_MAX {
      var p := TallColumnIsCut(q, origin, size, lod);
    } else {
      WorldIsMonotone(origin.y, 0, size.y, lod);
      var height, p := WrappedColumnDiffers(q, origin, size, lod);
    }
  }

  /** A block top past `i32` wraps below flat ground that the block rises above, and the exit fills the air there. */
  lemma {:induction false} WrappedTopFillsAir(q: Params, origin: Vec3i, size: Vec3i, lod: nat) returns (p: Params)
    requires IsI32(origin.y) && size.x >= 1 && size.y >= 1 && size.z >= 1
    requires WorldAt(origin.y, size.y, lod) > I32_MAX
    ensures IsBlocky(p, q) && InUnit(Flat) && !ObeysRule(Flat, p, origin, size, lod)
  {
    var top := Running(origin.y, size.y, lod);
    p := Params(false, 1, Max(top, origin.y) as real + 0.5, 0.0, 1.0, q.offsetX, q.offsetZ);
    var v := Vec3i(0, size.y - 1, 0);
    var wrapped := WrapOf(WorldAt(origin.y, size.y, lod));
    hide WrapI32, WorldAt;
    assert InBounds(size, v);
    assert BlockValue(Flat, p, origin, size.y, lod, v, Raw(0)) == Raw(1);
    assert Generated(Flat, p, origin, lod, v, Raw(0)) == Raw(0);
  }

  /** In a block higher than `i32`, the column height saturates below the top voxel. */
  lemma {:induction false} TallColumnIsCut(q: Params, origin: Vec3i, size: Vec3i, lod: nat) returns (p: Params)
    requires IsI32(origin.y) && size.x >= 1 && size.y >= 1 && size.z >= 1
    requires WorldAt(origin.y, size.y, lod) <= I32_MAX < size.y * Pow2(lod)
    ensures IsBlocky(p, q) && InUnit(Flat) && !ObeysRule(Flat, p, origin, size, lod)
  {
    var top := WorldAt(origin.y, size.y, lod);
    p := Params(false, 1, top as real, 0.0, 1.0, q.offsetX, q.offsetZ);
    var v := Vec3i(0, size.y - 1, 0);
    WorldIsMonotone(origin.y, 0, size.y, lod);
    AxisKeeps(origin.y, size.y, lod, size.y);
    hide WorldAt, Running;
    assert InBounds(size, v);
    assert BlockValue(Flat, p, origin, size.y, lod, v, Raw(0)) == Raw(0);
    assert Generated(Flat, p, origin, lod, v, Raw(0)) == Raw(1);
  }

  function Flat(x: int, z: int): real {
    0.0
  }

  /** Ground that is high inside the `i32` range and low outside. */
  function High(x: int, z: int): real {
    if IsI32(x) && IsI32(z) then 1.0 else 0.0
  }

  /** A column past `i32` is sampled at its wrapped coordinates, where the ground can be higher. */
  lemma {:induction false} WrappedColumnDiffers(q: Params, origin: Vec3i, size: Vec3i, lod: nat)
    returns (height: (int, int) -> real, p: Params)
    requires IsI32(origin.y) && size.x >= 1 && size.y >= 1 && size.z >= 1
    requires IsI32(WorldAt(origin.y, size.y, lod)) && size.y * Pow2(lod) <= I32_MAX
    requires !AxisInWorld(origin.x - q.offsetX, size.x - 1, lod) || !AxisInWorld(origin.z - q.offsetZ, size.z - 1, lod)
    ensures InUnit(height) && IsBlocky(p, q) && !ObeysRule(height, p, origin, size, lod)
  {
    var ground := WorldAt(origin.y, 1, lod);
    height, p := High, Params(false, 1, ground as real - 0.5, 1.0, 1.0, q.offsetX, q.offsetZ);
    var x := if IsI32(origin.x - q.offsetX) then size.x - 1 else 0;
    var z := if IsI32(origin.z - q.offsetZ) then size.z - 1 else 0;
    var v := Vec3i(x, 0, z);
    WorldIsMonotone(origin.y, 0, 1, lod);
    WorldIsMonotone(origin.y, 1, size.y, lod);
    AxisKeeps(origin.y, size.y, lod, size.y);
    RunningIsI32(origin.x - q.offsetX, x, lod);
    RunningIsI32(origin.z - q.offsetZ, z, lod);
    assert !IsI32(WorldAt(origin.x - q.offsetX, x, lod)) || !IsI32(WorldAt(origin.z - q.offsetZ, z, lod));
    ScaledOrder(1, size.y, Pow2(lod));
    hide WorldAt, Running;
    assert RunningSurface(height, p, origin, lod, v) == ground as real + 0.5;
    assert SurfaceOver(height, p, origin, lod, v) == ground as real - 0.5;
    assert InBounds(size, v);
    assert BlockValue(height, p, origin, size.y, lod, v, Raw(0)) == Raw(1);
    assert Generated(height, p, origin, lod, v, Raw(0)) == Raw(0);
  }

  lemma RunningIsI32(origin: int, index: int, lod: nat)
    ensures IsI32(Running(origin, index, lod))
  {
    var wrapped := WrapOf(WorldAt(origin, index, lod));
  }

  /** In an SDF block below all ground, every distance the rule gives is nonzero unless the scale is zero. */
  lemma {:induction false} SdfExitBelowGroundDiffers(height: (int, int) -> real, p: Params, origin: Vec3i, size: Vec3i,
                                                     lod: nat, v: Vec3i, before: Voxel)
    requires p.useSdf && InUnit(height) && p.heightRange >= 0.0
    requires InBounds(size, v) && BelowAllGround(p, origin, size.y, lod)
    ensures Generated(height, p, origin, lod, v, before) == ClearValue(p) <==> p.isoScale == 0.0
  {
    var surface, world := SurfaceOver(height, p, origin, lod, v), WorldAt(origin.y, v.y, lod);
    assert surface >= p.heightStart > world as real by {
      SurfaceInRange(height, p, WorldAt(origin.x - p.offsetX, v.x, lod), WorldAt(origin.z - p.offsetZ, v.z, lod));
      WorldIsMonotone(origin.y, v.y, size.y, lod);
    }
    NonzeroProduct(p.isoScale, world as real - surface);
  }

  lemma NonzeroProduct(k: real, a: real)
    requires a < 0.0
    ensures k * a == 0.0 <==> k == 0.0
  {
    if k > 0.0 {
      SignOfProduct(a, k);
    } else if k < 0.0 {
      SignOfProduct(a, -k);
      assert (-k) * a == -(k * a);
    }
  }

  /**
   An SDF block in the world and in range obeys the rule exactly when neither early exit disturbs it: above
   all ground the block already held the rule's distances, and below all ground the scale is zero or the
   block has no voxels.
   */
  lemma {:induction false} SdfBlockFollowsRuleExactly(height: (int, int) -> real, p: Params, origin: Vec3i, size: Vec3i,
                                                      lod: nat, g: Grid)
    requires p.useSdf && InUnit(height) && p.heightRange >= 0.0 && InWorld(p, origin, size, lod)
    requires forall v: Vec3i :: v in g <==> InBounds(size, v)
    ensures (forall v: Vec3i :: v in g ==>
               BlockValue(height, p, origin, size.y, lod, v, g[v]) == Generated(height, p, origin, lod, v, g[v]))
            <==>
            && (AboveAllGround(p, origin) ==>
                  forall v: Vec3i :: v in g ==> g[v] == Generated(height, p, origin, lod, v, g[v]))
            && (BelowAllGround(p, origin, size.y, lod) ==> p.isoScale == 0.0 || g == map[])
  {
    hide InUnit, InWorld, Looped, EndsBelow, AboveAllGround, BelowAllGround, Generated, ClearValue;
    EarlyExitsFollowRule(height, p, origin, size, lod);
    forall v: Vec3i | v in g
      ensures BlockValue(height, p, origin, size.y, lod, v, g[v])
              == if AboveAllGround(p, origin) then g[v]
                 else if BelowAllGround(p, origin, size.y, lod) then ClearValue(p)
                 else Generated(height, p, origin, lod, v, g[v])
      ensures BelowAllGround(p, origin, size.y, lod) ==>
                (Generated(height, p, origin, lod, v, g[v]) == ClearValue(p) <==> p.isoScale == 0.0)
    {
      LoopFollowsRule(height, p, origin, size, lod, v, g[v]);
      if BelowAllGround(p, origin, size.y, lod) {
        SdfExitBelowGroundDiffers(height, p, origin, size, lod, v, g[v]);
      }
    }
    if g != map[] {
      var v: Vec3i :| v in g;
      NotAboveAndBelow(p, origin, size, lod, v);
    }
  }

  lemma NotAboveAndBelow(p: Params, origin: Vec3i, size: Vec3i, lod: nat, v: Vec3i)
    requires p.heightRange >= 0.0 && InBounds(size, v)
    ensures !(AboveAllGround(p, origin) && BelowAllGround(p, origin, size.y, lod))
  {
    WorldIsMonotone(origin.y, 0, size.y, lod);
  }

  /** Above all ground a fresh block keeps distance 1 where the rule, at scale 0, says 0. */
  lemma SdfExitAboveGroundKeepsOld(height: (int, int) -> real)
    ensures var p, origin, v := Params(true, 1, 0.0, 1.0, 0.0, 0, 0), Vec3i(0, 5, 0), Vec3i(0, 0, 0);
            && BlockValue(height, p, origin, 16, 0, v, Sdf(1.0)) == Sdf(1.0)
            && Generated(height, p, origin, 0, v, Sdf(1.0)) == Sdf(0.0)
  {
  }

  /** Below all ground a block stores distance 0 where the rule says -100. */
  lemma SdfExitBelowGroundStoresZero(before: Voxel)
    ensures var p, origin, v := Params(true, 1, 100.0, 0.0, 1.0, 0, 0), Vec3i(0, 0, 0), Vec3i(0, 0, 0);
            && BlockValue((x, z) => 0.0, p, origin, 16, 0, v, before) == Sdf(0.0)
            && Generated((x, z) => 0.0, p, origin, 0, v, before) == Sdf(-100.0)
  {
    assert Pow2(0) == 1;
  }

  /** At LOD 16, a column of 32768 voxels has its top voxel left out, although it is solid. */
  lemma TallBlockIsCut()
    ensures var p, origin := Params(false, 1, -4294967296.0, 8589934592.0, 1.0, 0, 0), Vec3i(0, 0, 0);
            && BlockValue((x, z) => 1.0, p, origin, 32768, 16, Vec3i(0, 32767, 0), Raw(0)) == Raw(0)
            && Generated((x, z) => 1.0, p, origin, 16, Vec3i(0, 32767, 0), Raw(0)) == Raw(1)
  {
    TwoTo16();
    hide Pow2;
  }

  /** At LOD 16, the top of a block of 32768 voxels wraps to the lowest coordinate, and the exit fills air. */
  lemma WrappedBlockIsFilled()
    ensures var p, origin := Params(false, 1, 0.0, 0.0, 1.0, 0, 0), Vec3i(0, 0, 0);
            && BlockValue((x, z) => 0.0, p, origin, 32768, 16, Vec3i(0, 0, 0), Raw(0)) == Raw(1)
            && Generated((x, z) => 0.0, p, origin, 16, Vec3i(0, 0, 0), Raw(0)) == Raw(0)
  {
    TwoTo16();
    hide Pow2;
  }

  lemma TwoTo16()
    ensures Pow2(16) == 0x1_0000
  {
    assert Pow2(4) == 0x10 && Pow2(8) == 0x100 && Pow2(12) == 0x1000;
  }
}
