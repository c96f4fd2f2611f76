/**
 Multipass layered generation: each pass fills the air below a rising threshold with its own id.
 */
module LayeredFill {
  import opened Geometry
  import opened Voxels

  const MAX_MULTIPASS_PASSES := 256
  const MAX_MULTIPASS_VOXEL_VISITS := 8_388_608

  predicate Accepted(passCount: int, size: Vec3i) {
    && 1 <= passCount <= MAX_MULTIPASS_PASSES
    && passCount * Volume(size) <= MAX_MULTIPASS_VOXEL_VISITS
  }

  function Volume(size: Vec3i): int {
    size.x * size.y * size.z
  }

  function Threshold(layerHeight: int, pass: int): int {
    SaturateI32(layerHeight * (pass + 1))
  }

  /** The row lies below the first `passes` layers. */
  predicate Below(layerHeight: int, passes: int, y: int) {
    0 < layerHeight && y < layerHeight * passes
  }

  /** The id of the layer a row lies in. */
  function LayerId(layerHeight: int, y: int): int
    requires 0 < layerHeight
  {
    y / layerHeight + 1
  }

  /** The closed form: below the last layer, air becomes the id of the layer it lies in. */
  function Layered(layerHeight: int, passes: int, y: int, before: Voxel): Voxel {
    if before == Raw(0) && Below(layerHeight, passes, y) then Raw(LayerId(layerHeight, y)) else before
  }

  /** The voxels a fill of `passes` passes changes. */
  ghost function Changed(g: Grid, layerHeight: int, passes: int): set<Vec3i> {
    set v: Vec3i | v in g && g[v] == Raw(0) && Below(layerHeight, passes, v.y)
  }

  lemma PassesGrow(h: int, pass: int)
    ensures h * (pass + 1) == h * pass + h
  {
  }

  /** Saturation never changes which rows of a buffer lie below the threshold. */
  lemma {:induction false} SaturationIsHarmless(layerHeight: int, pass: int, y: int)
    requires 0 <= y < I32_MAX && pass >= 0
    ensures y < Threshold(layerHeight, pass) <==> Below(layerHeight, pass + 1, y)
  {
    var t := layerHeight * (pass + 1);
    if layerHeight <= 0 {
      assert t <= 0;
    }
  }

  /** A row that comes to lie below the layers in a pass lies in that pass's layer. */
  lemma {:induction false} LayerOfPass(layerHeight: int, pass: int, y: int)
    requires 0 <= y && pass >= 0 && 0 < layerHeight
    ensures Below(layerHeight, pass, y) ==> Below(layerHeight, pass + 1, y)
    ensures Below(layerHeight, pass + 1, y) && !Below(layerHeight, pass, y) ==> LayerId(layerHeight, y) == pass + 1
    ensures LayerId(layerHeight, y) >= 1
  {
    PassesGrow(layerHeight, pass);
    if layerHeight * pass <= y < layerHeight * (pass + 1) {
      assert pass * layerHeight <= y < pass * layerHeight + layerHeight;
      WholeQuotientIs(y, layerHeight, pass);
    }
  }

  /** One more pass on a voxel: the closed form for `pass` passes becomes the one for `pass + 1`. */
  lemma {:induction false} OneMorePass(layerHeight: int, pass: int, y: int, before: Voxel)
    requires 0 <= y < I32_MAX && pass >= 0
    ensures var now := Layered(layerHeight, pass, y, before);
            Layered(layerHeight, pass + 1, y, before)
            == if y < Threshold(layerHeight, pass) && now == Raw(0) then Raw(pass + 1) else now
  {
    hide LayerId, Threshold;
    SaturationIsHarmless(layerHeight, pass, y);
    if 0 < layerHeight {
      LayerOfPass(layerHeight, pass, y);
      hide Below;
      assert Layered(layerHeight, pass + 1, y, before)
          == if y < Threshold(layerHeight, pass) && Layered(layerHeight, pass, y, before) == Raw(0) then Raw(pass + 1)
             else Layered(layerHeight, pass, y, before);
    }
  }

  /** Air in the rows of layer `k`, counted from 0, becomes `k + 1` if a pass reaches the layer; the rest stays. */
  lemma {:induction false} LayersAreExact(layerHeight: int, passes: int, y: int, k: int, before: Voxel)
    requires 0 < layerHeight && layerHeight * k <= y < layerHeight * (k + 1)
    ensures Layered(layerHeight, passes, y, before) == if before == Raw(0) && k < passes then Raw(k + 1) else before
  {
    assert k * layerHeight <= y < k * layerHeight + layerHeight by {
      PassesGrow(layerHeight, k);
    }
    WholeQuotientIs(y, layerHeight, k);
    if k < passes {
      ScaledOrder(k + 1, passes, layerHeight);
    } else {
      ScaledOrder(passes, k, layerHeight);
    }
  }

  /** Without a positive layer height nothing is filled. */
  lemma FlatLayersFillNothing(layerHeight: int, passes: int, y: int, before: Voxel)
    requires layerHeight <= 0
    ensures Layered(layerHeight, passes, y, before) == before
  {
  }

  // ----- The passes -----

  /** Voxels in the order of the loops: by z, then x, then y. */
  predicate ColumnBefore(a: Vec3i, b: Vec3i) {
    a.z < b.z || (a.z == b.z && (a.x < b.x || (a.x == b.x && a.y < b.y)))
  }

  /** In pass `pass`, the voxels before `next` have been visited; `total` voxels have changed since the start. */
  ghost predicate PassUpTo(c: Channel, g: Grid, layerHeight: int, pass: int, next: Vec3i, total: int)
    reads c
  {
    && (forall v: Vec3i :: v in g <==> InBounds(Size(c), v))
    && (forall v: Vec3i :: InBounds(Size(c), v) ==>
          At(c, v) == Layered(layerHeight, if ColumnBefore(v, next) then pass + 1 else pass, v.y, g[v]))
    && total == |ChangedUpTo(g, layerHeight, pass, next)|
  }

  ghost function ChangedUpTo(g: Grid, layerHeight: int, pass: int, next: Vec3i): set<Vec3i> {
    set v: Vec3i | v in g && g[v] == Raw(0) && Below(layerHeight, if ColumnBefore(v, next) then pass + 1 else pass, v.y)
  }

  method FillVoxel(c: Channel, ghost g: Grid, layerHeight: int, pass: int, threshold: int, x: int, y: int, z: int,
                   total: int)
    returns (newTotal: int)
    requires InBounds(Size(c), Vec3i(x, y, z)) && c.Length1 <= I32_MAX && pass >= 0
    requires threshold == Threshold(layerHeight, pass)
    requires PassUpTo(c, g, layerHeight, pass, Vec3i(x, y, z), total)
    modifies c
    ensures PassUpTo(c, g, layerHeight, pass, Vec3i(x, y + 1, z), newTotal)
  {
    hide Layered, Below, Threshold, ChangedUpTo;
    ghost var v := Vec3i(x, y, z);
    newTotal := total;
    OneMorePass(layerHeight, pass, y, g[v]);
    VisitChanges(g, layerHeight, pass, v);
    if y < threshold {
      assert c[x, y, z] == At(c, v);
      if c[x, y, z] == Raw(0) {
        Write(c, x, y, z, Raw(pass + 1));
        newTotal := total + 1;
      }
    }
  }

  /** Visiting one voxel adds it to the changed ones exactly when the pass fills it. */
  lemma {:induction false} VisitChanges(g: Grid, layerHeight: int, pass: int, v: Vec3i)
    requires v in g && 0 <= v.y < I32_MAX && pass >= 0
    ensures var filled := v.y < Threshold(layerHeight, pass) && Layered(layerHeight, pass, v.y, g[v]) == Raw(0);
            |ChangedUpTo(g, layerHeight, pass, v.(y := v.y + 1))|
            == |ChangedUpTo(g, layerHeight, pass, v)| + if filled then 1 else 0
    ensures forall w: Vec3i :: ColumnBefore(w, v.(y := v.y + 1)) <==> ColumnBefore(w, v) || w == v
  {
    hide LayerId, Threshold, Below, ColumnBefore;
    NextInColumn(v);
    var next := v.(y := v.y + 1);
    var old', new' := ChangedUpTo(g, layerHeight, pass, v), ChangedUpTo(g, layerHeight, pass, next);
    SaturationIsHarmless(layerHeight, pass, v.y);
    FilledMeans(layerHeight, pass, v.y, g[v]);
    if v.y < Threshold(layerHeight, pass) && Layered(layerHeight, pass, v.y, g[v]) == Raw(0) {
      VisitedGrow(g, layerHeight, pass, v);
      assert |old' + {v}| == |old'| + 1;
    } else {
      VisitedGrow(g, layerHeight, pass, v);
    }
  }

  /** The changed voxels gain the visited one exactly if it is air that only this pass reaches. */
  lemma {:induction false} VisitedGrow(g: Grid, layerHeight: int, pass: int, v: Vec3i)
    requires v in g && v.y >= 0 && pass >= 0
    ensures var before := ChangedUpTo(g, layerHeight, pass, v);
            var after := ChangedUpTo(g, layerHeight, pass, v.(y := v.y + 1));
            if g[v] == Raw(0) && Below(layerHeight, pass + 1, v.y) && !Below(layerHeight, pass, v.y)
            then after == before + {v} && v !in before
            else after == before
  {
    hide Below, ColumnBefore;
    NextInColumn(v);
    FilledMeans(layerHeight, pass, v.y, g[v]);
  }

  lemma NextInColumn(v: Vec3i)
    ensures forall w: Vec3i :: ColumnBefore(w, v.(y := v.y + 1)) <==> ColumnBefore(w, v) || w == v
    ensures !ColumnBefore(v, v)
  {
    forall w: Vec3i
      ensures ColumnBefore(w, v.(y := v.y + 1)) <==> ColumnBefore(w, v) || w == v
    {
      assert w.x == v.x && w.y == v.y && w.z == v.z <==> w == v;
    }
  }

  lemma {:induction false} FilledMeans(layerHeight: int, pass: int, y: int, before: Voxel)
    requires 0 <= y && pass >= 0
    ensures Layered(layerHeight, pass, y, before) == Raw(0) <==> before == Raw(0) && !Below(layerHeight, pass, y)
    ensures Below(layerHeight, pass, y) ==> Below(layerHeight, pass + 1, y)
  {
    hide LayerId;
    if 0 < layerHeight {
      LayerOfPass(layerHeight, pass, y);
    }
  }

  lemma ColumnDone(c: Channel, g: Grid, layerHeight: int, pass: int, x: int, z: int, total: int)
    requires PassUpTo(c, g, layerHeight, pass, Vec3i(x, c.Length1, z), total)
    ensures PassUpTo(c, g, layerHeight, pass, Vec3i(x + 1, 0, z), total)
  {
    hide Layered, Below;
    assert forall v: Vec3i :: InBounds(Size(c), v) ==>
        (ColumnBefore(v, Vec3i(x, c.Length1, z)) <==> ColumnBefore(v, Vec3i(x + 1, 0, z)));
    assert ChangedUpTo(g, layerHeight, pass, Vec3i(x, c.Length1, z))
        == ChangedUpTo(g, layerHeight, pass, Vec3i(x + 1, 0, z));
  }

  lemma SliceDone(c: Channel, g: Grid, layerHeight: int, pass: int, z: int, total: int)
    requires PassUpTo(c, g, layerHeight, pass, Vec3i(c.Length0, 0, z), total)
    ensures PassUpTo(c, g, layerHeight, pass, Vec3i(0, 0, z + 1), total)
  {
    hide Layered, Below;
    assert forall v: Vec3i :: InBounds(Size(c), v) ==>
        (ColumnBefore(v, Vec3i(c.Length0, 0, z)) <==> ColumnBefore(v, Vec3i(0, 0, z + 1)));
    assert ChangedUpTo(g, layerHeight, pass, Vec3i(c.Length0, 0, z))
        == ChangedUpTo(g, layerHeight, pass, Vec3i(0, 0, z + 1));
  }

  lemma PassDone(c: Channel, g: Grid, layerHeight: int, pass: int, total: int)
    requires PassUpTo(c, g, layerHeight, pass, Vec3i(0, 0, c.Length2), total)
    ensures PassUpTo(c, g, layerHeight, pass + 1, Vec3i(0, 0, 0), total)
  {
    hide Layered, Below;
    assert forall v: Vec3i :: InBounds(Size(c), v) ==>
        ColumnBefore(v, Vec3i(0, 0, c.Length2)) && !ColumnBefore(v, Vec3i(0, 0, 0));
    assert ChangedUpTo(g, layerHeight, pass, Vec3i(0, 0, c.Length2))
        == ChangedUpTo(g, layerHeight, pass + 1, Vec3i(0, 0, 0));
  }

  lemma FirstPass(c: Channel, layerHeight: int)
    ensures PassUpTo(c, Contents(c), layerHeight, 0, Vec3i(0, 0, 0), 0)
  {
    assert ChangedUpTo(Contents(c), layerHeight, 0, Vec3i(0, 0, 0)) == {};
  }

  lemma LastPass(c: Channel, g: Grid, layerHeight: int, passes: int, total: int)
    requires PassUpTo(c, g, layerHeight, passes, Vec3i(0, 0, 0), total)
    ensures total == |Changed(g, layerHeight, passes)|
    ensures forall v: Vec3i :: InBounds(Size(c), v) ==> At(c, v) == Layered(layerHeight, passes, v.y, g[v])
  {
    hide Layered, Below;
    assert ChangedUpTo(g, layerHeight, passes, Vec3i(0, 0, 0)) == Changed(g, layerHeight, passes);
  }

  method RunPass(c: Channel, ghost g: Grid, layerHeight: int, pass: int, total: int)
    returns (newTotal: int, ghost visited: nat)
    requires c.Length1 <= I32_MAX && pass >= 0 && PassUpTo(c, g, layerHeight, pass, Vec3i(0, 0, 0), total)
    modifies c
    ensures PassUpTo(c, g, layerHeight, pass + 1, Vec3i(0, 0, 0), newTotal)
    ensures visited == c.Length2 * (c.Length0 * c.Length1)
  {
    hide PassUpTo, Threshold;
    newTotal, visited := total, 0;
    ghost var slice := c.Length0 * c.Length1;
    var threshold := Threshold(layerHeight, pass);
    for z := 0 to c.Length2
      invariant PassUpTo(c, g, layerHeight, pass, Vec3i(0, 0, z), newTotal)
      invariant visited == z * slice
    {
      for x := 0 to c.Length0
        invariant PassUpTo(c, g, layerHeight, pass, Vec3i(x, 0, z), newTotal)
        invariant visited == z * slice + x * c.Length1
      {
        for y := 0 to c.Length1
          invariant PassUpTo(c, g, layerHeight, pass, Vec3i(x, y, z), newTotal)
          invariant visited == z * slice + x * c.Length1 + y
        {
          newTotal := FillVoxel(c, g, layerHeight, pass, threshold, x, y, z, newTotal);
          visited := visited + 1;
        }
        OneMore(x, c.Length1);
        ColumnDone(c, g, layerHeight, pass, x, z, newTotal);
      }
      OneMore(z, slice);
      SliceDone(c, g, layerHeight, pass, z, newTotal);
    }
    PassDone(c, g, layerHeight, pass, newTotal);
  }

  method GenerateLayers(c: Channel, passCount: int, layerHeight: int) returns (total: int, ghost visited: nat)
    requires AllRaw(c) && c.Length1 <= I32_MAX
    modifies c
    ensures if Accepted(passCount, Size(c)) then
              && total == |Changed(old(Contents(c)), layerHeight, passCount)|
              && forall v: Vec3i :: InBounds(Size(c), v) ==>
                   At(c, v) == Layered(layerHeight, passCount, v.y, old(At(c, v)))
            else total == -1 && Contents(c) == old(Contents(c))
    ensures total == -1 <==>
              passCount < 1 || passCount > 256 || passCount * (c.Length0 * c.Length1 * c.Length2) > 8_388_608
    ensures visited == if Accepted(passCount, Size(c)) then passCount * Volume(Size(c)) else 0
    ensures visited <= MAX_MULTIPASS_VOXEL_VISITS
  {
    assert Volume(Size(c)) == c.Length0 * c.Length1 * c.Length2;
    hide PassUpTo, Layered, Changed, Volume;
    visited := 0;
    if !Accepted(passCount, Size(c)) {
      return -1, 0;
    }
    ghost var g, volume := Contents(c), Volume(Size(c));
    total := 0;
    FirstPass(c, layerHeight);
    for pass := 0 to passCount
      invariant PassUpTo(c, g, layerHeight, pass, Vec3i(0, 0, 0), total)
      invariant visited == pass * volume
    {
      ghost var visits;
      total, visits := RunPass(c, g, layerHeight, pass, total);
      SlicesMakeVolume(Size(c));
      OneMore(pass, volume);
      visited := visited + visits;
    }
    LastPass(c, g, layerHeight, passCount, total);
  }

  lemma SlicesMakeVolume(size: Vec3i)
    ensures size.z * (size.x * size.y) == Volume(size)
  {
  }

  /** What the closed form says: only air changes, no voxel of the buffer is emptied, and changing is being counted. */
  lemma {:induction false} FillKeepsSolids(g: Grid, layerHeight: int, passes: int, v: Vec3i)
    requires v in g && v.y >= 0 && passes >= 0
    ensures g[v] != Raw(0) ==> Layered(layerHeight, passes, v.y, g[v]) == g[v]
    ensures v in Changed(g, layerHeight, passes) <==> Layered(layerHeight, passes, v.y, g[v]) != g[v]
  {
    hide LayerId;
    if 0 < layerHeight {
      LayerOfPass(layerHeight, passes, v.y);
    }
  }
}
