/**
 How streaming tasks are prioritised: the viewer positions they share, the distance to the
 closest viewer, and the packed priority computed from it.
 */
module TaskPriority {
  import opened Geometry
  import opened SlotMap

  const BAND_MAX := 255
  const MAX_LOD := 24
  const DEFAULT_BAND3 := 10

  /** The largest squared distance reported once a viewer is active. */
  const FARTHEST_SQUARED := 99_999.0

  const DEFAULT_HIGHEST_VIEW_DISTANCE := 999_999.0

  // ----- Packed priorities -----

  type Byte = b: int | 0 <= b <= BAND_MAX

  /** Four bands in one 32-bit word, band 3 in the highest byte; words are compared as integers. */
  datatype Priority = Priority(whole: nat)

  function Packed(band0: Byte, band1: Byte, band2: Byte, band3: Byte): Priority {
    Priority(band0 + 0x100 * band1 + 0x1_0000 * band2 + 0x100_0000 * band3)
  }

  function Band(p: Priority, i: nat): Byte
    requires i < 4
  {
    ShiftRight(p.whole, 8 * i) % 0x100
  }

  predicate HasBands(p: Priority, band0: Byte, band1: Byte, band2: Byte, band3: Byte) {
    Band(p, 0) == band0 && Band(p, 1) == band1 && Band(p, 2) == band2 && Band(p, 3) == band3
  }

  lemma {:induction false} BandsUnpack(band0: Byte, band1: Byte, band2: Byte, band3: Byte)
    ensures var p := Packed(band0, band1, band2, band3);
            HasBands(p, band0, band1, band2, band3) && p.whole < U32_MODULUS
  {
    hide Band;
    var p := Packed(band0, band1, band2, band3);
    BandsAreDigits(p);
    assert p.whole / 0x100 == band1 + 0x100 * band2 + 0x1_0000 * band3;
    assert p.whole / 0x1_0000 == band2 + 0x100 * band3;
    assert p.whole / 0x100_0000 == band3;
  }

  lemma {:induction false} BandsAreDigits(p: Priority)
    ensures Band(p, 0) == p.whole % 0x100 && Band(p, 1) == p.whole / 0x100 % 0x100
    ensures Band(p, 2) == p.whole / 0x1_0000 % 0x100 && Band(p, 3) == p.whole / 0x100_0000 % 0x100
  {
    hide Pow2;
    BytePowers();
  }

  lemma BytePowers()
    ensures Pow2(0) == 1 && Pow2(8) == 0x100 && Pow2(16) == 0x1_0000 && Pow2(24) == 0x100_0000
  {
    assert Pow2(4) == 0x10 && Pow2(12) == 0x1000 by {
      assert Pow2(8) == 0x100;
    }
    assert Pow2(20) == 0x10_0000 by {
      assert Pow2(16) == 0x1_0000;
    }
  }

  // ----- Distances -----

  /** The minimum of `least` and every viewer's squared distance, folded from the left. */
  function FoldMin(least: real, viewers: seq<Vec3>, position: Vec3): real
    decreases |viewers|
  {
    if viewers == [] then least
    else FoldMin(MinReal(least, DistanceSquared(position, viewers[0])), viewers[1..], position)
  }

  /** The squared distance a task sees, for the active viewers. */
  function Closest(active: seq<Vec3>, position: Vec3): real {
    if active == [] then LengthSquared(position) else FoldMin(FARTHEST_SQUARED, active, position)
  }

  predicate TooFar(closest: real, dropDistanceSquared: real) {
    closest > dropDistanceSquared
  }

  // ----- The first band -----

  lemma DivideShrinks(m: nat, d: nat)
    requires d >= 1
    ensures 0 <= m / d <= m
  {
  }

  /** The integer part of the square root of `a`, searched upward from `n`. */
  function FloorRoot(a: real, n: nat := 0): (root: nat)
    requires (n * n) as real <= a
    ensures (root * root) as real <= a < ((root + 1) * (root + 1)) as real
    decreases a.Floor - n
  {
    if a < ((n + 1) * (n + 1)) as real then n
    else
      assert a.Floor >= (n + 1) * (n + 1) > n;
      FloorRoot(a, n + 1)
  }

  function Falloff(closest: real, lod: nat): (f: nat)
    requires closest >= 0.0
    ensures f <= I32_MAX
  {
    hide FloorRoot, Pow2;
    DivideShrinks(Min(FloorRoot(closest), I32_MAX), Pow2(4 + lod));
    ShiftRight(Min(FloorRoot(closest), I32_MAX), 4 + lod)
  }

  function Band0(closest: real, lod: nat): Byte
    requires closest >= 0.0
  {
    Max(BAND_MAX - Falloff(closest, lod), 0)
  }

  datatype Evaluation = Evaluation(priority: Priority, closest: real)

  function Evaluated(closest: real, lod: nat, band2: Byte): Evaluation
    requires closest >= 0.0 && lod < MAX_LOD
  {
    Evaluation(Packed(Band0(closest, lod), MAX_LOD - lod, band2, DEFAULT_BAND3), closest)
  }

  // ----- Shared viewer data -----

  class PriorityViewersData {
    var viewers: seq<Vec3>
    var viewersCount: nat
    var highestViewDistance: real

    ghost predicate Valid()
      reads this
    {
      viewersCount <= |viewers| && viewersCount < U32_MODULUS
    }

    function Active(): seq<Vec3>
      reads this
      requires Valid()
    {
      viewers[..viewersCount]
    }

    constructor (viewers: seq<Vec3>, highestViewDistance: real := DEFAULT_HIGHEST_VIEW_DISTANCE)
      requires |viewers| < U32_MODULUS
      ensures Valid() && Active() == viewers && this.highestViewDistance == highestViewDistance
    {
      this.viewers, this.viewersCount, this.highestViewDistance := viewers, |viewers|, highestViewDistance;
    }

    method SetViewers(viewers: seq<Vec3>)
      requires |viewers| < U32_MODULUS
      modifies this
      ensures Valid() && this.viewers == viewers && Active() == viewers
      ensures highestViewDistance == old(highestViewDistance)
    {
      this.viewers := viewers;
      this.viewersCount := |viewers|;
    }

    method SetViewersCount(count: nat)
      requires count < U32_MODULUS && count <= |viewers|
      modifies this`viewersCount
      ensures Valid() && viewersCount == count && Active() == viewers[..count]
    {
      viewersCount := count;
    }

    method SetHighestViewDistance(distance: real)
      modifies this`highestViewDistance
      ensures highestViewDistance == distance
    {
      highestViewDistance := distance;
    }
  }

  class PriorityDependency {
    const viewers: PriorityViewersData
    const worldPosition: Vec3
    const dropDistanceSquared: real

    constructor (viewers: PriorityViewersData, worldPosition: Vec3, dropDistanceSquared: real)
      ensures this.viewers == viewers && this.worldPosition == worldPosition
      ensures this.dropDistanceSquared == dropDistanceSquared
    {
      this.viewers, this.worldPosition, this.dropDistanceSquared := viewers, worldPosition, dropDistanceSquared;
    }

    function ClosestDistanceSquared(): (closest: real)
      reads viewers
      requires viewers.Valid()
      ensures closest >= 0.0
      ensures viewers.viewersCount == 0 ==> closest == LengthSquared(worldPosition)
      ensures viewers.viewersCount > 0 ==> IsCappedMinimum(closest, viewers.Active(), worldPosition)
    {
      ClosestIsCappedMinimum(viewers.Active(), worldPosition);
      if viewers.viewersCount == 0 then LengthSquared(worldPosition)
      else FoldMin(FARTHEST_SQUARED, viewers.viewers[..viewers.viewersCount], worldPosition)
    }

    function Evaluate(lod: nat, band2: Byte): (e: Evaluation)
      reads viewers
      requires viewers.Valid() && lod < MAX_LOD
      ensures e.closest >= 0.0 && e.closest == Closest(viewers.Active(), worldPosition)
      ensures e == Evaluated(e.closest, lod, band2)
      ensures HasBands(e.priority, Band0(e.closest, lod), 24 - lod, band2, 10)
      ensures viewers.viewersCount > 0 ==>
                IsCappedMinimum(e.closest, viewers.Active(), worldPosition) && Band(e.priority, 0) >= 236
    {
      hide Band, Band0, IsCappedMinimum, FoldMin;
      var closest := ClosestDistanceSquared();
      BandsUnpack(Band0(closest, lod), MAX_LOD - lod, band2, DEFAULT_BAND3);
      Band0Bound(viewers.Active(), worldPosition, lod);
      Evaluated(closest, lod, band2)
    }
  }

  // ----- The closest distance -----

  ghost predicate IsCappedMinimum(closest: real, active: seq<Vec3>, position: Vec3) {
    && closest <= FARTHEST_SQUARED
    && (forall v :: v in active ==> closest <= DistanceSquared(position, v))
    && (closest == FARTHEST_SQUARED || exists v :: v in active && closest == DistanceSquared(position, v))
  }

  lemma {:induction false} FoldIsMinimum(least: real, viewers: seq<Vec3>, position: Vec3)
    ensures var m := FoldMin(least, viewers, position);
            && m <= least
            && (forall v :: v in viewers ==> m <= DistanceSquared(position, v))
            && (m == least || exists v :: v in viewers && m == DistanceSquared(position, v))
    decreases |viewers|
  {
    if viewers != [] {
      var first, rest := viewers[0], viewers[1..];
      FoldIsMinimum(MinReal(least, DistanceSquared(position, first)), rest, position);
      assert forall v :: v in viewers <==> v == first || v in rest;
      assert first in viewers;
    }
  }

  lemma {:induction false} ClosestIsCappedMinimum(active: seq<Vec3>, position: Vec3)
    ensures Closest(active, position) >= 0.0
    ensures active != [] ==> IsCappedMinimum(Closest(active, position), active, position)
  {
    hide Square, FoldMin;
    FoldIsMinimum(FARTHEST_SQUARED, active, position);
    LengthIsNonnegative(position);
    forall v | v in active
      ensures DistanceSquared(position, v) >= 0.0
    {
      LengthIsNonnegative(Vec3(position.x - v.x, position.y - v.y, position.z - v.z));
    }
  }

  lemma LengthIsNonnegative(v: Vec3)
    ensures LengthSquared(v) >= 0.0
  {
    SquareIsNonnegative(v.x);
    SquareIsNonnegative(v.y);
    SquareIsNonnegative(v.z);
  }

  /**
   With a viewer active, a task is too far exactly when every active viewer is beyond its drop
   distance and that distance is below the cap: a squared drop distance of 99999 or more never drops.
   */
  lemma {:induction false} TooFarExactly(active: seq<Vec3>, position: Vec3, drop: real)
    requires active != []
    ensures TooFar(Closest(active, position), drop) <==>
              drop < 99_999.0 && forall v :: v in active ==> DistanceSquared(position, v) > drop
  {
    hide LengthSquared, DistanceSquared, Closest;
    ClosestIsCappedMinimum(active, position);
  }

  /** Every viewer of `before` has one in `after` at least as close. */
  ghost predicate NoneRecedes(before: seq<Vec3>, after: seq<Vec3>, position: Vec3) {
    forall v :: v in before ==> exists w :: w in after && DistanceSquared(position, w) <= DistanceSquared(position, v)
  }

  lemma {:induction false} ClosestIsMonotone(before: seq<Vec3>, after: seq<Vec3>, position: Vec3)
    requires before != [] && NoneRecedes(before, after, position)
    ensures after != [] && Closest(after, position) <= Closest(before, position)
  {
    hide LengthSquared, DistanceSquared, Closest;
    assert before[0] in before;
    ClosestIsCappedMinimum(before, position);
    ClosestIsCappedMinimum(after, position);
  }

  // ----- Priorities -----

  lemma SquareRootAscends(m: nat, n: nat)
    requires m * m < (n + 1) * (n + 1)
    ensures m <= n
  {
    if m > n {
      ScaledOrder(n + 1, m, m);
      ScaledOrder(n + 1, m, n + 1);
    }
  }

  lemma {:induction false} RootIsMonotone(a: real, b: real)
    requires 0.0 <= a <= b
    ensures FloorRoot(a) <= FloorRoot(b)
  {
    SquareRootAscends(FloorRoot(a), FloorRoot(b));
  }

  lemma {:induction false} Band0IsMonotone(near: real, far: real, lod: nat)
    requires 0.0 <= near <= far
    ensures Band0(near, lod) >= Band0(far, lod)
  {
    hide FloorRoot, Pow2;
    RootIsMonotone(near, far);
    QuotientOrder(Min(FloorRoot(near), I32_MAX), Min(FloorRoot(far), I32_MAX), Pow2(4 + lod));
  }

  /** Adding viewers, or moving them closer, never lowers a task's priority while one was active. */
  lemma {:induction false} ApproachNeverLowers(before: seq<Vec3>, after: seq<Vec3>, position: Vec3, lod: nat,
                                               band2: Byte)
    requires before != [] && NoneRecedes(before, after, position) && lod < MAX_LOD
    ensures Closest(before, position) >= 0.0 && Closest(after, position) >= 0.0
    ensures Evaluated(Closest(after, position), lod, band2).priority.whole
            >= Evaluated(Closest(before, position), lod, band2).priority.whole
  {
    hide Closest, Band0;
    ClosestIsMonotone(before, after, position);
    ClosestIsCappedMinimum(before, position);
    ClosestIsCappedMinimum(after, position);
    Band0IsMonotone(Closest(after, position), Closest(before, position), lod);
  }

  /**
   When the first viewers become active, a task looks further away exactly when the world origin was closer
   than all of them and than the cap, and its priority drops exactly when that reaches a further falloff step.
   */
  lemma {:induction false} FirstViewersRecedeExactly(active: seq<Vec3>, position: Vec3, lod: nat, band2: Byte)
    requires active != [] && lod < MAX_LOD
    ensures var with, without := Closest(active, position), Closest([], position);
            && with >= 0.0 && without >= 0.0
            && (with > without <==>
                  && LengthSquared(position) < FARTHEST_SQUARED
                  && forall v :: v in active ==> LengthSquared(position) < DistanceSquared(position, v))
            && (Evaluated(with, lod, band2).priority.whole < Evaluated(without, lod, band2).priority.whole <==>
                  Falloff(with, lod) > Falloff(without, lod))
  {
    hide LengthSquared, DistanceSquared, FoldMin, Falloff;
    ClosestIsCappedMinimum(active, position);
    ClosestIsCappedMinimum([], position);
    Band0Bound(active, position, lod);
  }

  lemma {:induction false} CapRoot()
    ensures FloorRoot(FARTHEST_SQUARED) == 316
  {
    SquareRootAscends(FloorRoot(FARTHEST_SQUARED), 316);
    SquareRootAscends(316, FloorRoot(FARTHEST_SQUARED));
  }

  /**
   With a viewer active the first band is at least 255 - (316 >> (4 + lod)), which a task that no viewer
   is near has exactly. So it never falls below 236, and from LOD 5 on distance makes no difference.
   */
  lemma {:induction false} Band0Bound(active: seq<Vec3>, position: Vec3, lod: nat)
    requires lod < MAX_LOD
    ensures var closest := Closest(active, position);
            && closest >= 0.0
            && (active != [] ==> Band0(closest, lod) >= BAND_MAX - 316 / Pow2(4 + lod))
            && (active != [] && closest == FARTHEST_SQUARED ==> Band0(closest, lod) == BAND_MAX - 316 / Pow2(4 + lod))
            && (active != [] ==> Band0(closest, lod) >= 236)
            && (active != [] && lod >= 5 ==> Band0(closest, lod) == BAND_MAX)
  {
    hide Closest, FloorRoot;
    ClosestIsCappedMinimum(active, position);
    if active != [] {
      CapRoot();
      PowersAscend(4, 4 + lod);
      DivideBy(lod);
      Band0IsMonotone(Closest(active, position), FARTHEST_SQUARED, lod);
    }
  }

  lemma {:induction false} RootReaches(a: real, k: nat)
    requires a >= 0.0
    ensures FloorRoot(a) >= k <==> a >= (k * k) as real
  {
    var root := FloorRoot(a);
    if root >= k {
      ScaledOrder(k, root, k);
      ScaledOrder(k, root, root);
    } else {
      ScaledOrder(root + 1, k, root + 1);
      ScaledOrder(root + 1, k, k);
    }
  }

  /** The first band has fallen by `k` exactly from distance k << (4 + lod) on, if an i32 holds that distance. */
  lemma {:induction false} Band0FallsExactly(closest: real, lod: nat, k: nat)
    requires closest >= 0.0 && 1 <= k <= 255
    ensures var reach := k * Pow2(4 + lod);
            Band0(closest, lod) <= 255 - k <==> closest >= (reach * reach) as real && reach <= I32_MAX
  {
    hide FloorRoot, Pow2;
    QuotientReaches(Min(FloorRoot(closest), I32_MAX), Pow2(4 + lod), k);
    RootReaches(closest, k * Pow2(4 + lod));
  }

  /** The first band is 0 exactly from distance 255 << (4 + lod) on, if an i32 holds that distance. */
  lemma {:induction false} Band0VanishesExactly(closest: real, lod: nat)
    requires closest >= 0.0
    ensures var reach := BAND_MAX * Pow2(4 + lod);
            Band0(closest, lod) == 0 <==> closest >= (reach * reach) as real && reach <= I32_MAX
  {
    hide FloorRoot, Pow2;
    Band0FallsExactly(closest, lod, BAND_MAX);
  }

  lemma {:induction false} PowersAscend(m: nat, n: nat)
    requires m <= n
    ensures Pow2(m) <= Pow2(n)
    decreases n
  {
    if m < n {
      PowersAscend(m, n - 1);
    }
  }

  lemma {:induction false} DivideBy(lod: nat)
    ensures 316 / Pow2(4 + lod) <= 19
    ensures lod >= 5 ==> 316 / Pow2(4 + lod) == 0
  {
    assert Pow2(4) == 16 && Pow2(9) == 512 by {
      assert Pow2(6) == 64;
    }
    PowersAscend(4, 4 + lod);
    if lod >= 5 {
      PowersAscend(9, 4 + lod);
    }
  }

  /** Tasks are ordered by band 2, then by finer detail, and only then by distance. */
  lemma {:induction false} EvaluationOrder(near: real, lod: nat, band2: Byte, far: real, lod': nat, band2': Byte)
    requires near >= 0.0 && far >= 0.0 && lod < MAX_LOD && lod' < MAX_LOD
    ensures Evaluated(near, lod, band2).priority.whole > Evaluated(far, lod', band2').priority.whole <==>
              || band2 > band2'
              || (band2 == band2' && lod < lod')
              || (band2 == band2' && lod == lod' && Band0(near, lod) > Band0(far, lod))
  {
    hide Band0;
    var a: Byte, b: Byte := Band0(near, lod), Band0(far, lod');
  }

  // ----- Viewers of the engine -----

  datatype ViewerDistances = ViewerDistances(horizontal: nat, vertical: nat) {
    function Largest(): nat {
      if horizontal > vertical then horizontal else vertical
    }
  }

  datatype Viewer = Viewer(worldPosition: Vec3, viewDistances: ViewerDistances)

  predicate Attains(d: ViewerDistances, distance: nat) {
    d.horizontal == distance || d.vertical == distance
  }

  function Positions(viewers: seq<Viewer>): seq<Vec3> {
    seq(|viewers|, i requires 0 <= i < |viewers| => viewers[i].worldPosition)
  }

  function LargestDistance(viewers: seq<Viewer>): nat {
    if viewers == [] then 0
    else Max(LargestDistance(viewers[..|viewers| - 1]), viewers[|viewers| - 1].viewDistances.Largest())
  }

  /** The values in slot order are exactly those some live handle resolves to. */
  lemma {:induction false} LiveValuesAreContents<T>(r: Registry<T>, n: nat)
    requires n <= |r.slots|
    ensures forall key: SlotKey :: key in r.Contents() && key.index < n ==> r.Contents()[key] in r.LiveValues(n)
    ensures forall v :: v in r.LiveValues(n) ==>
              exists key: SlotKey :: key in r.Contents() && key.index < n && r.Contents()[key] == v
  {
    if n > 0 {
      LiveValuesAreContents(r, n - 1);
      var key := r.KeyAt(n - 1);
      assert r.Get(key) == r.slots[n - 1].value;
      forall k: SlotKey | k in r.Contents() && k.index < n
        ensures r.Contents()[k] in r.LiveValues(n)
      {
        if k.index == n - 1 {
          assert k == key;
        }
      }
    }
  }

  /** No viewer sees farther in either direction, and one sees exactly as far in one of them. */
  lemma {:induction false} LargestDistanceBounds(viewers: seq<Viewer>)
    ensures forall v :: v in viewers ==>
              && v.viewDistances.horizontal <= LargestDistance(viewers)
              && v.viewDistances.vertical <= LargestDistance(viewers)
    ensures viewers != [] ==> exists v :: v in viewers && Attains(v.viewDistances, LargestDistance(viewers))
    ensures viewers == [] ==> LargestDistance(viewers) == 0
  {
    if viewers != [] {
      var rest, last := viewers[..|viewers| - 1], viewers[|viewers| - 1];
      LargestDistanceBounds(rest);
      assert viewers == rest + [last];
      assert last in viewers;
      if rest == [] {
        assert Attains(last.viewDistances, LargestDistance(viewers));
      } else {
        var v :| v in rest && Attains(v.viewDistances, LargestDistance(rest));
        assert v in viewers;
      }
    }
  }

  /** Copies every live viewer, in slot order, to the data that tasks share. */
  method SyncViewersTaskPriorityData(viewers: GenerationalSlotMap<Viewer>, shared: PriorityViewersData)
    requires |viewers.State().LiveValues(|viewers.slots|)| < U32_MODULUS
    modifies shared
    ensures shared.Valid()
    ensures shared.Active() == Positions(viewers.State().LiveValues(|viewers.slots|))
    ensures shared.highestViewDistance
            == LargestDistance(viewers.State().LiveValues(|viewers.slots|)) as real * 2.0
  {
    var live := viewers.Values();
    var maxDistance := 0;
    var positions: seq<Vec3> := [];
    for i := 0 to |live|
      invariant maxDistance == LargestDistance(live[..i])
      invariant positions == Positions(live[..i])
    {
      assert live[..i + 1][..i] == live[..i];
      maxDistance := Max(maxDistance, live[i].viewDistances.Largest());
      positions := positions + [live[i].worldPosition];
    }
    assert live[..|live|] == live;
    shared.SetViewers(positions);
    shared.SetHighestViewDistance(maxDistance as real * 2.0);
  }

  /** After a sync, a task within its drop distance of any live viewer is kept, and one near none is dropped. */
  lemma {:induction false} SyncedTaskDropsExactly(r: Registry<Viewer>, position: Vec3, drop: real)
    requires r.Contents() != map[]
    ensures TooFar(Closest(Positions(r.LiveValues(|r.slots|)), position), drop) <==>
              && drop < FARTHEST_SQUARED
              && forall key: SlotKey :: key in r.Contents() ==>
                   DistanceSquared(position, r.Contents()[key].worldPosition) > drop
  {
    hide LengthSquared, DistanceSquared, Closest, FoldMin;
    var live := r.LiveValues(|r.slots|);
    LiveValuesAreContents(r, |r.slots|);
    PositionsHold(live);
    var key: SlotKey :| key in r.Contents();
    assert r.Contents()[key] in live;
    TooFarExactly(Positions(live), position, drop);
    assert forall key: SlotKey :: key in r.Contents() ==> r.Contents()[key].worldPosition in Positions(live);
  }

  lemma PositionsHold(viewers: seq<Viewer>)
    ensures forall v :: v in viewers ==> v.worldPosition in Positions(viewers)
    ensures forall p :: p in Positions(viewers) ==> exists v :: v in viewers && v.worldPosition == p
  {
    forall v | v in viewers
      ensures v.worldPosition in Positions(viewers)
    {
      var i :| 0 <= i < |viewers| && viewers[i] == v;
      assert Positions(viewers)[i] == v.worldPosition;
    }
  }
}
