/**
 One channel of a voxel buffer: an exact 3D array of cells. The cells of an SDF channel deeper
 than 8 bits hold distances; the cells of every other channel hold raw ids.
 */
module Voxels {
  import opened Geometry

  datatype Voxel = Sdf(distance: real) | Raw(id: int)

  type Channel = array3<Voxel>

  /** A channel's content as a value. */
  type Grid = map<Vec3i, Voxel>

  function Size(c: Channel): Vec3i {
    Vec3i(c.Length0, c.Length1, c.Length2)
  }

  predicate InBounds(size: Vec3i, v: Vec3i) {
    0 <= v.x < size.x && 0 <= v.y < size.y && 0 <= v.z < size.z
  }

  /** The voxel lies in the half-open box. */
  predicate InBox(lo: Vec3i, hi: Vec3i, v: Vec3i) {
    lo.x <= v.x < hi.x && lo.y <= v.y < hi.y && lo.z <= v.z < hi.z
  }

  ghost function At(c: Channel, v: Vec3i): Voxel
    requires InBounds(Size(c), v)
    reads c
  {
    c[v.x, v.y, v.z]
  }

  /** No cell of the channel holds a distance. */
  ghost predicate AllRaw(c: Channel)
    reads c
  {
    forall v: Vec3i :: InBounds(Size(c), v) ==> At(c, v).Raw?
  }

  /** The voxels of a buffer. */
  ghost function Cells(size: Vec3i): (s: set<Vec3i>)
    ensures forall v: Vec3i :: v in s <==> InBounds(size, v)
  {
    var s := set x: int, y: int, z: int | 0 <= x < size.x && 0 <= y < size.y && 0 <= z < size.z :: Vec3i(x, y, z);
    assert forall v: Vec3i :: InBounds(size, v) ==> v == Vec3i(v.x, v.y, v.z);
    s
  }

  ghost function Contents(c: Channel): (g: Grid)
    reads c
    ensures forall v: Vec3i :: v in g <==> InBounds(Size(c), v)
    ensures forall v: Vec3i :: v in g ==> g[v] == At(c, v)
  {
    map v: Vec3i | v in Cells(Size(c)) :: At(c, v)
  }

  /** Writes one value to every cell of a box that lies inside the buffer. */
  method FillArea(c: Channel, value: Voxel, lo: Vec3i, hi: Vec3i)
    requires 0 <= lo.x <= hi.x <= c.Length0 && 0 <= lo.y <= hi.y <= c.Length1 && 0 <= lo.z <= hi.z <= c.Length2
    modifies c
    ensures forall v: Vec3i :: InBounds(Size(c), v) ==> At(c, v) == if InBox(lo, hi, v) then value else old(At(c, v))
  {
    forall x, y, z | lo.x <= x < hi.x && lo.y <= y < hi.y && lo.z <= z < hi.z {
      c[x, y, z] := value;
    }
  }

  method Write(c: Channel, x: int, y: int, z: int, value: Voxel)
    requires InBounds(Size(c), Vec3i(x, y, z))
    modifies c
    ensures forall v: Vec3i :: InBounds(Size(c), v) ==> At(c, v) == if v == Vec3i(x, y, z) then value else old(At(c, v))
  {
    c[x, y, z] := value;
  }
}
