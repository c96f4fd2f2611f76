/**
 Values shared by the voxel algorithms: integer and real 3-vectors, and the machine
 integer conversions that the original code performs explicitly.

 Real numbers stand for `f32`; `int` stands for a machine integer, with wrap-around,
 saturation and range checks written out where the code has them.
 */
module Geometry {

  datatype Option<+T> = None | Some(value: T)

  datatype Result<+T, +E> = Ok(value: T) | Err(error: E)

  /** An integer voxel position. */
  datatype Vec3i = Vec3i(x: int, y: int, z: int) {
    function At(i: nat): int
      requires i < 3
    {
      if i == 0 then x else if i == 1 then y else z
    }

    function With(i: nat, value: int): (v: Vec3i)
      requires i < 3
      ensures forall j: nat :: j < 3 ==> v.At(j) == if j == i then value else At(j)
    {
      if i == 0 then Vec3i(value, y, z) else if i == 1 then Vec3i(x, value, z) else Vec3i(x, y, value)
    }
  }

  /** The order in which nested loops by z, then y, then x visit voxels. */
  predicate Before(a: Vec3i, b: Vec3i) {
    a.z < b.z || (a.z == b.z && (a.y < b.y || (a.y == b.y && a.x < b.x)))
  }

  /** A point or a direction in space. */
  datatype Vec3 = Vec3(x: real, y: real, z: real) {
    function At(i: nat): real
      requires i < 3
    {
      if i == 0 then x else if i == 1 then y else z
    }

    function With(i: nat, value: real): Vec3
      requires i < 3
    {
      if i == 0 then Vec3(value, y, z) else if i == 1 then Vec3(x, value, z) else Vec3(x, y, value)
    }
  }

  const I32_MIN := -0x8000_0000
  const I32_MAX := 0x7fff_ffff
  const U32_MODULUS := 0x1_0000_0000
  const U64_MAX := 0xffff_ffff_ffff_ffff

  predicate IsI32(n: int) {
    I32_MIN <= n <= I32_MAX
  }

  function Min(a: int, b: int): int {
    if a <= b then a else b
  }

  function Max(a: int, b: int): int {
    if a <= b then b else a
  }

  function Abs(a: int): int {
    if a < 0 then -a else a
  }

  function MinReal(a: real, b: real): real {
    if a <= b then a else b
  }

  function MaxReal(a: real, b: real): real {
    if a <= b then b else a
  }

  function AbsReal(a: real): real {
    if a < 0.0 then -a else a
  }

  function Clamp01(a: real): real {
    if a < 0.0 then 0.0 else if a > 1.0 then 1.0 else a
  }

  function Square(d: real): real {
    d * d
  }

  function LengthSquared(v: Vec3): real {
    Square(v.x) + Square(v.y) + Square(v.z)
  }

  function DistanceSquared(p: Vec3, q: Vec3): real {
    Square(p.x - q.x) + Square(p.y - q.y) + Square(p.z - q.z)
  }

  lemma SquareIsNonnegative(d: real)
    ensures Square(d) >= 0.0
  {
  }

  lemma ProductIsPositive(a: real, b: real)
    requires a >= 0.0 && b >= 0.0
    ensures a * b >= 0.0
    ensures a > 0.0 && b > 0.0 ==> a * b > 0.0
  {
  }

  lemma Scale(a: real, b: real, k: real)
    requires k >= 0.0 && a <= b
    ensures a * k <= b * k
    ensures a < b && k > 0.0 ==> a * k < b * k
  {
    ProductIsPositive(b - a, k);
    assert (b - a) * k == b * k - a * k;
  }

  lemma LargerSquare(a: real, b: real)
    requires 0.0 <= a < b
    ensures a * a < b * b
  {
    var d, e := b - a, b + a;
    ProductIsPositive(d, e);
    assert d * e == b * b - a * a;
  }

  lemma SquaresOrder(a: real, b: real)
    requires a >= 0.0 && b >= 0.0
    ensures a <= b <==> a * a <= b * b
    ensures a < b <==> a * a < b * b
  {
    if a < b {
      LargerSquare(a, b);
    } else if b < a {
      LargerSquare(b, a);
    }
  }

  lemma SquareBelow(d: real, r: real)
    requires r >= 0.0 && d * d <= r * r
    ensures -r <= d <= r
    ensures d * d < r * r ==> -r < d < r
  {
    SquaresOrder(if d < 0.0 then -d else d, r);
    assert (-d) * (-d) == d * d;
  }

  lemma SignOfProduct(a: real, k: real)
    requires k > 0.0
    ensures a * k <= 0.0 <==> a <= 0.0
    ensures a * k < 0.0 <==> a < 0.0
  {
  }

  lemma Unscale(a: real, b: real, k: real)
    requires k > 0.0 && a * k <= b * k
    ensures a <= b
  {
    if a > b {
      Scale(b, a, k);
    }
  }

  lemma QuotientIs(a: real, d: real, q: real)
    requires d != 0.0 && q * d == a
    ensures a / d == q
  {
    assert (a / d) * d == a;
    assert (a / d - q) * d == 0.0;
  }

  lemma Apart(a: real, b: real, k: real)
    ensures a * k - b * k == (a - b) * k
  {
  }

  /** The smallest integer that is not below `a`. */
  function Ceil(a: real): int {
    -((-a).Floor)
  }

  /** A value clamped to the `i32` range, as saturating operations and float casts do. */
  function SaturateI32(n: int): int {
    if n < I32_MIN then I32_MIN else if n > I32_MAX then I32_MAX else n
  }

  /** Two's complement wrap-around to the `i32` range. */
  function WrapI32(n: int): int {
    (n - I32_MIN) % U32_MODULUS + I32_MIN
  }

  /** A float-to-`i32` cast: the fraction is dropped toward zero and the result saturates. */
  function TruncateToI32(a: real): int {
    SaturateI32(if a >= 0.0 then a.Floor else Ceil(a))
  }

  function Pow2(n: nat): (p: nat)
    ensures p >= 1
  {
    if n == 0 then 1 else 2 * Pow2(n - 1)
  }

  /** An arithmetic right shift. */
  function ShiftRight(a: int, n: nat): int {
    a / Pow2(n)
  }

  lemma OneMore(n: int, k: int)
    ensures (n + 1) * k == n * k + k
  {
  }

  lemma ScaledOrder(i: int, j: int, p: int)
    requires i <= j && p >= 0
    ensures i * p <= j * p
    ensures i < j && p >= 1 ==> i * p < j * p
  {
  }

  lemma QuotientReaches(t: int, d: int, n: int)
    requires d >= 1
    ensures n <= t / d <==> n * d <= t
  {
    var q, r := t / d, t % d;
    assert t == d * q + r;
    if n <= q {
      ScaledOrder(n, q, d);
    } else {
      ScaledOrder(q + 1, n, d);
    }
  }

  lemma WholeQuotientIs(a: int, n: int, q: int)
    requires n >= 1 && q * n <= a < q * n + n
    ensures a / n == q
  {
    QuotientReaches(a, n, q);
    QuotientReaches(a, n, q + 1);
    OneMore(q, n);
  }

  lemma QuotientOrder(a: int, b: int, n: int)
    requires n >= 1 && a <= b
    ensures a / n <= b / n
  {
    QuotientReaches(a, n, a / n);
    QuotientReaches(b, n, a / n);
  }

  /** Integer division that rounds toward zero. */
  function TruncDiv(a: int, b: int): int
    requires b > 0
  {
    if a >= 0 then a / b else -((-a) / b)
  }
}
