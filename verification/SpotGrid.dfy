/**
 Spot noise: one jittered spot center per grid cell, a point query that looks at the
 containing cell only, and the enumeration of the centers inside a half-open box.
 */
module SpotGrid {
  import opened Geometry
  import opened Hash

  datatype SpotError = CountOverflowed | TooManyCells | BadSetting

  const MAX_SPOT_GRID_CELLS := 65_536

  const SPOT_PRIME_X: Word := 501_125_321
  const SPOT_PRIME_Y: Word := 1_136_930_381
  const SPOT_PRIME_Z: Word := 1_720_413_743
  const SPOT_HASH_MULTIPLIER: Word := 0x27d4_eb2d
  const SPOT_PRIME_X_INVERSE: Word := 0x9ec2_8979
  const SPOT_PRIME_Y_INVERSE: Word := 0x5f30_ba85
  const SPOT_PRIME_Z_INVERSE: Word := 0x620a_98cf
  const SPOT_MULTIPLIER_INVERSE: Word := 0xfb69_9ca5

  // ----- The cell hash -----

  /** The two's complement bits of an `i32`. */
  function Bits(n: int): Word {
    n % U32_MODULUS
  }

  function FromBits(w: Word): (n: int)
    ensures IsI32(n) && Bits(n) == w
  {
    if w > I32_MAX then w - U32_MODULUS else w
  }

  function Mix2D(seed: Word, x: Word, y: Word): Word {
    Mul(Xor(Xor(seed, x), y), SPOT_HASH_MULTIPLIER)
  }

  function Mix3D(seed: Word, x: Word, y: Word, z: Word): Word {
    Mul(Xor(Xor(Xor(seed, x), y), z), SPOT_HASH_MULTIPLIER)
  }

  function SpotHash2D(x: int, y: int, seed: int): Word {
    Mix2D(Bits(seed), Mul(Bits(x), SPOT_PRIME_X), Mul(Bits(y), SPOT_PRIME_Y))
  }

  function SpotHash3D(x: int, y: int, z: int, seed: int): Word {
    Mix3D(Bits(seed), Mul(Bits(x), SPOT_PRIME_X), Mul(Bits(y), SPOT_PRIME_Y), Mul(Bits(z), SPOT_PRIME_Z))
  }

  lemma BitsAreInjective(a: int, b: int)
    requires IsI32(a) && IsI32(b) && Bits(a) == Bits(b)
    ensures a == b
  {
  }

  lemma {:induction false} ScaledBitsAreApart(a: int, b: int, k: Word, inv: Word)
    requires IsI32(a) && IsI32(b) && AreInverse(k, inv)
    ensures Mul(Bits(a), k) == Mul(Bits(b), k) ==> a == b
  {
    MulUndone(Bits(a), k, inv);
    MulUndone(Bits(b), k, inv);
    if Bits(a) == Bits(b) {
      BitsAreInjective(a, b);
    }
  }

  lemma {:induction false} XorIsInjective(a: Word, b: Word, c: Word)
    requires Xor(a, c) == Xor(b, c)
    ensures a == b
  {
    XorUndone(a, c);
    XorUndone(b, c);
  }

  lemma {:induction false} XorIsInjectiveOnTheRight(a: Word, b: Word, c: Word)
    requires Xor(c, a) == Xor(c, b)
    ensures a == b
  {
    XorUndone(a, c);
    XorUndone(b, c);
    XorCommutes(a, c);
    XorCommutes(b, c);
  }

  lemma {:induction false} MultiplierIsInjective(a: Word, b: Word)
    requires Mul(a, SPOT_HASH_MULTIPLIER) == Mul(b, SPOT_HASH_MULTIPLIER)
    ensures a == b
  {
    MulUndone(a, SPOT_HASH_MULTIPLIER, SPOT_MULTIPLIER_INVERSE);
    MulUndone(b, SPOT_HASH_MULTIPLIER, SPOT_MULTIPLIER_INVERSE);
  }

  lemma {:induction false} Mix2DIsInjective(seed: Word, x: Word, y: Word, other: Word)
    ensures Mix2D(seed, x, y) == Mix2D(seed, other, y) ==> x == other
    ensures Mix2D(seed, x, y) == Mix2D(seed, x, other) ==> y == other
  {
    if Mix2D(seed, x, y) == Mix2D(seed, other, y) {
      MultiplierIsInjective(Xor(Xor(seed, x), y), Xor(Xor(seed, other), y));
      XorIsInjective(Xor(seed, x), Xor(seed, other), y);
      XorIsInjectiveOnTheRight(x, other, seed);
    }
    if Mix2D(seed, x, y) == Mix2D(seed, x, other) {
      MultiplierIsInjective(Xor(Xor(seed, x), y), Xor(Xor(seed, x), other));
      XorIsInjectiveOnTheRight(y, other, Xor(seed, x));
    }
  }

  lemma {:induction false} Mix3DIsInjective(seed: Word, x: Word, y: Word, z: Word, other: Word)
    ensures Mix3D(seed, x, y, z) == Mix3D(seed, other, y, z) ==> x == other
    ensures Mix3D(seed, x, y, z) == Mix3D(seed, x, other, z) ==> y == other
    ensures Mix3D(seed, x, y, z) == Mix3D(seed, x, y, other) ==> z == other
  {
    Mix2DIsInjective(Xor(seed, x), y, z, other);
    if Mix3D(seed, x, y, z) == Mix3D(seed, other, y, z) {
      MultiplierIsInjective(Xor(Xor(Xor(seed, x), y), z), Xor(Xor(Xor(seed, other), y), z));
      XorIsInjective(Xor(Xor(seed, x), y), Xor(Xor(seed, other), y), z);
      XorIsInjective(Xor(seed, x), Xor(seed, other), y);
      XorIsInjectiveOnTheRight(x, other, seed);
    }
  }

  /** In 2D, changing one coordinate of a cell always changes its hash. */
  lemma {:induction false} SpotHash2DIsInjective(x: int, y: int, other: int, seed: int)
    requires IsI32(x) && IsI32(y) && IsI32(other)
    ensures SpotHash2D(x, y, seed) == SpotHash2D(other, y, seed) ==> x == other
    ensures SpotHash2D(x, y, seed) == SpotHash2D(x, other, seed) ==> y == other
  {
    var s, mx, my := Bits(seed), Mul(Bits(x), SPOT_PRIME_X), Mul(Bits(y), SPOT_PRIME_Y);
    Mix2DIsInjective(s, mx, my, Mul(Bits(other), SPOT_PRIME_X));
    Mix2DIsInjective(s, mx, my, Mul(Bits(other), SPOT_PRIME_Y));
    PrimeXKeepsCellsApart(x, other);
    PrimeYKeepsCellsApart(y, other);
  }

  lemma {:induction false} PrimeXKeepsCellsApart(a: int, b: int)
    requires IsI32(a) && IsI32(b)
    ensures Mul(Bits(a), SPOT_PRIME_X) == Mul(Bits(b), SPOT_PRIME_X) ==> a == b
  {
    ScaledBitsAreApart(a, b, SPOT_PRIME_X, SPOT_PRIME_X_INVERSE);
  }

  lemma {:induction false} PrimeYKeepsCellsApart(a: int, b: int)
    requires IsI32(a) && IsI32(b)
    ensures Mul(Bits(a), SPOT_PRIME_Y) == Mul(Bits(b), SPOT_PRIME_Y) ==> a == b
  {
    ScaledBitsAreApart(a, b, SPOT_PRIME_Y, SPOT_PRIME_Y_INVERSE);
  }

  lemma {:induction false} PrimeZKeepsCellsApart(a: int, b: int)
    requires IsI32(a) && IsI32(b)
    ensures Mul(Bits(a), SPOT_PRIME_Z) == Mul(Bits(b), SPOT_PRIME_Z) ==> a == b
  {
    ScaledBitsAreApart(a, b, SPOT_PRIME_Z, SPOT_PRIME_Z_INVERSE);
  }

  /** In 3D, changing one coordinate of a cell always changes its hash. */
  lemma {:induction false} SpotHash3DIsInjective(x: int, y: int, z: int, other: int, seed: int)
    requires IsI32(x) && IsI32(y) && IsI32(z) && IsI32(other)
    ensures SpotHash3D(x, y, z, seed) == SpotHash3D(other, y, z, seed) ==> x == other
    ensures SpotHash3D(x, y, z, seed) == SpotHash3D(x, other, z, seed) ==> y == other
    ensures SpotHash3D(x, y, z, seed) == SpotHash3D(x, y, other, seed) ==> z == other
  {
    var s, mx, my, mz := Bits(seed), Mul(Bits(x), SPOT_PRIME_X), Mul(Bits(y), SPOT_PRIME_Y), Mul(Bits(z), SPOT_PRIME_Z);
    Mix3DIsInjective(s, mx, my, mz, Mul(Bits(other), SPOT_PRIME_X));
    Mix3DIsInjective(s, mx, my, mz, Mul(Bits(other), SPOT_PRIME_Y));
    Mix3DIsInjective(s, mx, my, mz, Mul(Bits(other), SPOT_PRIME_Z));
    PrimeXKeepsCellsApart(x, other);
    PrimeYKeepsCellsApart(y, other);
    PrimeZKeepsCellsApart(z, other);
  }

  /** The seed is recovered from a cell of the plane and its hash. */
  lemma {:induction false} SpotHash2DRecoversSeed(x: int, y: int, seed: int)
    requires IsI32(x) && IsI32(y) && IsI32(seed)
    ensures Xor(Xor(Mul(SpotHash2D(x, y, seed), 0xfb69_9ca5), Bits(y) * 1_136_930_381 % U32_MODULUS),
                Bits(x) * 501_125_321 % U32_MODULUS) == Bits(seed)
  {
    hide Xor, Mul, Bits;
    var s, a, b := Bits(seed), Mul(Bits(x), SPOT_PRIME_X), Mul(Bits(y), SPOT_PRIME_Y);
    MulIs(Bits(x), SPOT_PRIME_X);
    MulIs(Bits(y), SPOT_PRIME_Y);
    SpotMultipliers();
    MulUndone(Xor(Xor(s, a), b), SPOT_HASH_MULTIPLIER, SPOT_MULTIPLIER_INVERSE);
    WordXorUndone(Xor(s, a), b);
    WordXorUndone(s, a);
  }

  /** The seed is recovered from a cell of space and its hash. */
  lemma {:induction false} SpotHash3DRecoversSeed(x: int, y: int, z: int, seed: int)
    requires IsI32(x) && IsI32(y) && IsI32(z) && IsI32(seed)
    ensures Xor(Xor(Xor(Mul(SpotHash3D(x, y, z, seed), 0xfb69_9ca5), Bits(z) * 1_720_413_743 % U32_MODULUS),
                    Bits(y) * 1_136_930_381 % U32_MODULUS),
                Bits(x) * 501_125_321 % U32_MODULUS) == Bits(seed)
  {
    hide Xor, Mul, Bits;
    var s, a, b, c := Bits(seed), Mul(Bits(x), SPOT_PRIME_X), Mul(Bits(y), SPOT_PRIME_Y), Mul(Bits(z), SPOT_PRIME_Z);
    MulIs(Bits(x), SPOT_PRIME_X);
    MulIs(Bits(y), SPOT_PRIME_Y);
    MulIs(Bits(z), SPOT_PRIME_Z);
    SpotMultipliers();
    MulUndone(Xor(Xor(Xor(s, a), b), c), SPOT_HASH_MULTIPLIER, SPOT_MULTIPLIER_INVERSE);
    WordXorUndone(Xor(Xor(s, a), b), c);
    WordXorUndone(Xor(s, a), b);
    WordXorUndone(s, a);
  }

  lemma MulIs(a: Word, k: Word)
    ensures Mul(a, k) == a * k % U32_MODULUS
  {
  }

  /** The x coordinate at which row `y` takes the hash `h`. */
  function CellWithHash(h: Word, y: int, seed: int): int {
    var mixed := Mul(h, SPOT_MULTIPLIER_INVERSE);
    FromBits(Mul(Xor(Bits(seed), Xor(mixed, Mul(Bits(y), SPOT_PRIME_Y))), SPOT_PRIME_X_INVERSE))
  }

  /** Every row takes every hash: 2D cell hashes are onto in each row. */
  lemma {:induction false} EveryRowTakesEveryHash(h: Word, y: int, seed: int)
    ensures IsI32(CellWithHash(h, y, seed)) && SpotHash2D(CellWithHash(h, y, seed), y, seed) == h
  {
    hide Xor, Mul, Mix2D, Bits;
    var mixed, my := Mul(h, SPOT_MULTIPLIER_INVERSE), Mul(Bits(y), SPOT_PRIME_Y);
    MulUndone(Xor(Bits(seed), Xor(mixed, my)), SPOT_PRIME_X_INVERSE, SPOT_PRIME_X);
    MixReaches(h, Bits(seed), my);
  }

  lemma {:induction false} MixReaches(h: Word, seed: Word, y: Word)
    ensures Mix2D(seed, Xor(seed, Xor(Mul(h, SPOT_MULTIPLIER_INVERSE), y)), y) == h
  {
    hide Xor, Mul;
    var mixed := Mul(h, SPOT_MULTIPLIER_INVERSE);
    assert Xor(seed, Xor(seed, Xor(mixed, y))) == Xor(mixed, y) by {
      WordXorUndone(Xor(mixed, y), seed);
    }
    assert Xor(Xor(mixed, y), y) == mixed by {
      WordXorUndone(mixed, y);
    }
    MulUndone(h, SPOT_MULTIPLIER_INVERSE, SPOT_HASH_MULTIPLIER);
  }

  // ----- Spot centers -----

  datatype Config = Config(cellSize: real, jitter: real, spotRadius: real, seed: int) {
    predicate Valid() {
      cellSize > 0.0 && 0.0 <= jitter <= 1.0 && spotRadius > 0.0
    }
  }

  function NewConfig(cellSize: real, jitter: real, spotRadius: real, seed: int): (r: Result<Config, SpotError>)
    ensures r.Ok? <==> cellSize > 0.0 && 0.0 <= jitter && jitter <= 1.0 && spotRadius > 0.0
    ensures r.Ok? ==> r.value == Config(cellSize, jitter, spotRadius, seed) && r.value.Valid()
  {
    var cfg := Config(cellSize, jitter, spotRadius, seed);
    if cfg.Valid() then Ok(cfg) else Err(BadSetting)
  }

  /** The 16-bit lanes of a hash, over [0, 1]. */
  function Lane2D(h: Word, axis: nat): real
    requires axis < 2
  {
    (if axis == 0 then h % 0x1_0000 else h / 0x1_0000 % 0x1_0000) as real / 65535.0
  }

  /** The 10-bit lanes of a hash, over [0, 1). */
  function Lane3D(h: Word, axis: nat): real
    requires axis < 3
  {
    (if axis == 0 then h % 0x400 else if axis == 1 then h / 0x400 % 0x400 else h / 0x10_0000 % 0x400) as real / 1024.0
  }

  function Jittered(lane: real, jitter: real): real {
    0.5 + (lane - 0.5) * jitter
  }

  function AxisCenter(cfg: Config, cell: int, lane: real): real {
    (cell as real + Jittered(lane, cfg.jitter)) * cfg.cellSize
  }

  function Center2D(cfg: Config, x: int, y: int): (real, real) {
    var h := SpotHash2D(x, y, cfg.seed);
    (AxisCenter(cfg, x, Lane2D(h, 0)), AxisCenter(cfg, y, Lane2D(h, 1)))
  }

  function Center3D(cfg: Config, c: Vec3i): Vec3 {
    var h := SpotHash3D(c.x, c.y, c.z, cfg.seed);
    Vec3(AxisCenter(cfg, c.x, Lane3D(h, 0)), AxisCenter(cfg, c.y, Lane3D(h, 1)), AxisCenter(cfg, c.z, Lane3D(h, 2)))
  }

  /** The cell index of a coordinate, saturated to `i32` by the cast. */
  function CellIndex(p: real, cellSize: real): int
    requires cellSize > 0.0
  {
    SaturateI32((p / cellSize).Floor)
  }

  /** Inside its cell, a jittered center never leaves the cell. */
  lemma {:induction false} CenterStaysInCell(cfg: Config, cell: int, lane: real)
    requires cfg.Valid() && 0.0 <= lane <= 1.0 && (lane < 1.0 || cfg.jitter < 1.0) && IsI32(cell)
    ensures (AxisCenter(cfg, cell, lane) / cfg.cellSize).Floor == cell
    ensures CellIndex(AxisCenter(cfg, cell, lane), cfg.cellSize) == cell
  {
    JitterStaysInUnit(lane, cfg.jitter);
    var n := cell as real + Jittered(lane, cfg.jitter);
    ScaleUndone(n, cfg.cellSize);
    assert AxisCenter(cfg, cell, lane) / cfg.cellSize == n;
    assert cell as real <= n < cell as real + 1.0;
  }

  lemma ScaleUndone(n: real, size: real)
    requires size > 0.0
    ensures (n * size) / size == n
  {
  }

  lemma JitterStaysInUnit(lane: real, jitter: real)
    requires 0.0 <= lane <= 1.0 && 0.0 <= jitter <= 1.0 && (lane < 1.0 || jitter < 1.0)
    ensures 0.0 <= Jittered(lane, jitter) < 1.0
  {
    var shift := lane - 0.5;
    HalfUnitScaled(shift, jitter);
    assert Jittered(lane, jitter) == 0.5 + shift * jitter;
  }

  /** An offset of at most a half shrinks with the jitter. */
  lemma HalfUnitScaled(shift: real, jitter: real)
    requires -0.5 <= shift <= 0.5 && 0.0 <= jitter <= 1.0
    ensures -0.5 <= shift * jitter <= 0.5
    ensures shift < 0.5 || jitter < 1.0 ==> shift * jitter < 0.5
  {
    if shift >= 0.0 {
      Shrinks(shift, jitter);
    } else {
      Shrinks(-shift, jitter);
      assert (-shift) * jitter == -(shift * jitter);
    }
  }

  lemma Shrinks(a: real, k: real)
    requires a >= 0.0 && 0.0 <= k <= 1.0
    ensures 0.0 <= a * k <= a
    ensures k < 1.0 && a > 0.0 ==> a * k < a
  {
    ProductIsPositive(a, k);
    ProductIsPositive(a, 1.0 - k);
    assert a * k == a - a * (1.0 - k);
  }

  lemma DivisionIsMonotone(a: real, b: real, size: real)
    requires size > 0.0 && a <= b
    ensures a / size <= b / size
  {
  }

  /** A cell whose center lies in an interval is in the interval's index range. */
  lemma {:induction false} RangeCovers(cfg: Config, cell: int, lane: real, lo: real, hi: real)
    requires cfg.Valid() && 0.0 <= lane <= 1.0 && (lane < 1.0 || cfg.jitter < 1.0) && IsI32(cell)
    requires lo <= AxisCenter(cfg, cell, lane) < hi
    ensures CellIndex(lo, cfg.cellSize) <= cell <= CellIndex(hi, cfg.cellSize)
  {
    var center := AxisCenter(cfg, cell, lane);
    CenterStaysInCell(cfg, cell, lane);
    DivisionIsMonotone(lo, center, cfg.cellSize);
    DivisionIsMonotone(center, hi, cfg.cellSize);
  }

  lemma LanesAreFractions(h: Word)
    ensures 0.0 <= Lane2D(h, 0) <= 1.0 && 0.0 <= Lane2D(h, 1) <= 1.0
    ensures 0.0 <= Lane3D(h, 0) < 1.0 && 0.0 <= Lane3D(h, 1) < 1.0 && 0.0 <= Lane3D(h, 2) < 1.0
  {
  }

  // ----- Work limits -----

  /** The number of cells an index range covers: a saturating subtraction, then a cast that rejects negatives. */
  function AxisWork(first: int, last: int): Result<nat, SpotError> {
    var span := SaturateI32(last - first);
    if span < 0 then Err(CountOverflowed) else Ok(span + 1)
  }

  function CheckedProduct(a: Result<nat, SpotError>, b: Result<nat, SpotError>): Result<nat, SpotError> {
    match (a, b)
    case (Ok(m), Ok(n)) => if m * n > U64_MAX then Err(CountOverflowed) else Ok(m * n)
    case (Err(e), _) => Err(e)
    case (_, Err(e)) => Err(e)
  }

  // ----- Enumeration in the plane -----

  datatype Rect = Rect(minX: real, minY: real, maxX: real, maxY: real)

  datatype Cell = Cell(x: int, y: int) {
    predicate IsI32Cell() {
      IsI32(x) && IsI32(y)
    }
  }

  predicate Inverted2D(rect: Rect) {
    rect.minX > rect.maxX || rect.minY > rect.maxY
  }

  predicate CenterInRect(cfg: Config, rect: Rect, c: Cell) {
    var (x, y) := Center2D(cfg, c.x, c.y);
    rect.minX <= x < rect.maxX && rect.minY <= y < rect.maxY
  }

  predicate InRange2D(cfg: Config, rect: Rect, c: Cell)
    requires cfg.Valid()
  {
    && CellIndex(rect.minX, cfg.cellSize) <= c.x <= CellIndex(rect.maxX, cfg.cellSize)
    && CellIndex(rect.minY, cfg.cellSize) <= c.y <= CellIndex(rect.maxY, cfg.cellSize)
  }

  function Work2D(cfg: Config, rect: Rect): Result<nat, SpotError>
    requires cfg.Valid()
  {
    CheckedProduct(AxisWork(CellIndex(rect.minX, cfg.cellSize), CellIndex(rect.maxX, cfg.cellSize)),
                   AxisWork(CellIndex(rect.minY, cfg.cellSize), CellIndex(rect.maxY, cfg.cellSize)))
  }

  /** The budget check passes. */
  predicate Accepted2D(cfg: Config, rect: Rect)
    requires cfg.Valid()
  {
    !Inverted2D(rect) && Work2D(cfg, rect).Ok? && Work2D(cfg, rect).value <= MAX_SPOT_GRID_CELLS
  }

  ghost predicate Distinct<T>(s: seq<T>) {
    forall i: nat, j: nat :: i < j < |s| ==> s[i] != s[j]
  }

  /** Cells in the order of the loops: row by row, then along the row. */
  predicate Before2D(a: Cell, b: Cell) {
    a.y < b.y || (a.y == b.y && a.x < b.x)
  }

  lemma IndexRangeIsOrdered(lo: real, hi: real, cellSize: real)
    requires cellSize > 0.0 && lo <= hi
    ensures CellIndex(lo, cellSize) <= CellIndex(hi, cellSize)
  {
    DivisionIsMonotone(lo, hi, cellSize);
  }

  method SpotCentersInRect(cfg: Config, rect: Rect)
    returns (r: Result<seq<(real, real)>, SpotError>, ghost cells: seq<Cell>, ghost visited: nat)
    requires cfg.Valid()
    ensures rect.minX > rect.maxX || rect.minY > rect.maxY ==> r == Ok([])
    ensures !Inverted2D(rect) ==> (r.Ok? <==> Accepted2D(cfg, rect))
    ensures r.Err? ==> r.error == if Work2D(cfg, rect).Err? then Work2D(cfg, rect).error else TooManyCells
    // One entry for each cell, row by row: the listed cells are those of the index range with a center inside.
    ensures r.Ok? ==>
              && |r.value| == |cells| && Distinct(cells)
              && (forall i: nat, j: nat :: i < j < |cells| ==> Before2D(cells[i], cells[j]))
              && (forall i: nat :: i < |cells| ==> r.value[i] == Center2D(cfg, cells[i].x, cells[i].y))
              && (forall c: Cell :: c in cells <==> InRange2D(cfg, rect, c) && CenterInRect(cfg, rect, c))
    ensures visited == if Accepted2D(cfg, rect) then Work2D(cfg, rect).value else 0
    ensures visited <= MAX_SPOT_GRID_CELLS
  {
    cells, visited := [], 0;
    if Inverted2D(rect) {
      assert forall c: Cell :: !CenterInRect(cfg, rect, c);
      return Ok([]), [], 0;
    }
    var xFirst, xLast := CellIndex(rect.minX, cfg.cellSize), CellIndex(rect.maxX, cfg.cellSize);
    var yFirst, yLast := CellIndex(rect.minY, cfg.cellSize), CellIndex(rect.maxY, cfg.cellSize);
    IndexRangeIsOrdered(rect.minX, rect.maxX, cfg.cellSize);
    IndexRangeIsOrdered(rect.minY, rect.maxY, cfg.cellSize);
    var work := CheckedProduct(AxisWork(xFirst, xLast), AxisWork(yFirst, yLast));
    if work.Err? {
      return Err(work.error), [], 0;
    }
    if work.value > MAX_SPOT_GRID_CELLS {
      return Err(TooManyCells), [], 0;
    }
    var centers;
    centers, cells, visited := VisitCells2D(cfg, rect, xFirst, xLast, yFirst, yLast);
    r := Ok(centers);
  }

  method VisitCells2D(cfg: Config, rect: Rect, xFirst: int, xLast: int, yFirst: int, yLast: int)
    returns (centers: seq<(real, real)>, ghost cells: seq<Cell>, ghost visited: nat)
    requires IsI32(xFirst) && IsI32(xLast) && IsI32(yFirst) && IsI32(yLast) && xFirst <= xLast && yFirst <= yLast
    requires var work := CheckedProduct(AxisWork(xFirst, xLast), AxisWork(yFirst, yLast));
             work.Ok? && work.value <= MAX_SPOT_GRID_CELLS
    ensures Lists2D(cfg, rect, xFirst, xLast, yFirst, yLast, cells, centers, Cell(xFirst, yLast + 1))
    ensures visited == CheckedProduct(AxisWork(xFirst, xLast), AxisWork(yFirst, yLast)).value
  {
    centers, cells, visited := [], [], 0;
    for cellY := yFirst to yLast + 1
      invariant Lists2D(cfg, rect, xFirst, xLast, yFirst, yLast, cells, centers, Cell(xFirst, cellY))
      invariant visited == (cellY - yFirst) * (xLast - xFirst + 1)
    {
      for cellX := xFirst to xLast + 1
        invariant Lists2D(cfg, rect, xFirst, xLast, yFirst, yLast, cells, centers, Cell(cellX, cellY))
        invariant visited == (cellY - yFirst) * (xLast - xFirst + 1) + cellX - xFirst
      {
        ListsNext2D(cfg, rect, xFirst, xLast, yFirst, yLast, cells, centers, Cell(cellX, cellY));
        var (centerX, centerY) := Center2D(cfg, cellX, cellY);
        visited := visited + 1;
        if centerX >= rect.minX && centerX < rect.maxX && centerY >= rect.minY && centerY < rect.maxY {
          centers := centers + [(centerX, centerY)];
          cells := cells + [Cell(cellX, cellY)];
        }
      }
      OneMore(cellY - yFirst, xLast - xFirst + 1);
    }
    ProductBound(xFirst, xLast, yFirst, yLast);
  }

  lemma {:induction false} ListsNext2D(cfg: Config, rect: Rect, xFirst: int, xLast: int, yFirst: int, yLast: int,
                                       cells: seq<Cell>, centers: seq<(real, real)>, next: Cell)
    requires Lists2D(cfg, rect, xFirst, xLast, yFirst, yLast, cells, centers, next)
    requires xFirst <= next.x <= xLast && yFirst <= next.y <= yLast
    ensures var after := next.(x := next.x + 1);
            if CenterInRect(cfg, rect, next)
            then Lists2D(cfg, rect, xFirst, xLast, yFirst, yLast, cells + [next],
                         centers + [Center2D(cfg, next.x, next.y)], after)
            else Lists2D(cfg, rect, xFirst, xLast, yFirst, yLast, cells, centers, after)
  {
    var after := next.(x := next.x + 1);
    assert forall c: Cell :: Before2D(c, after) <==> Before2D(c, next) || c == next;
    assert forall c: Cell :: c in cells + [next] <==> c in cells || c == next;
  }

  lemma {:induction false} ProductBound(xFirst: int, xLast: int, yFirst: int, yLast: int)
    requires IsI32(xFirst) && IsI32(xLast) && IsI32(yFirst) && IsI32(yLast) && xFirst <= xLast && yFirst <= yLast
    requires var work := CheckedProduct(AxisWork(xFirst, xLast), AxisWork(yFirst, yLast));
             work.Ok? && work.value <= MAX_SPOT_GRID_CELLS
    ensures (yLast + 1 - yFirst) * (xLast - xFirst + 1)
            == CheckedProduct(AxisWork(xFirst, xLast), AxisWork(yFirst, yLast)).value <= MAX_SPOT_GRID_CELLS
  {
    var m, n := AxisWork(xFirst, xLast).value, AxisWork(yFirst, yLast).value;
    FactorsAreSmall(m, n, 1);
    assert m == xLast - xFirst + 1 && n == yLast - yFirst + 1;
    assert n * m == m * n;
  }

  /** The entries so far are exactly the range's cells before `next` with a center inside, in order. */
  ghost predicate Lists2D(cfg: Config, rect: Rect, xFirst: int, xLast: int, yFirst: int, yLast: int,
                          cells: seq<Cell>, centers: seq<(real, real)>, next: Cell) {
    && |centers| == |cells|
    && (forall i: nat :: i < |cells| ==> centers[i] == Center2D(cfg, cells[i].x, cells[i].y))
    && (forall i: nat, j: nat :: i < j < |cells| ==> Before2D(cells[i], cells[j]))
    && (forall c: Cell :: c in cells <==>
          xFirst <= c.x <= xLast && yFirst <= c.y <= yLast && CenterInRect(cfg, rect, c) && Before2D(c, next))
  }

  // ----- Enumeration in space -----

  predicate Inverted3D(lo: Vec3, hi: Vec3) {
    lo.x > hi.x || lo.y > hi.y || lo.z > hi.z
  }

  predicate CenterInBox(cfg: Config, lo: Vec3, hi: Vec3, c: Vec3i) {
    var p := Center3D(cfg, c);
    lo.x <= p.x < hi.x && lo.y <= p.y < hi.y && lo.z <= p.z < hi.z
  }

  predicate IsI32Cell(c: Vec3i) {
    IsI32(c.x) && IsI32(c.y) && IsI32(c.z)
  }

  function FirstCell(cfg: Config, p: Vec3): Vec3i
    requires cfg.Valid()
  {
    Vec3i(CellIndex(p.x, cfg.cellSize), CellIndex(p.y, cfg.cellSize), CellIndex(p.z, cfg.cellSize))
  }

  predicate Between(first: Vec3i, last: Vec3i, c: Vec3i) {
    first.x <= c.x <= last.x && first.y <= c.y <= last.y && first.z <= c.z <= last.z
  }

  function Work3D(first: Vec3i, last: Vec3i): Result<nat, SpotError> {
    CheckedProduct(CheckedProduct(AxisWork(first.x, last.x), AxisWork(first.y, last.y)), AxisWork(first.z, last.z))
  }

  predicate Accepted3D(cfg: Config, lo: Vec3, hi: Vec3)
    requires cfg.Valid()
  {
    var work := Work3D(FirstCell(cfg, lo), FirstCell(cfg, hi));
    !Inverted3D(lo, hi) && work.Ok? && work.value <= MAX_SPOT_GRID_CELLS
  }

  /** The entries so far are exactly the range's cells before `next` with a center inside, in order. */
  ghost predicate Lists3D(cfg: Config, lo: Vec3, hi: Vec3, first: Vec3i, last: Vec3i, cells: seq<Vec3i>,
                          centers: seq<Vec3>, next: Vec3i) {
    && |centers| == |cells|
    && (forall i: nat :: i < |cells| ==> centers[i] == Center3D(cfg, cells[i]))
    && (forall i: nat, j: nat :: i < j < |cells| ==> Before(cells[i], cells[j]))
    && (forall c: Vec3i :: c in cells <==> Between(first, last, c) && CenterInBox(cfg, lo, hi, c) && Before(c, next))
  }

  lemma {:induction false} ListsNext(cfg: Config, lo: Vec3, hi: Vec3, first: Vec3i, last: Vec3i, cells: seq<Vec3i>,
                                     centers: seq<Vec3>, next: Vec3i)
    requires Lists3D(cfg, lo, hi, first, last, cells, centers, next) && Between(first, last, next)
    ensures var after := next.(x := next.x + 1);
            if CenterInBox(cfg, lo, hi, next)
            then Lists3D(cfg, lo, hi, first, last, cells + [next], centers + [Center3D(cfg, next)], after)
            else Lists3D(cfg, lo, hi, first, last, cells, centers, after)
  {
    var after := next.(x := next.x + 1);
    assert forall c: Vec3i :: Before(c, after) <==> Before(c, next) || c == next;
    assert forall c: Vec3i :: c in cells + [next] <==> c in cells || c == next;
  }

  method SpotCentersInAabb(cfg: Config, lo: Vec3, hi: Vec3)
    returns (r: Result<seq<Vec3>, SpotError>, ghost cells: seq<Vec3i>, ghost visited: nat)
    requires cfg.Valid()
    ensures lo.x > hi.x || lo.y > hi.y || lo.z > hi.z ==> r == Ok([])
    ensures !Inverted3D(lo, hi) ==> (r.Ok? <==> Accepted3D(cfg, lo, hi))
    ensures r.Err? ==>
              var work := Work3D(FirstCell(cfg, lo), FirstCell(cfg, hi));
              r.error == if work.Err? then work.error else TooManyCells
    ensures r.Ok? ==>
              && |r.value| == |cells| && Distinct(cells)
              && (forall i: nat, j: nat :: i < j < |cells| ==> Before(cells[i], cells[j]))
              && (forall i: nat :: i < |cells| ==> r.value[i] == Center3D(cfg, cells[i]))
              && (forall c: Vec3i :: c in cells <==>
                    Between(FirstCell(cfg, lo), FirstCell(cfg, hi), c) && CenterInBox(cfg, lo, hi, c))
    ensures visited == if Accepted3D(cfg, lo, hi) then Work3D(FirstCell(cfg, lo), FirstCell(cfg, hi)).value else 0
    ensures visited <= MAX_SPOT_GRID_CELLS
  {
    cells, visited := [], 0;
    if Inverted3D(lo, hi) {
      assert forall c: Vec3i :: !CenterInBox(cfg, lo, hi, c);
      return Ok([]), [], 0;
    }
    var first, last := FirstCell(cfg, lo), FirstCell(cfg, hi);
    IndexRangeIsOrdered(lo.x, hi.x, cfg.cellSize);
    IndexRangeIsOrdered(lo.y, hi.y, cfg.cellSize);
    IndexRangeIsOrdered(lo.z, hi.z, cfg.cellSize);
    var zWork := AxisWork(first.z, last.z);
    var work := CheckedProduct(CheckedProduct(AxisWork(first.x, last.x), AxisWork(first.y, last.y)), zWork);
    if work.Err? {
      return Err(work.error), [], 0;
    }
    if work.value > MAX_SPOT_GRID_CELLS {
      return Err(TooManyCells), [], 0;
    }
    var positions;
    positions, cells, visited := VisitCells(cfg, lo, hi, first, last);
    r := Ok(positions);
  }

  method VisitCells(cfg: Config, lo: Vec3, hi: Vec3, first: Vec3i, last: Vec3i)
    returns (positions: seq<Vec3>, ghost cells: seq<Vec3i>, ghost visited: nat)
    requires first.x <= last.x && first.y <= last.y && first.z <= last.z && IsI32Cell(first) && IsI32Cell(last)
    requires Work3D(first, last).Ok? && Work3D(first, last).value <= MAX_SPOT_GRID_CELLS
    ensures Lists3D(cfg, lo, hi, first, last, cells, positions, Vec3i(first.x, first.y, last.z + 1))
    ensures visited == Work3D(first, last).value
  {
    positions, cells, visited := [], [], 0;
    ghost var width, height := last.x - first.x + 1, last.y - first.y + 1;
    for cellZ := first.z to last.z + 1
      invariant Lists3D(cfg, lo, hi, first, last, cells, positions, Vec3i(first.x, first.y, cellZ))
      invariant visited == (cellZ - first.z) * (height * width)
    {
      for cellY := first.y to last.y + 1
        invariant Lists3D(cfg, lo, hi, first, last, cells, positions, Vec3i(first.x, cellY, cellZ))
        invariant visited == (cellZ - first.z) * (height * width) + (cellY - first.y) * width
      {
        for cellX := first.x to last.x + 1
          invariant Lists3D(cfg, lo, hi, first, last, cells, positions, Vec3i(cellX, cellY, cellZ))
          invariant visited == (cellZ - first.z) * (height * width) + (cellY - first.y) * width + cellX - first.x
        {
          ghost var next := Vec3i(cellX, cellY, cellZ);
          ListsNext(cfg, lo, hi, first, last, cells, positions, next);
          var center := Center3D(cfg, Vec3i(cellX, cellY, cellZ));
          visited := visited + 1;
          if center.x >= lo.x && center.x < hi.x && center.y >= lo.y && center.y < hi.y
             && center.z >= lo.z && center.z < hi.z {
            positions := positions + [center];
            cells := cells + [next];
          }
        }
        RowDone(cfg, lo, hi, first, last, cells, positions, cellY, cellZ);
        OneMore(cellY - first.y, width);
      }
      LayerDone(cfg, lo, hi, first, last, cells, positions, cellZ);
      OneMore(cellZ - first.z, height * width);
    }
    WorkIsVolume(first, last);
  }

  lemma {:induction false} RowDone(cfg: Config, lo: Vec3, hi: Vec3, first: Vec3i, last: Vec3i, cells: seq<Vec3i>,
                                   centers: seq<Vec3>, y: int, z: int)
    requires Lists3D(cfg, lo, hi, first, last, cells, centers, Vec3i(last.x + 1, y, z))
    ensures Lists3D(cfg, lo, hi, first, last, cells, centers, Vec3i(first.x, y + 1, z))
  {
    assert forall c: Vec3i :: Between(first, last, c) ==>
      (Before(c, Vec3i(last.x + 1, y, z)) <==> Before(c, Vec3i(first.x, y + 1, z)));
  }

  lemma {:induction false} LayerDone(cfg: Config, lo: Vec3, hi: Vec3, first: Vec3i, last: Vec3i, cells: seq<Vec3i>,
                                     centers: seq<Vec3>, z: int)
    requires Lists3D(cfg, lo, hi, first, last, cells, centers, Vec3i(first.x, last.y + 1, z))
    ensures Lists3D(cfg, lo, hi, first, last, cells, centers, Vec3i(first.x, first.y, z + 1))
  {
    assert forall c: Vec3i :: Between(first, last, c) ==>
      (Before(c, Vec3i(first.x, last.y + 1, z)) <==> Before(c, Vec3i(first.x, first.y, z + 1)));
  }

  /** An accepted work count is the number of cells in the range: no axis saturated. */
  lemma {:induction false} WorkIsVolume(first: Vec3i, last: Vec3i)
    requires first.x <= last.x && first.y <= last.y && first.z <= last.z && IsI32Cell(first) && IsI32Cell(last)
    requires Work3D(first, last).Ok? && Work3D(first, last).value <= MAX_SPOT_GRID_CELLS
    ensures (last.z + 1 - first.z) * ((last.y - first.y + 1) * (last.x - first.x + 1)) == Work3D(first, last).value
  {
    var m, n, k := AxisWork(first.x, last.x).value, AxisWork(first.y, last.y).value, AxisWork(first.z, last.z).value;
    FactorsAreSmall(m, n, k);
    assert m == last.x - first.x + 1 && n == last.y - first.y + 1 && k == last.z - first.z + 1;
    assert k * (n * m) == (m * n) * k;
  }

  lemma FactorsAreSmall(m: nat, n: nat, k: nat)
    requires m >= 1 && n >= 1 && k >= 1
    ensures m <= m * n * k && n <= m * n * k && k <= m * n * k
  {
    assert m * n >= m && m * n >= n;
    assert m * n * k >= m * n && m * n * k >= k;
  }

  /** A rectangle is accepted exactly when its index range covers at most 65536 cells; no count overflows. */
  lemma {:induction false} AcceptedExactly2D(cfg: Config, rect: Rect)
    requires cfg.Valid() && rect.minX <= rect.maxX && rect.minY <= rect.maxY
    ensures var width := CellIndex(rect.maxX, cfg.cellSize) - CellIndex(rect.minX, cfg.cellSize) + 1;
            var height := CellIndex(rect.maxY, cfg.cellSize) - CellIndex(rect.minY, cfg.cellSize) + 1;
            !Inverted2D(rect) && Work2D(cfg, rect).Ok? && (Accepted2D(cfg, rect) <==> width * height <= 65_536)
  {
    IndexRangeIsOrdered(rect.minX, rect.maxX, cfg.cellSize);
    IndexRangeIsOrdered(rect.minY, rect.maxY, cfg.cellSize);
    CountsSaturate(CellIndex(rect.minX, cfg.cellSize), CellIndex(rect.maxX, cfg.cellSize),
                   CellIndex(rect.minY, cfg.cellSize), CellIndex(rect.maxY, cfg.cellSize));
  }

  lemma {:induction false} CountsSaturate(x0: int, x1: int, y0: int, y1: int)
    requires IsI32(x0) && IsI32(x1) && IsI32(y0) && IsI32(y1) && x0 <= x1 && y0 <= y1
    ensures var work := CheckedProduct(AxisWork(x0, x1), AxisWork(y0, y1));
            && work == Ok(Min(x1 - x0 + 1, 0x8000_0000) * Min(y1 - y0 + 1, 0x8000_0000))
            && (work.value <= 65_536 <==> (x1 - x0 + 1) * (y1 - y0 + 1) <= 65_536)
  {
    var m, n := AxisWork(x0, x1).value, AxisWork(y0, y1).value;
    assert m == Min(x1 - x0 + 1, 0x8000_0000) && n == Min(y1 - y0 + 1, 0x8000_0000);
    BoundedProduct(m, n, 0x8000_0000, 0x8000_0000);
    SmallProducts(x1 - x0 + 1, y1 - y0 + 1);
  }

  lemma BoundedProduct(m: nat, n: nat, a: nat, b: nat)
    requires m <= a && n <= b
    ensures m * n <= a * b
  {
  }

  /** Capping both factors does not change whether a product is small. */
  lemma {:induction false} SmallProducts(m: nat, n: nat)
    requires m >= 1 && n >= 1
    ensures Min(m, 0x8000_0000) * Min(n, 0x8000_0000) <= 65_536 <==> m * n <= 65_536
  {
    FactorsAreSmall(m, n, 1);
    FactorsAreSmall(Min(m, 0x8000_0000), Min(n, 0x8000_0000), 1);
  }

  /**
   A box is accepted exactly when its index range covers at most 65536 cells. The count overflows
   exactly when the product of the three counts, each capped at 2^31, leaves the `u64` range.
   */
  lemma {:induction false} AcceptedExactly3D(cfg: Config, lo: Vec3, hi: Vec3)
    requires cfg.Valid() && lo.x <= hi.x && lo.y <= hi.y && lo.z <= hi.z
    ensures var first, last := FirstCell(cfg, lo), FirstCell(cfg, hi);
            var width, height, depth := last.x - first.x + 1, last.y - first.y + 1, last.z - first.z + 1;
            && !Inverted3D(lo, hi)
            && (Accepted3D(cfg, lo, hi) <==> width * height * depth <= 65_536)
            && (Work3D(first, last).Err? <==>
                Min(width, 0x8000_0000) * Min(height, 0x8000_0000) * Min(depth, 0x8000_0000) > U64_MAX)
            && (Work3D(first, last).Err? ==> Work3D(first, last).error == CountOverflowed)
  {
    var first, last := FirstCell(cfg, lo), FirstCell(cfg, hi);
    IndexRangeIsOrdered(lo.x, hi.x, cfg.cellSize);
    IndexRangeIsOrdered(lo.y, hi.y, cfg.cellSize);
    IndexRangeIsOrdered(lo.z, hi.z, cfg.cellSize);
    hide FirstCell;
    var width, height, depth := last.x - first.x + 1, last.y - first.y + 1, last.z - first.z + 1;
    CountsSaturate(first.x, last.x, first.y, last.y);
    var m, n, k := Min(width, 0x8000_0000), Min(height, 0x8000_0000), Min(depth, 0x8000_0000);
    assert AxisWork(first.z, last.z) == Ok(k);
    FactorsAreSmall(width, height, depth);
    FactorsAreSmall(m, n, k);
  }

  // ----- The enumeration is exact -----

  /** Every cell of the plane whose center lies in the rectangle is in the index range. */
  ghost predicate CoversPlane(cfg: Config, rect: Rect)
    requires cfg.Valid()
  {
    forall c: Cell :: c.IsI32Cell() && CenterInRect(cfg, rect, c) ==> InRange2D(cfg, rect, c)
  }

  lemma {:induction false} JitterBelowOneCoversPlane(cfg: Config, rect: Rect)
    requires cfg.Valid() && cfg.jitter < 1.0
    ensures CoversPlane(cfg, rect)
  {
    forall c: Cell | c.IsI32Cell() && CenterInRect(cfg, rect, c)
      ensures InRange2D(cfg, rect, c)
    {
      var h := SpotHash2D(c.x, c.y, cfg.seed);
      LanesAreFractions(h);
      RangeCovers(cfg, c.x, Lane2D(h, 0), rect.minX, rect.maxX);
      RangeCovers(cfg, c.y, Lane2D(h, 1), rect.minY, rect.maxY);
    }
  }

  /**
   With full jitter, whatever the seed, some cell's center lies on the far corner of its cell,
   and an accepted rectangle that starts at that corner does not list it.
   */
  lemma {:induction false} FullJitterMissesCenter(cfg: Config) returns (rect: Rect, c: Cell)
    requires cfg.Valid() && cfg.jitter == 1.0
    ensures Accepted2D(cfg, rect) && c.IsI32Cell() && CenterInRect(cfg, rect, c) && !InRange2D(cfg, rect, c)
  {
    hide SpotHash2D, AxisCenter, CellIndex, Lane2D;
    var h := FullLanes();
    c := CellAtFarCorner(h, cfg.seed);
    var x0, y0 := AxisCenter(cfg, c.x, Lane2D(h, 0)), AxisCenter(cfg, c.y, Lane2D(h, 1));
    assert Center2D(cfg, c.x, c.y) == (x0, y0);
    rect := CornerRect(cfg, c.x + 1, c.y + 1, x0, y0) by {
      CornerCenter(cfg, c.x, Lane2D(h, 0));
      CornerCenter(cfg, c.y, Lane2D(h, 1));
    }
  }

  lemma FullLanes() returns (h: Word)
    ensures Lane2D(h, 0) == 1.0 && Lane2D(h, 1) == 1.0
  {
    h := U32_MODULUS - 1;
  }

  /** The quarter-cell rectangle at the low corner of a cell is accepted. */
  lemma {:induction false} CornerRect(cfg: Config, x: int, y: int, x0: real, y0: real) returns (rect: Rect)
    requires cfg.Valid() && IsI32(x) && IsI32(y) && x0 == x as real * cfg.cellSize && y0 == y as real * cfg.cellSize
    ensures Accepted2D(cfg, rect) && CellIndex(rect.minX, cfg.cellSize) == x
    ensures x0 == rect.minX < rect.maxX && y0 == rect.minY < rect.maxY
  {
    rect := Rect(x0, y0, x0 + 0.5 * cfg.cellSize, y0 + 0.5 * cfg.cellSize);
    HalfCell(x, cfg.cellSize, rect.minX, rect.maxX);
    HalfCell(y, cfg.cellSize, rect.minY, rect.maxY);
    OneCellIsAccepted(cfg, rect);
  }

  lemma {:induction false} OneCellIsAccepted(cfg: Config, rect: Rect)
    requires cfg.Valid() && !Inverted2D(rect)
    requires CellIndex(rect.minX, cfg.cellSize) == CellIndex(rect.maxX, cfg.cellSize)
    requires CellIndex(rect.minY, cfg.cellSize) == CellIndex(rect.maxY, cfg.cellSize)
    ensures Accepted2D(cfg, rect)
  {
    var x, y := CellIndex(rect.minX, cfg.cellSize), CellIndex(rect.minY, cfg.cellSize);
    assert AxisWork(x, x) == Ok(1) && AxisWork(y, y) == Ok(1);
    assert CheckedProduct(Ok(1), Ok(1)) == Ok(1);
  }

  /** A cell of hash `h` with a neighbour on its right. */
  lemma {:induction false} CellAtFarCorner(h: Word, seed: int) returns (c: Cell)
    ensures c.IsI32Cell() && c.x < I32_MAX && c.y < I32_MAX && SpotHash2D(c.x, c.y, seed) == h
  {
    EveryRowTakesEveryHash(h, 0, seed);
    EveryRowTakesEveryHash(h, 1, seed);
    var x, x' := CellWithHash(h, 0, seed), CellWithHash(h, 1, seed);
    if x == I32_MAX {
      if x' == I32_MAX {
        SpotHash2DIsInjective(x, 0, 1, seed);
        assert false;
      }
      return Cell(x', 1);
    }
    return Cell(x, 0);
  }

  lemma CornerCenter(cfg: Config, cell: int, lane: real)
    requires cfg.Valid() && cfg.jitter == 1.0 && lane == 1.0
    ensures AxisCenter(cfg, cell, lane) == (cell + 1) as real * cfg.cellSize
  {
  }

  lemma HalfCell(n: int, size: real, a: real, b: real)
    requires size > 0.0 && IsI32(n) && a == n as real * size && b == a + 0.5 * size
    ensures CellIndex(a, size) == n == CellIndex(b, size) && a < b
  {
    QuotientIs(a, size, n as real);
    QuotientIs(b, size, n as real + 0.5);
    assert (n as real + 0.5).Floor == n && (n as real).Floor == n;
  }

  /** The rectangle enumeration is exact on every accepted rectangle if and only if the jitter is below one. */
  lemma {:induction false} PlaneEnumerationIsExact(cfg: Config)
    requires cfg.Valid()
    ensures (forall rect: Rect :: Accepted2D(cfg, rect) ==> CoversPlane(cfg, rect)) <==> cfg.jitter < 1.0
  {
    if cfg.jitter < 1.0 {
      forall rect: Rect
        ensures CoversPlane(cfg, rect)
      {
        JitterBelowOneCoversPlane(cfg, rect);
      }
    } else {
      var rect, c := FullJitterMissesCenter(cfg);
      assert !CoversPlane(cfg, rect);
    }
  }

  /** The box enumeration is exact for every valid jitter: the 10-bit lanes stay below one. */
  lemma {:induction false} SpaceEnumerationIsExact(cfg: Config, lo: Vec3, hi: Vec3, c: Vec3i)
    requires cfg.Valid() && IsI32Cell(c) && CenterInBox(cfg, lo, hi, c)
    ensures Between(FirstCell(cfg, lo), FirstCell(cfg, hi), c)
  {
    var h := SpotHash3D(c.x, c.y, c.z, cfg.seed);
    LanesAreFractions(h);
    RangeCovers(cfg, c.x, Lane3D(h, 0), lo.x, hi.x);
    RangeCovers(cfg, c.y, Lane3D(h, 1), lo.y, hi.y);
    RangeCovers(cfg, c.z, Lane3D(h, 2), lo.z, hi.z);
  }

  predicate Listed2D(cfg: Config, rect: Rect, c: Cell)
    requires cfg.Valid()
  {
    InRange2D(cfg, rect, c) && CenterInRect(cfg, rect, c)
  }

  predicate Listed3D(cfg: Config, lo: Vec3, hi: Vec3, c: Vec3i)
    requires cfg.Valid()
  {
    Between(FirstCell(cfg, lo), FirstCell(cfg, hi), c) && CenterInBox(cfg, lo, hi, c)
  }

  /** The two parts of a rectangle cut at x = `at`, or at y = `at`. */
  function CutRect(rect: Rect, alongX: bool, at: real): (Rect, Rect) {
    if alongX then (rect.(maxX := at), rect.(minX := at)) else (rect.(maxY := at), rect.(minY := at))
  }

  /** The spot is listed in exactly one part of the rectangle if the rectangle lists it, and in none if not. */
  predicate Tiles2D(cfg: Config, rect: Rect, alongX: bool, at: real, c: Cell)
    requires cfg.Valid()
  {
    var (low, high) := CutRect(rect, alongX, at);
    && (Listed2D(cfg, rect, c) <==> Listed2D(cfg, low, c) || Listed2D(cfg, high, c))
    && !(Listed2D(cfg, low, c) && Listed2D(cfg, high, c))
  }

  predicate CutsWithin(rect: Rect, alongX: bool, at: real) {
    if alongX then rect.minX <= at <= rect.maxX else rect.minY <= at <= rect.maxY
  }

  /** Below jitter one, cutting a rectangle in two lists each spot in exactly one part. */
  lemma {:induction false} AdjacentRectsTile(cfg: Config, rect: Rect, alongX: bool, at: real, c: Cell)
    requires cfg.Valid() && cfg.jitter < 1.0 && c.IsI32Cell() && CutsWithin(rect, alongX, at)
    ensures Tiles2D(cfg, rect, alongX, at, c)
  {
    var (low, high) := CutRect(rect, alongX, at);
    JitterBelowOneCoversPlane(cfg, rect);
    JitterBelowOneCoversPlane(cfg, low);
    JitterBelowOneCoversPlane(cfg, high);
  }

  /** With full jitter, whatever the seed, cutting an accepted rectangle through a far corner loses the spot there. */
  lemma {:induction false} FullJitterLosesSpotAtCut(cfg: Config) returns (rect: Rect, at: real, c: Cell)
    requires cfg.Valid() && cfg.jitter == 1.0
    ensures Accepted2D(cfg, rect) && CutsWithin(rect, true, at) && c.IsI32Cell() && Listed2D(cfg, rect, c)
    ensures !Listed2D(cfg, CutRect(rect, true, at).0, c) && !Listed2D(cfg, CutRect(rect, true, at).1, c)
  {
    hide SpotHash2D, AxisCenter, CellIndex, Lane2D, Accepted2D;
    var h := FullLanes();
    c := CellAtFarCorner(h, cfg.seed);
    var x1, y1 := AxisCenter(cfg, c.x, Lane2D(h, 0)), AxisCenter(cfg, c.y, Lane2D(h, 1));
    assert Center2D(cfg, c.x, c.y) == (x1, y1);
    CornerCenter(cfg, c.x, Lane2D(h, 0));
    CornerCenter(cfg, c.y, Lane2D(h, 1));
    var x0, y0 := c.x as real * cfg.cellSize, c.y as real * cfg.cellSize;
    rect := Rect(x0, y0, x1 + 0.5 * cfg.cellSize, y1 + 0.5 * cfg.cellSize);
    at := x1;
    CellsOfCorner(c.x, cfg.cellSize, x0, x1, rect.maxX);
    CellsOfCorner(c.y, cfg.cellSize, y0, y1, rect.maxY);
    TwoByTwoIsAccepted(cfg, rect, c);
  }

  lemma CellsOfCorner(n: int, size: real, a: real, b: real, d: real)
    requires size > 0.0 && IsI32(n) && n < I32_MAX
    requires a == n as real * size && b == (n + 1) as real * size && d == b + 0.5 * size
    ensures CellIndex(a, size) == n && CellIndex(b, size) == n + 1 == CellIndex(d, size) && a < b < d
  {
    HalfCell(n, size, a, a + 0.5 * size);
    HalfCell(n + 1, size, b, d);
    assert b == a + size;
  }

  lemma {:induction false} TwoByTwoIsAccepted(cfg: Config, rect: Rect, c: Cell)
    requires cfg.Valid() && !Inverted2D(rect) && c.IsI32Cell() && c.x < I32_MAX && c.y < I32_MAX
    requires CellIndex(rect.minX, cfg.cellSize) == c.x && CellIndex(rect.maxX, cfg.cellSize) == c.x + 1
    requires CellIndex(rect.minY, cfg.cellSize) == c.y && CellIndex(rect.maxY, cfg.cellSize) == c.y + 1
    ensures Accepted2D(cfg, rect)
  {
    hide CellIndex;
    assert AxisWork(c.x, c.x + 1) == Ok(2) && AxisWork(c.y, c.y + 1) == Ok(2);
    assert CheckedProduct(Ok(2), Ok(2)) == Ok(4);
  }

  /** Cutting accepted rectangles lists every spot exactly once if and only if the jitter is below one. */
  lemma {:induction false} RectsTileExactly(cfg: Config)
    requires cfg.Valid()
    ensures (forall rect: Rect, alongX: bool, at: real, c: Cell ::
               Accepted2D(cfg, rect) && CutsWithin(rect, alongX, at) && c.IsI32Cell() ==>
                 Tiles2D(cfg, rect, alongX, at, c))
            <==> cfg.jitter < 1.0
  {
    hide Listed2D, Accepted2D;
    if cfg.jitter < 1.0 {
      forall rect: Rect, alongX: bool, at: real, c: Cell | CutsWithin(rect, alongX, at) && c.IsI32Cell()
        ensures Tiles2D(cfg, rect, alongX, at, c)
      {
        AdjacentRectsTile(cfg, rect, alongX, at, c);
      }
    } else {
      var rect, at, c := FullJitterLosesSpotAtCut(cfg);
      assert !Tiles2D(cfg, rect, true, at, c);
    }
  }

  /** Cutting a box in two, across any axis, lists each spot in exactly one part. */
  lemma {:induction false} AdjacentBoxesTile(cfg: Config, lo: Vec3, hi: Vec3, axis: nat, at: real, c: Vec3i)
    requires cfg.Valid() && IsI32Cell(c) && axis < 3 && lo.At(axis) <= at <= hi.At(axis)
    ensures var below, above := Listed3D(cfg, lo, hi.With(axis, at), c), Listed3D(cfg, lo.With(axis, at), hi, c);
            (Listed3D(cfg, lo, hi, c) <==> below || above) && !(below && above)
  {
    BoxListsByCenter(cfg, lo, hi, c);
    BoxListsByCenter(cfg, lo, hi.With(axis, at), c);
    BoxListsByCenter(cfg, lo.With(axis, at), hi, c);
  }

  lemma {:induction false} BoxListsByCenter(cfg: Config, lo: Vec3, hi: Vec3, c: Vec3i)
    requires cfg.Valid() && IsI32Cell(c)
    ensures Listed3D(cfg, lo, hi, c) <==> CenterInBox(cfg, lo, hi, c)
  {
    if CenterInBox(cfg, lo, hi, c) {
      SpaceEnumerationIsExact(cfg, lo, hi, c);
    }
  }

  // ----- The point query -----

  predicate InSpot(dx: real, dy: real, dz: real, radius: real) {
    dx * dx + dy * dy + dz * dz < radius * radius
  }

  function SpotGridNoise2D(cfg: Config, x: real, y: real): real
    requires cfg.Valid()
  {
    var (centerX, centerY) := Center2D(cfg, CellIndex(x, cfg.cellSize), CellIndex(y, cfg.cellSize));
    if InSpot(centerX - x, centerY - y, 0.0, cfg.spotRadius) then 1.0 else 0.0
  }

  function SpotGridNoise3D(cfg: Config, p: Vec3): real
    requires cfg.Valid()
  {
    var center := Center3D(cfg, FirstCell(cfg, p));
    if InSpot(center.x - p.x, center.y - p.y, center.z - p.z, cfg.spotRadius) then 1.0 else 0.0
  }

  lemma SpotHasItsCenter(radius: real)
    requires radius > 0.0
    ensures InSpot(0.0, 0.0, 0.0, radius)
  {
  }

  /** The coordinate lies in the cell; the outermost `i32` cells reach to infinity. */
  predicate InCell(p: real, cell: int, size: real) {
    && IsI32(cell)
    && (cell > I32_MIN ==> cell as real * size <= p)
    && (cell < I32_MAX ==> p < (cell + 1) as real * size)
  }

  /** A coordinate lies in one cell, and the index of the query names it. */
  lemma {:induction false} CellIndexExactly(p: real, cell: int, size: real)
    requires size > 0.0
    ensures InCell(p, cell, size) <==> CellIndex(p, size) == cell
  {
    var q := p / size;
    QuotientSides(p, q, cell as real, size);
    QuotientSides(p, q, (cell + 1) as real, size);
    FloorIs(q, cell);
  }

  lemma FloorIs(q: real, n: int)
    ensures n <= q.Floor <==> n as real <= q
    ensures q.Floor <= n <==> q < (n + 1) as real
  {
  }

  lemma {:induction false} QuotientSides(p: real, q: real, n: real, size: real)
    requires size > 0.0 && q == p / size
    ensures n * size <= p <==> n <= q
  {
    assert q * size == p;
    if n <= q {
      Scale(n, q, size);
    } else {
      Scale(q, n, size);
    }
  }

  /** At every point of a cell the 2D field is 1 within the spot radius of that cell's center, and 0 elsewhere. */
  lemma {:induction false} FieldInCell2D(cfg: Config, c: Cell, x: real, y: real)
    requires cfg.Valid() && InCell(x, c.x, cfg.cellSize) && InCell(y, c.y, cfg.cellSize)
    ensures var (centerX, centerY) := Center2D(cfg, c.x, c.y);
            SpotGridNoise2D(cfg, x, y)
            == if Square(centerX - x) + Square(centerY - y) < Square(cfg.spotRadius) then 1.0 else 0.0
  {
    hide Center2D, CellIndex, InCell;
    CellIndexExactly(x, c.x, cfg.cellSize);
    CellIndexExactly(y, c.y, cfg.cellSize);
  }

  /** The same for the 3D field. */
  lemma {:induction false} FieldInCell3D(cfg: Config, c: Vec3i, p: Vec3)
    requires cfg.Valid()
    requires InCell(p.x, c.x, cfg.cellSize) && InCell(p.y, c.y, cfg.cellSize) && InCell(p.z, c.z, cfg.cellSize)
    ensures SpotGridNoise3D(cfg, p)
            == if DistanceSquared(Center3D(cfg, c), p) < Square(cfg.spotRadius) then 1.0 else 0.0
  {
    hide Center3D, CellIndex, InCell;
    CellIndexExactly(p.x, c.x, cfg.cellSize);
    CellIndexExactly(p.y, c.y, cfg.cellSize);
    CellIndexExactly(p.z, c.z, cfg.cellSize);
  }

  /** A center lies off the middle of its cell by the lane's distance from a half, scaled by the jitter and the size. */
  lemma {:induction false} AxisCenterIs(cfg: Config, cell: int, lane: real)
    ensures AxisCenter(cfg, cell, lane) - (cell as real + 0.5) * cfg.cellSize
            == (lane - 0.5) * cfg.jitter * cfg.cellSize
  {
    var shift := (lane - 0.5) * cfg.jitter;
    assert cell as real + (0.5 + shift) == cell as real + 0.5 + shift;
    Apart(cell as real + 0.5 + shift, cell as real + 0.5, cfg.cellSize);
  }

  lemma HalvesAre(h: Word, low: nat, high: nat)
    requires low < 65_536 && h == 65_536 * high + low
    ensures Lane2D(h, 0) == low as real / 65535.0 && Lane2D(h, 1) == high as real / 65535.0
  {
    assert h % 65_536 == low && h / 65_536 == high;
  }

  lemma TenthsAre(h: Word, a: nat, b: nat, d: nat, rest: nat)
    requires a < 1024 && b < 1024 && d < 1024 && h == a + 1024 * (b + 1024 * (d + 1024 * rest))
    ensures Lane3D(h, 0) == a as real / 1024.0 && Lane3D(h, 1) == b as real / 1024.0
    ensures Lane3D(h, 2) == d as real / 1024.0
  {
    hide Lane3D;
    LowTenth(a, b + 1024 * (d + 1024 * rest));
    LowTenth(b, d + 1024 * rest);
    LowTenth(d, rest);
    assert h / 0x10_0000 == h / 1024 / 1024;
    LanesAreTenths(h, a, b, d);
  }

  lemma LowTenth(low: nat, high: nat)
    requires low < 1024
    ensures (low + 1024 * high) % 1024 == low && (low + 1024 * high) / 1024 == high
  {
  }

  lemma LanesAreTenths(h: Word, a: nat, b: nat, d: nat)
    requires h % 1024 == a && h / 1024 % 1024 == b && h / 0x10_0000 % 1024 == d
    ensures Lane3D(h, 0) == a as real / 1024.0 && Lane3D(h, 1) == b as real / 1024.0
    ensures Lane3D(h, 2) == d as real / 1024.0
  {
  }

  /** In the plane, each half of the hash places the center along one axis. */
  lemma {:induction false} CenterFromHalves(cfg: Config, c: Cell, low: nat, high: nat)
    requires low < 65_536 && SpotHash2D(c.x, c.y, cfg.seed) == 65_536 * high + low
    ensures var (centerX, centerY) := Center2D(cfg, c.x, c.y);
            && centerX == AxisCenter(cfg, c.x, low as real / 65535.0)
            && centerY == AxisCenter(cfg, c.y, high as real / 65535.0)
  {
    hide SpotHash2D, AxisCenter, Lane2D;
    var h := SpotHash2D(c.x, c.y, cfg.seed);
    HalvesAre(h, low, high);
  }

  /** In space, the lowest three groups of ten bits do so; the top two bits are not used. */
  lemma {:induction false} CenterFromTenths(cfg: Config, c: Vec3i, a: nat, b: nat, d: nat, rest: nat)
    requires a < 1024 && b < 1024 && d < 1024
    requires SpotHash3D(c.x, c.y, c.z, cfg.seed) == a + 1024 * (b + 1024 * (d + 1024 * rest))
    ensures Center3D(cfg, c)
            == Vec3(AxisCenter(cfg, c.x, a as real / 1024.0), AxisCenter(cfg, c.y, b as real / 1024.0),
                    AxisCenter(cfg, c.z, d as real / 1024.0))
  {
    hide SpotHash3D, AxisCenter, Lane3D;
    var h := SpotHash3D(c.x, c.y, c.z, cfg.seed);
    TenthsAre(h, a, b, d, rest);
  }

  lemma {:induction false} OwnCell2D(cfg: Config, c: Cell)
    requires cfg.Valid() && cfg.jitter < 1.0 && c.IsI32Cell()
    ensures var (x, y) := Center2D(cfg, c.x, c.y);
            CellIndex(x, cfg.cellSize) == c.x && CellIndex(y, cfg.cellSize) == c.y
  {
    var h := SpotHash2D(c.x, c.y, cfg.seed);
    LanesAreFractions(h);
    CenterStaysInCell(cfg, c.x, Lane2D(h, 0));
    CenterStaysInCell(cfg, c.y, Lane2D(h, 1));
  }

  lemma {:induction false} OwnCell3D(cfg: Config, c: Vec3i)
    requires cfg.Valid() && IsI32Cell(c)
    ensures FirstCell(cfg, Center3D(cfg, c)) == c
  {
    var h := SpotHash3D(c.x, c.y, c.z, cfg.seed);
    LanesAreFractions(h);
    CenterStaysInCell(cfg, c.x, Lane3D(h, 0));
    CenterStaysInCell(cfg, c.y, Lane3D(h, 1));
    CenterStaysInCell(cfg, c.z, Lane3D(h, 2));
  }

  predicate SpotAtCenter2D(cfg: Config, c: Cell)
    requires cfg.Valid()
  {
    var (x, y) := Center2D(cfg, c.x, c.y);
    SpotGridNoise2D(cfg, x, y) == 1.0
  }

  /** Below jitter one, the field is 1 at every spot center of the plane. */
  lemma {:induction false} CentersAreSpots2D(cfg: Config, c: Cell)
    requires cfg.Valid() && cfg.jitter < 1.0 && c.IsI32Cell()
    ensures SpotAtCenter2D(cfg, c)
  {
    OwnCell2D(cfg, c);
    SpotHasItsCenter(cfg.spotRadius);
  }

  // Whatever the seed, some cell of this row has the first hash, and then the cell above it has the second.
  const FAR_ROW := 2_905_777
  const EDGE_HASH: Word := 0xffff_0005
  const FAR_HASH: Word := 0xfff0_fff6

  lemma {:induction false} FirstRowXor()
    ensures BitXor(0x4c6b_0f39, 0xb76d_e13d) == 0xfb06_ee04
  {
    hide BitXor;
    XorHex(0x4c6_b0f3, 0xb76_de13, 1, 0, 0, 1, 1, 1, 0, 1);
    XorHex(0x4c_6b0f, 0xb7_6de1, 0, 0, 1, 1, 0, 0, 1, 1);
    XorHex(0x4_c6b0, 0xb_76de, 1, 1, 1, 1, 0, 0, 0, 1);
    XorHex(0x4c6b, 0xb76d, 0, 0, 0, 0, 1, 1, 1, 0);
    XorHex(0x4c6, 0xb76, 1, 0, 1, 1, 1, 1, 0, 1);
    XorHex(0x4c, 0xb7, 0, 1, 1, 0, 0, 1, 1, 0);
    XorHex(0x4, 0xb, 1, 1, 0, 0, 0, 1, 1, 1);
    XorHex(0x0, 0x0, 0, 1, 0, 0, 1, 0, 1, 1);
    XorZero(0);
  }

  lemma {:induction false} SecondRowXor()
    ensures BitXor(0xfb06_ee04, 0xfb32_0f8a) == 0x34_e18e
  {
    hide BitXor;
    XorHex(0xfb0_6ee0, 0xfb3_20f8, 0, 1, 0, 0, 1, 0, 1, 0);
    XorHex(0xfb_06ee, 0xfb_320f, 0, 0, 0, 0, 1, 0, 0, 0);
    XorHex(0xf_b06e, 0xf_b320, 1, 1, 1, 0, 1, 1, 1, 1);
    XorHex(0xfb06, 0xfb32, 1, 1, 1, 0, 0, 0, 0, 0);
    XorHex(0xfb0, 0xfb3, 0, 1, 1, 0, 0, 0, 1, 0);
    XorHex(0xfb, 0xfb, 0, 0, 0, 0, 0, 0, 1, 1);
    XorHex(0xf, 0xf, 1, 0, 1, 1, 1, 0, 1, 1);
    XorHex(0x0, 0x0, 1, 1, 1, 1, 1, 1, 1, 1);
    XorZero(0);
  }

  lemma RowProducts()
    ensures Mul(EDGE_HASH, SPOT_MULTIPLIER_INVERSE) == 0x4c6b_0f39
    ensures Mul(Bits(FAR_ROW), SPOT_PRIME_Y) == 0xb76d_e13d && Mul(Bits(FAR_ROW + 1), SPOT_PRIME_Y) == 0xfb32_0f8a
  {
    hide Mul;
    ProductIs(EDGE_HASH, SPOT_MULTIPLIER_INVERSE, 0x4c6b_0f39, 4217938240);
    ProductIs(Bits(FAR_ROW), SPOT_PRIME_Y, 0xb76d_e13d, 769194);
    ProductIs(Bits(FAR_ROW + 1), SPOT_PRIME_Y, 0xfb32_0f8a, 769194);
  }

  lemma {:induction false} RowXors()
    ensures Xor(Mul(EDGE_HASH, SPOT_MULTIPLIER_INVERSE), Mul(Bits(FAR_ROW), SPOT_PRIME_Y)) == 0xfb06_ee04
    ensures Xor(0xfb06_ee04, Mul(Bits(FAR_ROW + 1), SPOT_PRIME_Y)) == 0x34_e18e
  {
    hide BitXor, Mul, Bits;
    RowProducts();
    FirstRowXor();
    SecondRowXor();
  }

  lemma SpotMultipliers()
    ensures AreInverse(SPOT_HASH_MULTIPLIER, SPOT_MULTIPLIER_INVERSE)
  {
  }

  lemma FarProduct()
    ensures Mul(0x34_e18e, SPOT_HASH_MULTIPLIER) == FAR_HASH
  {
    hide Mul;
    ProductIs(0x34_e18e, SPOT_HASH_MULTIPLIER, 0xfff0_fff6, 539223);
  }

  lemma {:induction false} NeighbourHash(x: int, seed: int)
    requires SpotHash2D(x, FAR_ROW, seed) == EDGE_HASH
    ensures SpotHash2D(x, FAR_ROW + 1, seed) == FAR_HASH
  {
    hide Xor, Mul;
    var mixed, y, y' := Xor(Bits(seed), Mul(Bits(x), SPOT_PRIME_X)), Mul(Bits(FAR_ROW), SPOT_PRIME_Y),
                        Mul(Bits(FAR_ROW + 1), SPOT_PRIME_Y);
    SpotMultipliers();
    MulUndone(Xor(mixed, y), SPOT_HASH_MULTIPLIER, SPOT_MULTIPLIER_INVERSE);
    WordXorUndone(mixed, y);
    RowXors();
    assert mixed == 0xfb06_ee04;
    FarProduct();
  }

  /** With full jitter, whatever the seed, spots of radius up to 1.4139 cells leave some center outside every spot. */
  lemma {:induction false} FullJitterMissesOwnSpot(cfg: Config) returns (c: Cell)
    requires cfg.Valid() && cfg.jitter == 1.0 && cfg.spotRadius <= 1.4139 * cfg.cellSize
    ensures c.IsI32Cell() && !SpotAtCenter2D(cfg, c)
  {
    hide SpotHash2D, CellWithHash, CellIndex;
    c := Cell(CellWithHash(EDGE_HASH, FAR_ROW, cfg.seed), FAR_ROW);
    EveryRowTakesEveryHash(EDGE_HASH, FAR_ROW, cfg.seed);
    NeighbourHash(c.x, cfg.seed);
    EdgeLanes();
    var (x, y) := Center2D(cfg, c.x, c.y);
    CenterStaysInCell(cfg, c.x, Lane2D(EDGE_HASH, 0));
    CornerCenter(cfg, FAR_ROW, Lane2D(EDGE_HASH, 1));
    HalfCell(FAR_ROW + 1, cfg.cellSize, y, y + 0.5 * cfg.cellSize);
    var (centerX, centerY) := Center2D(cfg, c.x, c.y + 1);
    Apart(c.x as real + 65526.0 / 65535.0, c.x as real + 5.0 / 65535.0, cfg.cellSize);
    Apart((c.y + 1) as real + 65520.0 / 65535.0, (c.y + 1) as real, cfg.cellSize);
    FarCenter(cfg.cellSize, cfg.spotRadius, centerX - x, centerY - y);
  }

  lemma EdgeLanes()
    ensures Lane2D(EDGE_HASH, 0) == 5.0 / 65535.0 && Lane2D(EDGE_HASH, 1) == 1.0
    ensures Lane2D(FAR_HASH, 0) == 65526.0 / 65535.0 && Lane2D(FAR_HASH, 1) == 65520.0 / 65535.0
  {
  }

  lemma FarCenter(size: real, radius: real, dx: real, dy: real)
    requires 0.0 < radius <= 1.4139 * size
    requires dx == (65526.0 / 65535.0 - 5.0 / 65535.0) * size && dy == (65520.0 / 65535.0) * size
    ensures !InSpot(dx, dy, 0.0, radius)
  {
    assert radius * radius <= (1.4139 * size) * (1.4139 * size);
    assert dx * dx >= 0.999572 * (size * size) && dy * dy >= 0.999542 * (size * size);
  }

  /** Spots wider than the diagonal of a cell fill the plane at every center, whatever the jitter. */
  lemma {:induction false} WideSpotsReachCenters(cfg: Config, c: Cell)
    requires cfg.Valid() && c.IsI32Cell() && cfg.spotRadius * cfg.spotRadius > 2.0 * (cfg.cellSize * cfg.cellSize)
    ensures SpotAtCenter2D(cfg, c)
  {
    hide SpotHash2D, CellIndex, AxisCenter;
    var (x, y) := Center2D(cfg, c.x, c.y);
    var n := Cell(CellIndex(x, cfg.cellSize), CellIndex(y, cfg.cellSize));
    var h, h' := SpotHash2D(c.x, c.y, cfg.seed), SpotHash2D(n.x, n.y, cfg.seed);
    LanesAreFractions(h);
    LanesAreFractions(h');
    CentersAreNear(cfg, c.x, Lane2D(h, 0), Lane2D(h', 0));
    CentersAreNear(cfg, c.y, Lane2D(h, 1), Lane2D(h', 1));
    var (centerX, centerY) := Center2D(cfg, n.x, n.y);
    SquareAtMost(centerX - x, cfg.cellSize);
    SquareAtMost(centerY - y, cfg.cellSize);
  }

  lemma SquareAtMost(d: real, size: real)
    requires -size <= d <= size
    ensures d * d <= size * size
  {
    assert (size - d) * (size + d) >= 0.0;
  }

  /** A center and any center of the cell that it falls in are at most a cell apart. */
  lemma {:induction false} CentersAreNear(cfg: Config, cell: int, lane: real, lane': real)
    requires cfg.Valid() && IsI32(cell) && 0.0 <= lane <= 1.0 && 0.0 <= lane' <= 1.0
    ensures var p := AxisCenter(cfg, cell, lane);
            -cfg.cellSize <= AxisCenter(cfg, CellIndex(p, cfg.cellSize), lane') - p <= cfg.cellSize
  {
    var a, b := Jittered(lane, cfg.jitter), Jittered(lane', cfg.jitter);
    var n := CellIndex(AxisCenter(cfg, cell, lane), cfg.cellSize);
    JitterStaysInCell(lane, cfg.jitter);
    JitterStaysInCell(lane', cfg.jitter);
    CellOfCenter(cfg, cell, lane);
    hide CellIndex, Jittered;
    ApartByUnit(n as real + b, cell as real + a, cfg.cellSize,
                AxisCenter(cfg, n, lane'), AxisCenter(cfg, cell, lane));
  }

  lemma ApartByUnit(a: real, b: real, size: real, p: real, q: real)
    requires -1.0 <= a - b <= 1.0 && size > 0.0 && p == a * size && q == b * size
    ensures -size <= p - q <= size
  {
    var shift := a - b;
    UnitScaled(shift, size);
    Apart(a, b, size);
    assert shift * size == p - q;
  }

  lemma UnitScaled(shift: real, size: real)
    requires -1.0 <= shift <= 1.0 && size > 0.0
    ensures -size <= shift * size <= size
  {
    ProductIsPositive(1.0 - shift, size);
    ProductIsPositive(1.0 + shift, size);
    assert (1.0 - shift) * size == size - shift * size && (1.0 + shift) * size == size + shift * size;
  }

  lemma {:induction false} CellOfCenter(cfg: Config, cell: int, lane: real)
    requires cfg.Valid() && IsI32(cell) && 0.0 <= lane <= 1.0
    ensures CellIndex(AxisCenter(cfg, cell, lane), cfg.cellSize)
            == if Jittered(lane, cfg.jitter) < 1.0 then cell else SaturateI32(cell + 1)
  {
    var a := Jittered(lane, cfg.jitter);
    JitterStaysInCell(lane, cfg.jitter);
    hide Jittered;
    ScaleUndone(cell as real + a, cfg.cellSize);
    assert AxisCenter(cfg, cell, lane) / cfg.cellSize == cell as real + a;
    CellOfOffset(cell, a);
  }

  lemma CellOfOffset(cell: int, a: real)
    requires 0.0 <= a <= 1.0
    ensures (cell as real + a).Floor == if a < 1.0 then cell else cell + 1
  {
  }

  lemma JitterStaysInCell(lane: real, jitter: real)
    requires 0.0 <= lane <= 1.0 && 0.0 <= jitter <= 1.0
    ensures 0.0 <= Jittered(lane, jitter) <= 1.0
  {
    var shift := lane - 0.5;
    HalfUnitScaled(shift, jitter);
    assert Jittered(lane, jitter) == 0.5 + shift * jitter;
  }

  /**
   The field is 1 at every center exactly when the jitter is below one or the spots are wider than the
   diagonal of a cell. Radii between 1.4139 cells and the diagonal are left undecided for most seeds.
   */
  lemma {:induction false} CentersAreSpotsExactly2D(cfg: Config)
    requires cfg.Valid()
    requires cfg.spotRadius <= 1.4139 * cfg.cellSize
             || cfg.spotRadius * cfg.spotRadius > 2.0 * (cfg.cellSize * cfg.cellSize)
    ensures (forall c: Cell :: c.IsI32Cell() ==> SpotAtCenter2D(cfg, c))
            <==> cfg.jitter < 1.0 || cfg.spotRadius > 1.4139 * cfg.cellSize
  {
    hide SpotAtCenter2D;
    if cfg.jitter < 1.0 || cfg.spotRadius > 1.4139 * cfg.cellSize {
      forall c: Cell | c.IsI32Cell()
        ensures SpotAtCenter2D(cfg, c)
      {
        if cfg.jitter < 1.0 {
          CentersAreSpots2D(cfg, c);
        } else {
          WideSpotsReachCenters(cfg, c);
        }
      }
    } else {
      var c := FullJitterMissesOwnSpot(cfg);
    }
  }

  // With this seed, this cell and the next one on its diagonal both have their centers on their far corners.
  const CORNER_SEED := 698_035_225
  const CORNER_CELL := Cell(-377_090_069, -256_770_491)

  lemma {:induction false} CornerXor()
    ensures BitXor(0x299b_2c19, 0x3000_af83) == 0x199b_839a
  {
    hide BitXor;
    XorHex(0x299_b2c1, 0x300_0af8, 1, 0, 0, 1, 0, 0, 1, 1);
    XorHex(0x29_9b2c, 0x30_00af, 0, 0, 0, 1, 1, 0, 0, 0);
    XorHex(0x2_99b2, 0x3_000a, 1, 1, 0, 0, 1, 1, 1, 1);
    XorHex(0x299b, 0x3000, 0, 0, 1, 0, 1, 0, 1, 0);
    XorHex(0x299, 0x300, 1, 0, 1, 1, 0, 0, 0, 0);
    XorHex(0x29, 0x30, 1, 0, 0, 1, 0, 0, 0, 0);
    XorHex(0x2, 0x3, 1, 0, 0, 1, 0, 0, 0, 0);
    XorHex(0x0, 0x0, 0, 0, 1, 0, 0, 0, 1, 1);
    XorZero(0);
  }

  lemma {:induction false} CornerRowXor()
    ensures BitXor(0x199b_839a, 0x1d0d_e0c1) == 0x496_635b
  {
    hide BitXor;
    XorHex(0x199_b839, 0x1d0_de0c, 1, 0, 1, 0, 0, 0, 0, 1);
    XorHex(0x19_9b83, 0x1d_0de0, 1, 0, 0, 1, 1, 1, 0, 0);
    XorHex(0x1_99b8, 0x1_d0de, 0, 0, 1, 1, 0, 0, 0, 0);
    XorHex(0x199b, 0x1d0d, 1, 0, 0, 0, 1, 1, 1, 0);
    XorHex(0x199, 0x1d0, 1, 0, 1, 1, 1, 1, 0, 1);
    XorHex(0x19, 0x1d, 1, 0, 0, 1, 0, 0, 0, 0);
    XorHex(0x1, 0x1, 1, 0, 0, 1, 1, 1, 0, 1);
    XorHex(0x0, 0x0, 0, 0, 0, 1, 0, 0, 0, 1);
    XorZero(0);
  }

  lemma {:induction false} NextCornerXor()
    ensures BitXor(0x299b_2c19, 0x4ddf_404c) == 0x6444_6c55
  {
    hide BitXor;
    XorHex(0x299_b2c1, 0x4dd_f404, 1, 0, 0, 1, 1, 1, 0, 0);
    XorHex(0x29_9b2c, 0x4d_df40, 0, 0, 0, 1, 0, 1, 0, 0);
    XorHex(0x2_99b2, 0x4_ddf4, 1, 1, 0, 0, 0, 0, 0, 0);
    XorHex(0x299b, 0x4ddf, 0, 0, 1, 0, 0, 1, 0, 0);
    XorHex(0x299, 0x4dd, 1, 0, 1, 1, 1, 1, 1, 1);
    XorHex(0x29, 0x4d, 1, 0, 0, 1, 1, 1, 0, 1);
    XorHex(0x2, 0x4, 1, 0, 0, 1, 1, 1, 0, 1);
    XorHex(0x0, 0x0, 0, 0, 1, 0, 0, 1, 0, 0);
    XorZero(0);
  }

  lemma {:induction false} NextCornerRowXor()
    ensures BitXor(0x6444_6c55, 0x60d2_0f0e) == 0x496_635b
  {
    hide BitXor;
    XorHex(0x644_46c5, 0x60d_20f0, 0, 1, 0, 1, 1, 1, 1, 0);
    XorHex(0x64_446c, 0x60_d20f, 0, 1, 0, 1, 0, 0, 0, 0);
    XorHex(0x6_4446, 0x6_0d20, 1, 1, 0, 0, 1, 1, 1, 1);
    XorHex(0x6444, 0x60d2, 0, 1, 1, 0, 0, 0, 0, 0);
    XorHex(0x644, 0x60d, 0, 1, 0, 0, 0, 0, 1, 0);
    XorHex(0x64, 0x60, 0, 1, 0, 0, 1, 1, 0, 1);
    XorHex(0x6, 0x6, 0, 1, 0, 0, 0, 0, 0, 0);
    XorHex(0x0, 0x0, 0, 1, 1, 0, 0, 1, 1, 0);
    XorZero(0);
  }

  lemma CornerProducts()
    ensures Bits(CORNER_SEED) == 0x299b_2c19 && Mul(0x496_635b, SPOT_HASH_MULTIPLIER) == U32_MODULUS - 1
    ensures Mul(Bits(CORNER_CELL.x), SPOT_PRIME_X) == 0x3000_af83
    ensures Mul(Bits(CORNER_CELL.y), SPOT_PRIME_Y) == 0x1d0d_e0c1
    ensures Mul(Bits(CORNER_CELL.x + 1), SPOT_PRIME_X) == 0x4ddf_404c
    ensures Mul(Bits(CORNER_CELL.y + 1), SPOT_PRIME_Y) == 0x60d2_0f0e
  {
    hide Mul;
    ProductIs(0x496_635b, SPOT_HASH_MULTIPLIER, 0xffff_ffff, 11975139);
    ProductIs(Bits(CORNER_CELL.x), SPOT_PRIME_X, 0x3000_af83, 457127458);
    ProductIs(Bits(CORNER_CELL.y), SPOT_PRIME_Y, 0x1d0d_e0c1, 1068960091);
    ProductIs(Bits(CORNER_CELL.x + 1), SPOT_PRIME_X, 0x4ddf_404c, 457127458);
    ProductIs(Bits(CORNER_CELL.y + 1), SPOT_PRIME_Y, 0x60d2_0f0e, 1068960091);
  }

  lemma {:induction false} CornerHashes()
    ensures SpotHash2D(CORNER_CELL.x, CORNER_CELL.y, CORNER_SEED) == U32_MODULUS - 1
    ensures SpotHash2D(CORNER_CELL.x + 1, CORNER_CELL.y + 1, CORNER_SEED) == U32_MODULUS - 1
  {
    hide BitXor, Mul, Bits;
    CornerProducts();
    CornerXor();
    CornerRowXor();
    NextCornerXor();
    NextCornerRowXor();
  }

  /** With full jitter and this seed, spots up to the diagonal of a cell leave a center outside every spot. */
  lemma {:induction false} CornerSeedMissesOwnSpot(cfg: Config)
    requires cfg.Valid() && cfg.jitter == 1.0 && cfg.seed == CORNER_SEED
    requires cfg.spotRadius * cfg.spotRadius <= 2.0 * (cfg.cellSize * cfg.cellSize)
    ensures !SpotAtCenter2D(cfg, CORNER_CELL)
  {
    hide SpotHash2D, CellIndex, AxisCenter;
    var c, h := CORNER_CELL, U32_MODULUS - 1;
    CornerHashes();
    var (x, y) := Center2D(cfg, c.x, c.y);
    assert Lane2D(h, 0) == 1.0 && Lane2D(h, 1) == 1.0;
    CornerCenter(cfg, c.x, 1.0);
    CornerCenter(cfg, c.y, 1.0);
    CornerCenter(cfg, c.x + 1, 1.0);
    CornerCenter(cfg, c.y + 1, 1.0);
    HalfCell(c.x + 1, cfg.cellSize, x, x + 0.5 * cfg.cellSize);
    HalfCell(c.y + 1, cfg.cellSize, y, y + 0.5 * cfg.cellSize);
    Apart((c.x + 2) as real, (c.x + 1) as real, cfg.cellSize);
    Apart((c.y + 2) as real, (c.y + 1) as real, cfg.cellSize);
  }

  /** For this seed, every radius is decided. */
  lemma {:induction false} CornerSeedIsExact(cfg: Config)
    requires cfg.Valid() && cfg.seed == CORNER_SEED
    ensures (forall c: Cell :: c.IsI32Cell() ==> SpotAtCenter2D(cfg, c))
            <==> cfg.jitter < 1.0 || cfg.spotRadius * cfg.spotRadius > 2.0 * (cfg.cellSize * cfg.cellSize)
  {
    hide SpotAtCenter2D;
    if cfg.jitter < 1.0 || cfg.spotRadius * cfg.spotRadius > 2.0 * (cfg.cellSize * cfg.cellSize) {
      forall c: Cell | c.IsI32Cell()
        ensures SpotAtCenter2D(cfg, c)
      {
        if cfg.jitter < 1.0 {
          CentersAreSpots2D(cfg, c);
        } else {
          WideSpotsReachCenters(cfg, c);
        }
      }
    } else {
      CornerSeedMissesOwnSpot(cfg);
    }
  }

  /** The field is 1 at every spot center of space. */
  lemma {:induction false} CentersAreSpots3D(cfg: Config, c: Vec3i)
    requires cfg.Valid() && IsI32Cell(c)
    ensures SpotGridNoise3D(cfg, Center3D(cfg, c)) == 1.0
  {
    OwnCell3D(cfg, c);
    SpotHasItsCenter(cfg.spotRadius);
  }

  lemma {:induction false} SpotIsNarrow(dx: real, dy: real, dz: real, radius: real)
    requires radius > 0.0 && InSpot(dx, dy, dz, radius)
    ensures -radius < dx < radius && -radius < dy < radius && -radius < dz < radius
  {
    assert dx * dx >= 0.0 && dy * dy >= 0.0 && dz * dz >= 0.0;
    SquareBelow(dx, radius);
    SquareBelow(dy, radius);
    SquareBelow(dz, radius);
  }

  /**
   The field is 1 exactly where every rectangle that reaches a spot radius around the point lists
   the center of the point's own cell, within that radius. This holds for every valid jitter.
   */
  lemma {:induction false} QueryAgreesWithEnumeration2D(cfg: Config, c: Cell, x: real, y: real, rect: Rect)
    requires cfg.Valid() && InCell(x, c.x, cfg.cellSize) && InCell(y, c.y, cfg.cellSize)
    requires rect.minX <= x - cfg.spotRadius && x + cfg.spotRadius <= rect.maxX
    requires rect.minY <= y - cfg.spotRadius && y + cfg.spotRadius <= rect.maxY
    ensures SpotGridNoise2D(cfg, x, y) == 1.0 <==> Listed2D(cfg, rect, c) && CenterNear2D(cfg, c, x, y)
  {
    hide Center2D, CellIndex, InCell;
    CellIndexExactly(x, c.x, cfg.cellSize);
    CellIndexExactly(y, c.y, cfg.cellSize);
    FieldInCell2D(cfg, c, x, y);
    if CenterNear2D(cfg, c, x, y) {
      var (centerX, centerY) := Center2D(cfg, c.x, c.y);
      SpotIsNarrow(centerX - x, centerY - y, 0.0, cfg.spotRadius);
      IndexRangeIsOrdered(rect.minX, x, cfg.cellSize);
      IndexRangeIsOrdered(x, rect.maxX, cfg.cellSize);
      IndexRangeIsOrdered(rect.minY, y, cfg.cellSize);
      IndexRangeIsOrdered(y, rect.maxY, cfg.cellSize);
    }
  }

  predicate CenterNear2D(cfg: Config, c: Cell, x: real, y: real) {
    var (centerX, centerY) := Center2D(cfg, c.x, c.y);
    InSpot(centerX - x, centerY - y, 0.0, cfg.spotRadius)
  }

  predicate CenterNear3D(cfg: Config, c: Vec3i, p: Vec3) {
    var center := Center3D(cfg, c);
    InSpot(center.x - p.x, center.y - p.y, center.z - p.z, cfg.spotRadius)
  }

  lemma {:induction false} NearIsInBox(cfg: Config, c: Vec3i, p: Vec3, lo: Vec3, hi: Vec3)
    requires cfg.Valid()
    requires lo.x <= p.x - cfg.spotRadius && lo.y <= p.y - cfg.spotRadius && lo.z <= p.z - cfg.spotRadius
    requires p.x + cfg.spotRadius <= hi.x && p.y + cfg.spotRadius <= hi.y && p.z + cfg.spotRadius <= hi.z
    ensures CenterNear3D(cfg, c, p) <==> DistanceSquared(Center3D(cfg, c), p) < Square(cfg.spotRadius)
    ensures CenterNear3D(cfg, c, p) ==> CenterInBox(cfg, lo, hi, c)
  {
    hide Center3D;
    if CenterNear3D(cfg, c, p) {
      var center := Center3D(cfg, c);
      SpotIsNarrow(center.x - p.x, center.y - p.y, center.z - p.z, cfg.spotRadius);
    }
  }

  /** The same in space. */
  lemma {:induction false} QueryAgreesWithEnumeration3D(cfg: Config, c: Vec3i, p: Vec3, lo: Vec3, hi: Vec3)
    requires cfg.Valid()
    requires InCell(p.x, c.x, cfg.cellSize) && InCell(p.y, c.y, cfg.cellSize) && InCell(p.z, c.z, cfg.cellSize)
    requires lo.x <= p.x - cfg.spotRadius && lo.y <= p.y - cfg.spotRadius && lo.z <= p.z - cfg.spotRadius
    requires p.x + cfg.spotRadius <= hi.x && p.y + cfg.spotRadius <= hi.y && p.z + cfg.spotRadius <= hi.z
    ensures SpotGridNoise3D(cfg, p) == 1.0 <==> Listed3D(cfg, lo, hi, c) && CenterNear3D(cfg, c, p)
  {
    BoxListsByCenter(cfg, lo, hi, c);
    hide Center3D, Listed3D, SpotGridNoise3D, InCell;
    FieldInCell3D(cfg, c, p);
    hide DistanceSquared;
    NearIsInBox(cfg, c, p, lo, hi);
  }
}
