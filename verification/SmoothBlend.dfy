/**
 The polynomial smooth minimum and maximum that round the crease of a hemisphere.
 */
module SmoothBlend {
  import opened Geometry

  function SmoothUnion(a: real, b: real, k: real): real {
    if k <= 0.0 then MinReal(a, b)
    else
      var h := Clamp01(0.5 + 0.5 * (b - a) / k);
      b * (1.0 - h) + a * h - k * h * (1.0 - h)
  }

  function SmoothIntersection(a: real, b: real, k: real): real {
    if k <= 0.0 then MaxReal(a, b) else -SmoothUnion(-a, -b, k)
  }

  /** How far the smooth minimum lies below `b` when `b` exceeds `a` by `d`. */
  function Dip(d: real, k: real): real
    requires k > 0.0
  {
    if d >= k then d else if d <= -k then 0.0 else Parabola(k + d, k)
  }

  function Parabola(x: real, k: real): real
    requires k > 0.0
  {
    x * x / (4.0 * k)
  }

  /** The blend weight in the middle range. */
  lemma {:induction false} MiddleBlend(a: real, b: real, k: real, h: real)
    requires k > 0.0 && h == 0.5 + 0.5 * (b - a) / k
    ensures b * (1.0 - h) + a * h - k * h * (1.0 - h) == b - Parabola(k + (b - a), k)
  {
    var d := b - a;
    var u := d / k;
    assert u * k == d;
    assert 0.5 * d / k == 0.5 * u by {
      QuotientIs(0.5 * d, k, 0.5 * u);
    }
    assert h == 0.5 + 0.5 * u;
    MiddleValue(b, u, k, h);
    QuotientIs((k + d) * (k + d), 4.0 * k, 0.25 * k * (1.0 + u) * (1.0 + u));
  }

  lemma MiddleValue(b: real, u: real, k: real, h: real)
    requires h == 0.5 + 0.5 * u
    ensures b * (1.0 - h) + (b - u * k) * h - k * h * (1.0 - h) == b - 0.25 * k * (1.0 + u) * (1.0 + u)
  {
  }

  lemma HalfRatio(d: real, k: real, q: real)
    requires k > 0.0 && q * k == 0.5 * d
    ensures d >= k ==> q >= 0.5
    ensures d <= -k ==> q <= -0.5
    ensures -k < d < k ==> -0.5 < q < 0.5
  {
    assert (q - 0.5) * k == 0.5 * d - 0.5 * k;
    assert (q + 0.5) * k == 0.5 * d + 0.5 * k;
    SignOfProduct(q - 0.5, k);
    SignOfProduct(q + 0.5, k);
  }

  /** The smooth minimum in closed form. */
  lemma {:induction false} SmoothUnionIsDip(a: real, b: real, k: real)
    requires k > 0.0
    ensures SmoothUnion(a, b, k) == b - Dip(b - a, k)
  {
    var d := b - a;
    var q := 0.5 * d / k;
    HalfRatio(d, k, q);
    hide Parabola;
    if -k < d < k {
      MiddleBlend(a, b, k, 0.5 + q);
    }
  }

  /** The middle dip through its distance from the straight parts. */
  lemma {:induction false} DipSquares(d: real, k: real)
    requires k > 0.0
    ensures Parabola(k + d, k) - d == Parabola(k - d, k)
    ensures Parabola(k + d, k) >= 0.0
  {
    var p := Parabola(k + d, k);
    Quadrupled(k + d, k);
    SquareIsSquare(k + d);
    SignOfProduct(p, 4.0 * k);
    CrossedSquares(p, d, k);
    QuotientIs((k - d) * (k - d), 4.0 * k, p - d);
  }

  lemma SquareIsSquare(x: real)
    ensures x * x >= 0.0
  {
  }

  lemma CrossedSquares(p: real, d: real, k: real)
    requires p * (4.0 * k) == (k + d) * (k + d)
    ensures (p - d) * (4.0 * k) == (k - d) * (k - d)
  {
  }

  lemma Quadrupled(x: real, k: real)
    requires k > 0.0
    ensures Parabola(x, k) * (4.0 * k) == x * x
  {
  }

  lemma {:induction false} ParabolaAscends(a: real, b: real, k: real)
    requires k > 0.0 && 0.0 <= a <= b
    ensures Parabola(a, k) <= Parabola(b, k)
  {
    hide Parabola;
    var p, q := Parabola(a, k), Parabola(b, k);
    Quadrupled(a, k);
    Quadrupled(b, k);
    SquaresOrder(a, b);
    Apart(q, p, 4.0 * k);
    SignOfProduct(q - p, 4.0 * k);
  }

  /** A full band dips by a quarter of its width. */
  lemma FullBand(k: real)
    requires k > 0.0
    ensures Parabola(k, k) == 0.25 * k && Parabola(2.0 * k, k) == k
  {
    QuotientIs(k * k, 4.0 * k, 0.25 * k);
    QuotientIs((2.0 * k) * (2.0 * k), 4.0 * k, k);
  }

  lemma {:induction false} DipBounds(d: real, k: real)
    requires k > 0.0
    ensures MaxReal(d, 0.0) <= Dip(d, k) <= MaxReal(d, 0.0) + 0.25 * k
    ensures Dip(d, k) - d == Dip(-d, k)
  {
    hide Parabola;
    if -k < d < k {
      DipSquares(d, k);
      DipSquares(-d, k);
      FullBand(k);
      if d <= 0.0 {
        ParabolaAscends(k + d, k, k);
      } else {
        ParabolaAscends(k - d, k, k);
      }
    }
  }

  lemma {:induction false} MiddleDipBelow(d: real, k: real)
    requires k > 0.0 && -k < d < k
    ensures 0.0 <= Dip(d, k) <= k
  {
    hide Parabola;
    DipSquares(d, k);
    ParabolaAscends(k + d, 2.0 * k, k);
    FullBand(k);
  }

  lemma {:induction false} DipIsMonotone(d: real, e: real, k: real)
    requires k > 0.0 && d <= e
    ensures Dip(d, k) <= Dip(e, k)
  {
    hide Parabola;
    if -k < d && e < k {
      ParabolaAscends(k + d, k + e, k);
    } else if -k < d < k {
      MiddleDipBelow(d, k);
    } else if -k < e < k {
      MiddleDipBelow(e, k);
    }
  }

  /** The smooth minimum lies at most a quarter of the smoothness below the minimum, and is symmetric. */
  lemma {:induction false} SmoothUnionBounds(a: real, b: real, k: real)
    ensures MinReal(a, b) - 0.25 * MaxReal(k, 0.0) <= SmoothUnion(a, b, k) <= MinReal(a, b)
    ensures SmoothUnion(a, b, k) == SmoothUnion(b, a, k)
  {
    if k > 0.0 {
      SmoothUnionIsDip(a, b, k);
      SmoothUnionIsDip(b, a, k);
      DipBounds(b - a, k);
      assert -(b - a) == a - b;
    }
  }

  /** The smooth minimum is monotone in both arguments. */
  lemma {:induction false} SmoothUnionIsMonotone(a: real, b: real, c: real, d: real, k: real)
    requires a <= c && b <= d
    ensures SmoothUnion(a, b, k) <= SmoothUnion(c, d, k)
  {
    if k > 0.0 {
      SmoothUnionIsDip(a, b, k);
      SmoothUnionIsDip(c, b, k);
      DipIsMonotone(b - c, b - a, k);
      SmoothUnionBounds(c, b, k);
      SmoothUnionIsDip(b, c, k);
      SmoothUnionIsDip(d, c, k);
      DipIsMonotone(c - d, c - b, k);
      SmoothUnionBounds(d, c, k);
    }
  }

  /** The smooth maximum lies at most a quarter of the smoothness above the maximum, is symmetric and monotone. */
  lemma {:induction false} SmoothIntersectionBounds(a: real, b: real, k: real)
    ensures MaxReal(a, b) <= SmoothIntersection(a, b, k) <= MaxReal(a, b) + 0.25 * MaxReal(k, 0.0)
    ensures SmoothIntersection(a, b, k) == SmoothIntersection(b, a, k)
  {
    SmoothUnionBounds(-a, -b, k);
  }

  /** Off the band |a - b| < k the smooth maximum is the larger one; on it, a parabola that joins the two. */
  lemma {:induction false} SmoothIntersectionIsBump(a: real, b: real, k: real)
    requires k > 0.0
    ensures a - b >= k ==> SmoothIntersection(a, b, k) == a
    ensures a - b <= -k ==> SmoothIntersection(a, b, k) == b
    ensures -k < a - b < k ==>
              4.0 * k * (SmoothIntersection(a, b, k) - b) == (k + a - b) * (k + a - b)
  {
    SmoothUnionIsDip(-a, -b, k);
    hide SmoothUnion;
    assert SmoothIntersection(a, b, k) == b + Dip(a - b, k);
    if -k < a - b < k {
      ParabolaScales(k + a - b, k);
    }
    hide Parabola;
  }

  lemma ParabolaScales(x: real, k: real)
    requires k > 0.0
    ensures 4.0 * k * Parabola(x, k) == x * x
  {
  }

  lemma {:induction false} SmoothIntersectionIsMonotone(a: real, b: real, c: real, d: real, k: real)
    requires a <= c && b <= d
    ensures SmoothIntersection(a, b, k) <= SmoothIntersection(c, d, k)
  {
    SmoothUnionIsMonotone(-c, -d, -a, -b, k);
  }
}
