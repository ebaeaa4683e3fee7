/**
 One Hermite piece of the monotone cubic spline: the tangent the source chooses at a knot, the cubic it evaluates
 between two knots, and the reason that cubic never turns back.

 All arithmetic is over exact reals.
 */
module HermitePiece {

  /** Weighted harmonic mean of the two neighbouring slopes; zero where the data turns or is flat. */
  function InteriorTangent(dx: real, dxNext: real, m: real, mNext: real): real
    requires dx > 0.0 && dxNext > 0.0
  {
    if m * mNext <= 0.0 then 0.0
    else
      var common := dx + dxNext;
      DenominatorNonzero(common + dxNext, common + dx, m, mNext);
      (3.0 * common) / ((common + dxNext) / m + (common + dx) / mNext)
  }

  lemma DenominatorNonzero(w: real, wNext: real, m: real, mNext: real)
    requires w > 0.0 && wNext > 0.0 && m * mNext > 0.0
    ensures m != 0.0 && mNext != 0.0
    ensures (m > 0.0 && mNext > 0.0) || (m < 0.0 && mNext < 0.0)
    ensures m > 0.0 ==> w / m > 0.0 && wNext / mNext > 0.0
    ensures m < 0.0 ==> w / m < 0.0 && wNext / mNext < 0.0
  {
    assert m > 0.0 || m < 0.0;
    if m > 0.0 {
      assert mNext > 0.0;
      QuotientSign(w, m);
      QuotientSign(wNext, mNext);
    } else {
      assert mNext < 0.0;
      QuotientSign(w, m);
      QuotientSign(wNext, mNext);
    }
  }

  lemma ProductPositive(a: real, b: real)
    requires a > 0.0 && b > 0.0
    ensures a * b > 0.0
  {
  }

  lemma SameProduct(a: real, b: real, c: real, d: real)
    requires a == c && b == d
    ensures a * b == c * d && b * a == c * d
  {
  }

  lemma ProductNonNegative(a: real, b: real)
    requires a >= 0.0 && b >= 0.0
    ensures a * b >= 0.0
  {
  }

  /** A positive factor can be cancelled from an inequality. */
  lemma Cancel(a: real, b: real, d: real)
    requires d > 0.0 && a * d <= b * d
    ensures a <= b
  {
    if a > b {
      ProductPositive(a - b, d);
    }
  }

  lemma QuotientSign(w: real, m: real)
    requires w > 0.0 && m != 0.0
    ensures m > 0.0 ==> w / m > 0.0
    ensures m < 0.0 ==> w / m < 0.0
  {
    var q := w / m;
    assert q * m == w;
  }

  /** `c` is a share in [0, 3] of the slope `m`, so it points the same way and is at most three times as steep. */
  ghost predicate Within3x(c: real, m: real) {
    if m >= 0.0 then 0.0 <= c <= 3.0 * m else 3.0 * m <= c <= 0.0
  }

  lemma ScaledBound(c: real, w: real, common: real, m: real)
    requires c >= 0.0 && w >= common > 0.0 && m > 0.0
    requires c * (w / m) <= 3.0 * common
    ensures c <= 3.0 * m
  {
    var q := w / m;
    assert q * m == w;
    QuotientSign(w, m);
    assert (3.0 * m) * q == 3.0 * w;
    Cancel(c, 3.0 * m, q);
  }

  lemma TangentWithin3xPositive(dx: real, dxNext: real, m: real, mNext: real)
    requires dx > 0.0 && dxNext > 0.0 && m > 0.0 && mNext > 0.0
    ensures var c := InteriorTangent(dx, dxNext, m, mNext);
      0.0 <= c <= 3.0 * m && c <= 3.0 * mNext
  {
    assert m * mNext > 0.0;
    var common := dx + dxNext;
    var a, b := (common + dxNext) / m, (common + dx) / mNext;
    DenominatorNonzero(common + dxNext, common + dx, m, mNext);
    var c := InteriorTangent(dx, dxNext, m, mNext);
    assert c == (3.0 * common) / (a + b);
    assert c * (a + b) == 3.0 * common;
    QuotientSign(3.0 * common, a + b);
    assert c * a >= 0.0 && c * b >= 0.0;
    assert c * (a + b) == c * a + c * b;
    ScaledBound(c, common + dxNext, common, m);
    ScaledBound(c, common + dx, common, mNext);
  }

  lemma NegateQuotient(w: real, m: real)
    requires m != 0.0
    ensures w / (-m) == -(w / m)
  {
    var q := w / m;
    assert q * m == w;
    assert (-q) * (-m) == w;
    assert (-q) == w / (-m) by { DivisionUnique(-q, -m, w); }
  }

  lemma DivisionUnique(q: real, d: real, w: real)
    requires d != 0.0 && q * d == w
    ensures w / d == q
  {
    var p := w / d;
    assert p * d == w;
    assert (p - q) * d == 0.0;
  }

  lemma NegateTangent(dx: real, dxNext: real, m: real, mNext: real)
    requires dx > 0.0 && dxNext > 0.0 && m < 0.0 && mNext < 0.0
    ensures InteriorTangent(dx, dxNext, m, mNext) == -InteriorTangent(dx, dxNext, -m, -mNext)
  {
    assert m * mNext > 0.0 && (-m) * (-mNext) > 0.0;
    var common := dx + dxNext;
    var a, b := (common + dxNext) / m, (common + dx) / mNext;
    DenominatorNonzero(common + dxNext, common + dx, m, mNext);
    NegateQuotient(common + dxNext, m);
    NegateQuotient(common + dx, mNext);
    assert (common + dxNext) / (-m) + (common + dx) / (-mNext) == -(a + b);
    NegateQuotient(3.0 * common, a + b);
  }

  /** The tangent at an inner knot stays within three times both neighbouring slopes, on either side of zero. */
  lemma TangentWithin3x(dx: real, dxNext: real, m: real, mNext: real)
    requires dx > 0.0 && dxNext > 0.0
    requires m * mNext >= 0.0
    ensures Within3x(InteriorTangent(dx, dxNext, m, mNext), m)
    ensures Within3x(InteriorTangent(dx, dxNext, m, mNext), mNext)
  {
    if m * mNext > 0.0 {
      DenominatorNonzero(dx, dxNext, m, mNext);
      if m > 0.0 {
        TangentWithin3xPositive(dx, dxNext, m, mNext);
      } else {
        NegateTangent(dx, dxNext, m, mNext);
        TangentWithin3xPositive(dx, dxNext, -m, -mNext);
      }
    }
  }

  lemma ShareInUnit(c: real, m: real, share: real)
    requires Within3x(c, m) && m != 0.0 && share * (3.0 * m) == c
    ensures 0.0 <= share <= 1.0
  {
    if m > 0.0 {
      Cancel(0.0, share, 3.0 * m);
      Cancel(share, 1.0, 3.0 * m);
    } else {
      assert share * (-3.0 * m) == -c;
      Cancel(0.0, share, -3.0 * m);
      Cancel(share, 1.0, -3.0 * m);
    }
  }

  function Share(c: real, m: real): (share: real)
    requires Within3x(c, m)
    ensures 0.0 <= share <= 1.0 && c == 3.0 * share * m
  {
    if m == 0.0 then 0.0
    else
      var share := c / (3.0 * m);
      assert share * (3.0 * m) == c;
      assert 0.0 <= share <= 1.0 by { ShareInUnit(c, m, share); }
      share
  }

  /** The cubic in the nested form the source evaluates. */
  function Cubic(y0: real, c1: real, c2: real, c3: real, diff: real): real {
    y0 + diff * (c1 + diff * (c2 + diff * c3))
  }

  /** First derivative of `Cubic` with respect to `diff`; `SlopeIsDerivative` justifies the name. */
  function CubicSlope(c1: real, c2: real, c3: real, diff: real): real {
    c1 + 2.0 * c2 * diff + 3.0 * c3 * diff * diff
  }

  lemma SlopeIsDerivative(y0: real, c1: real, c2: real, c3: real, d: real, e: real)
    ensures Cubic(y0, c1, c2, c3, d + e) - Cubic(y0, c1, c2, c3, d)
      == e * CubicSlope(c1, c2, c3, d) + e * e * (c2 + 3.0 * c3 * d + c3 * e)
  {
  }

  /** Degree-2 coefficient of a piece of width `dx` and mean slope `m` with end tangents `c1` and `c1Next`. */
  function Quadratic(dx: real, m: real, c1: real, c1Next: real): real
    requires dx > 0.0
  {
    (m - c1 - (c1 + c1Next - 2.0 * m)) * (1.0 / dx)
  }

  /** Degree-3 coefficient of the same piece. */
  function CubicCoefficient(dx: real, m: real, c1: real, c1Next: real): real
    requires dx > 0.0
  {
    (c1 + c1Next - 2.0 * m) * (1.0 / dx) * (1.0 / dx)
  }

  /** Shape of a piece on the unit square, when its end tangents are 3 * a and 3 * b times its mean slope. */
  function Shape(a: real, b: real, s: real): real {
    Mix(a, b, s - 2.0 * s * s + s * s * s, s * s * s - s * s, 3.0 * s * s - 2.0 * s * s * s)
  }

  function Mix(a: real, b: real, p: real, q: real, r: real): real {
    3.0 * a * p + 3.0 * b * q + r
  }

  lemma NestedForm(y0: real, c1: real, q: real, r: real, dx: real, s: real)
    requires dx > 0.0
    ensures var inv := 1.0 / dx;
      Cubic(y0, c1, q * inv, r * inv * inv, s * dx) == y0 + s * dx * (c1 + s * (q + r * s))
  {
    var inv := 1.0 / dx;
    var d := s * dx;
    assert dx * inv == 1.0;
    assert d * inv == s by { assert s * dx * inv == s * (dx * inv); }
    assert d * (r * inv * inv) == r * s * inv by {
      assert d * (r * inv * inv) == (d * inv) * (r * inv);
    }
    assert d * (q * inv + r * s * inv) == s * (q + r * s) by {
      assert d * (q * inv + r * s * inv) == (d * inv) * (q + r * s);
    }
  }

  /** A piece is its left end plus its rise times the unit shape. */
  lemma PieceFollowsShape(y0: real, dx: real, m: real, c1: real, c1Next: real, a: real, b: real, s: real, d: real)
    requires dx > 0.0 && c1 == 3.0 * a * m && c1Next == 3.0 * b * m && d == s * dx
    ensures PieceAt(y0, dx, m, c1, c1Next, d) == y0 + m * dx * Shape(a, b, s)
  {
    var k := c1 + c1Next - 2.0 * m;
    NestedForm(y0, c1, m - c1 - k, k, dx, s);
    var j := 3.0 * a + 3.0 * b - 2.0;
    var u := 3.0 * a + s * ((1.0 - 3.0 * a - j) + j * s);
    assert k == m * j;
    assert m - c1 - k == m * (1.0 - 3.0 * a - j);
    assert c1 + s * (m - c1 - k + k * s) == m * u;
    ShapeFactors(a, b, s);
    Regroup(s, dx, m, u, Shape(a, b, s));
  }

  lemma Regroup(s: real, dx: real, m: real, u: real, shape: real)
    requires shape == s * u
    ensures s * dx * (m * u) == m * dx * shape
  {
  }

  lemma ShapeFactors(a: real, b: real, s: real)
    ensures Shape(a, b, s)
      == s * (3.0 * a + s * ((1.0 - 3.0 * a - (3.0 * a + 3.0 * b - 2.0)) + (3.0 * a + 3.0 * b - 2.0) * s))
  {
  }

  lemma CubeMonotone(a: real, b: real)
    requires a <= b
    ensures a * a * a <= b * b * b
  {
    var q := a * a + a * b + b * b;
    var h := a + b / 2.0;
    assert q == h * h + 0.75 * (b * b);
    assert h * h >= 0.0 && b * b >= 0.0;
    assert b * b * b - a * a * a == (b - a) * q;
    assert (b - a) * q >= 0.0;
  }

  /** The four extreme tangent choices give shapes that never decrease. */
  lemma CornersMonotone(s: real, t: real)
    requires 0.0 <= s <= t <= 1.0
    ensures Shape(0.0, 0.0, s) <= Shape(0.0, 0.0, t)
    ensures Shape(1.0, 0.0, s) <= Shape(1.0, 0.0, t)
    ensures Shape(0.0, 1.0, s) <= Shape(0.0, 1.0, t)
    ensures Shape(1.0, 1.0, s) <= Shape(1.0, 1.0, t)
  {
    CubeMonotone(s, t);
    assert Shape(0.0, 1.0, s) == s * s * s && Shape(0.0, 1.0, t) == t * t * t;
    CubeMonotone(1.0 - t, 1.0 - s);
    OneZeroCorner(s);
    OneZeroCorner(t);
    CubeMonotone(2.0 * s - 1.0, 2.0 * t - 1.0);
    OneOneCorner(s);
    OneOneCorner(t);
    ZeroZeroCorner(s, t);
  }

  lemma OneZeroCorner(s: real)
    ensures Shape(1.0, 0.0, s) == 1.0 - (1.0 - s) * (1.0 - s) * (1.0 - s)
  {
  }

  lemma OneOneCorner(s: real)
    ensures 2.0 * Shape(1.0, 1.0, s) == 1.0 + (2.0 * s - 1.0) * (2.0 * s - 1.0) * (2.0 * s - 1.0)
  {
  }

  lemma ZeroZeroRise(s: real, t: real, f: real)
    requires f == 3.0 * s * (1.0 - s) + 3.0 * t * (1.0 - t) + (t - s) * (t - s)
    ensures 3.0 * t * t - 2.0 * t * t * t - (3.0 * s * s - 2.0 * s * s * s) == (t - s) * f
  {
  }

  lemma ZeroZeroCorner(s: real, t: real)
    requires 0.0 <= s <= t <= 1.0
    ensures Shape(0.0, 0.0, s) <= Shape(0.0, 0.0, t)
  {
    var f := 3.0 * s * (1.0 - s) + 3.0 * t * (1.0 - t) + (t - s) * (t - s);
    ProductNonNegative(3.0 * s, 1.0 - s);
    ProductNonNegative(3.0 * t, 1.0 - t);
    ProductNonNegative(t - s, t - s);
    ProductNonNegative(t - s, f);
    ZeroZeroRise(s, t, f);
  }

  /** A combination of non-negative corner rises is non-negative anywhere in the unit square of shares. */
  lemma ConvexRise(a: real, b: real, d00: real, d10: real, d01: real)
    requires 0.0 <= a <= 1.0 && 0.0 <= b <= 1.0
    requires d00 >= 0.0 && d10 >= 0.0 && d01 >= 0.0 && d10 + d01 - d00 >= 0.0
    ensures d00 + a * (d10 - d00) + b * (d01 - d00) >= 0.0
  {
    if a + b <= 1.0 {
      ProductNonNegative(1.0 - a - b, d00);
      ProductNonNegative(a, d10);
      ProductNonNegative(b, d01);
      assert d00 + a * (d10 - d00) + b * (d01 - d00) == (1.0 - a - b) * d00 + a * d10 + b * d01;
    } else {
      var d11 := d10 + d01 - d00;
      ProductNonNegative(a + b - 1.0, d11);
      ProductNonNegative(1.0 - b, d10);
      ProductNonNegative(1.0 - a, d01);
      assert d00 + a * (d10 - d00) + b * (d01 - d00)
        == (a + b - 1.0) * d11 + (1.0 - b) * d10 + (1.0 - a) * d01;
    }
  }

  /** The shape is affine in the tangent shares `a` and `b`, with no mixed term, so the corners decide. */
  lemma AffineRise(a: real, b: real, p: real, q: real, r: real, p': real, q': real, r': real)
    requires 0.0 <= a <= 1.0 && 0.0 <= b <= 1.0
    requires r <= r' && 3.0 * p + r <= 3.0 * p' + r' && 3.0 * q + r <= 3.0 * q' + r'
    requires 3.0 * p + 3.0 * q + r <= 3.0 * p' + 3.0 * q' + r'
    ensures Mix(a, b, p, q, r) <= Mix(a, b, p', q', r')
  {
    var d00, d10, d01 := r' - r, 3.0 * (p' - p) + r' - r, 3.0 * (q' - q) + r' - r;
    ConvexRise(a, b, d00, d10, d01);
    assert a * (d10 - d00) == 3.0 * a * p' - 3.0 * a * p;
    assert b * (d01 - d00) == 3.0 * b * q' - 3.0 * b * q;
  }

  lemma ShapeMonotone(a: real, b: real, s: real, t: real)
    requires 0.0 <= a <= 1.0 && 0.0 <= b <= 1.0
    requires 0.0 <= s <= t <= 1.0
    ensures Shape(a, b, s) <= Shape(a, b, t)
  {
    CornersMonotone(s, t);
    AffineRise(a, b, s - 2.0 * s * s + s * s * s, s * s * s - s * s, 3.0 * s * s - 2.0 * s * s * s,
      t - 2.0 * t * t + t * t * t, t * t * t - t * t, 3.0 * t * t - 2.0 * t * t * t);
  }

  /** Value at distance `diff` from the left end of a piece with the coefficients the source computes. */
  function PieceAt(y0: real, dx: real, m: real, c1: real, c1Next: real, diff: real): real
    requires dx > 0.0
  {
    Cubic(y0, c1, Quadratic(dx, m, c1, c1Next), CubicCoefficient(dx, m, c1, c1Next), diff)
  }

  lemma PieceProgress(y0: real, dx: real, m: real, c1: real, c1Next: real, d: real, e: real)
    returns (p: real, q: real)
    requires dx > 0.0 && 0.0 <= d <= e <= dx
    requires Within3x(c1, m) && Within3x(c1Next, m)
    ensures 0.0 <= p <= q <= 1.0
    ensures PieceAt(y0, dx, m, c1, c1Next, d) == y0 + m * dx * p
    ensures PieceAt(y0, dx, m, c1, c1Next, e) == y0 + m * dx * q
  {
    hide PieceAt, Shape;
    var a, b := Share(c1, m), Share(c1Next, m);
    var s, t := d / dx, e / dx;
    assert s * dx == d && t * dx == e;
    UnitPosition(d, e, dx, s, t);
    p, q := Shape(a, b, s), Shape(a, b, t);
    assert 0.0 <= p <= q <= 1.0 by {
      ShapeMonotone(a, b, 0.0, s);
      ShapeMonotone(a, b, s, t);
      ShapeMonotone(a, b, t, 1.0);
      ShapeEnds(a, b);
    }
    PieceFollowsShape(y0, dx, m, c1, c1Next, a, b, s, d);
    PieceFollowsShape(y0, dx, m, c1, c1Next, a, b, t, e);
  }

  /**
   Any piece whose end tangents are within three times its mean slope moves only in the direction of its rise,
   from its left end value to its right end value.
   */
  lemma PieceMonotone(y0: real, dx: real, m: real, c1: real, c1Next: real, d: real, e: real)
    requires dx > 0.0 && 0.0 <= d <= e <= dx
    requires Within3x(c1, m) && Within3x(c1Next, m)
    ensures var f, g := PieceAt(y0, dx, m, c1, c1Next, d), PieceAt(y0, dx, m, c1, c1Next, e);
      && (m >= 0.0 ==> y0 <= f <= g <= y0 + m * dx)
      && (m <= 0.0 ==> y0 >= f >= g >= y0 + m * dx)
  {
    hide *;
    var p, q := PieceProgress(y0, dx, m, c1, c1Next, d, e);
    RiseSign(m, dx);
    RiseScales(y0, m * dx, p, q, PieceAt(y0, dx, m, c1, c1Next, d), PieceAt(y0, dx, m, c1, c1Next, e));
  }

  lemma ShapeEnds(a: real, b: real)
    ensures Shape(a, b, 0.0) == 0.0 && Shape(a, b, 1.0) == 1.0
  {
  }

  lemma UnitPosition(d: real, e: real, dx: real, s: real, t: real)
    requires dx > 0.0 && 0.0 <= d <= e <= dx && s * dx == d && t * dx == e
    ensures 0.0 <= s <= t <= 1.0
  {
    Cancel(0.0, s, dx);
    Cancel(s, t, dx);
    Cancel(t, 1.0, dx);
  }

  lemma RiseSign(m: real, dx: real)
    requires dx >= 0.0
    ensures m >= 0.0 ==> m * dx >= 0.0
    ensures m <= 0.0 ==> m * dx <= 0.0
  {
  }

  lemma RiseScales(y0: real, rise: real, p: real, q: real, f: real, g: real)
    requires 0.0 <= p <= q <= 1.0
    requires f == y0 + rise * p && g == y0 + rise * q
    ensures rise >= 0.0 ==> y0 <= f <= g <= y0 + rise
    ensures rise <= 0.0 ==> y0 >= f >= g >= y0 + rise
  {
    assert rise * q - rise * p == rise * (q - p);
    assert rise - rise * q == rise * (1.0 - q);
  }

  /** The piece reaches the next knot in value and in slope. */
  lemma PieceEnds(y0: real, dx: real, m: real, c1: real, c1Next: real)
    requires dx > 0.0
    ensures var c2, c3 := Quadratic(dx, m, c1, c1Next), CubicCoefficient(dx, m, c1, c1Next);
      && Cubic(y0, c1, c2, c3, 0.0) == y0
      && Cubic(y0, c1, c2, c3, dx) == y0 + m * dx
      && CubicSlope(c1, c2, c3, 0.0) == c1
      && CubicSlope(c1, c2, c3, dx) == c1Next
  {
    var k := c1 + c1Next - 2.0 * m;
    var inv := 1.0 / dx;
    assert dx * inv == 1.0;
    var c2, c3 := (m - c1 - k) * inv, k * inv * inv;
    assert dx * c3 == k * inv by { assert dx * (k * inv * inv) == (dx * inv) * (k * inv); }
    assert dx * c2 == m - c1 - k by { assert dx * ((m - c1 - k) * inv) == (dx * inv) * (m - c1 - k); }
    assert dx * (k * inv) == k by { assert dx * (k * inv) == (dx * inv) * k; }
    assert dx * (c2 + dx * c3) == m - c1;
    assert 3.0 * c3 * dx * dx == 3.0 * (dx * (dx * c3));
    assert 2.0 * c2 * dx == 2.0 * (dx * c2);
  }
}
