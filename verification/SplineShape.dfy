/** The curve of the spline described by its points alone: which slopes it has at the knots, and what lies between. */
module SplineShape {
  import opened HermitePiece
  import opened MonotoneCubicSpline

  /** Slope of the chord of the i-th interval. */
  function Chord(xs: seq<real>, ys: seq<real>, i: nat): real
    requires |xs| == |ys| && i + 1 < |xs| && StrictlyIncreasing(xs)
  {
    (ys[i+1] - ys[i]) / (xs[i+1] - xs[i])
  }

  /**
   `t` divides the way from one reciprocal slope to the other in the ratio of the opposite weights, so that the slope of
   the shorter of the two intervals counts more.
   */
  ghost predicate Balances(dx: real, dxNext: real, m: real, mNext: real, t: real)
    requires m != 0.0 && mNext != 0.0
  {
    t != 0.0 && (1.0 / t - 1.0 / m) * (dx + 2.0 * dxNext) == (1.0 / mNext - 1.0 / t) * (2.0 * dx + dxNext)
  }

  /** Slopes at the knots: the chords at the ends, flat at turns and beside flat intervals, balanced elsewhere. */
  ghost predicate KnotSlopes(xs: seq<real>, ys: seq<real>, t: seq<real>)
    requires |xs| == |ys| >= 2 && StrictlyIncreasing(xs)
  {
    var n := |xs|;
    && |t| == n && t[0] == Chord(xs, ys, 0) && t[n-1] == Chord(xs, ys, n - 2)
    && forall k :: 0 < k < n - 1 ==> InnerSlope(xs, ys, k, t[k])
  }

  ghost predicate InnerSlope(xs: seq<real>, ys: seq<real>, k: nat, t: real)
    requires |xs| == |ys| && 0 < k < |xs| - 1 && StrictlyIncreasing(xs)
  {
    var m, mNext := Chord(xs, ys, k - 1), Chord(xs, ys, k);
    if (m > 0.0 && mNext > 0.0) || (m < 0.0 && mNext < 0.0)
    then Balances(xs[k] - xs[k-1], xs[k+1] - xs[k], m, mNext, t)
    else t == 0.0
  }

  /** The cubic Hermite form between two knots, `u` of the way from the left one. */
  function Hermite(y0: real, y1: real, t0: real, t1: real, dx: real, u: real): real {
    y0 * (1.0 - 3.0 * u * u + 2.0 * u * u * u) + y1 * (3.0 * u * u - 2.0 * u * u * u)
      + dx * t0 * (u - 2.0 * u * u + u * u * u) + dx * t1 * (u * u * u - u * u)
  }

  // ---------- The tangent of the source is the balancing slope ----------

  lemma Inverse(t: real, a: real, b: real)
    requires b != 0.0 && a != 0.0 && t == a / b
    ensures t != 0.0 && 1.0 / t == b / a
  {
    assert t * b == a;
    var r := 1.0 / t;
    assert r * t == 1.0;
    InverseProduct(r, t, a, b);
    DivisionUnique(r, a, b);
  }

  lemma InverseProduct(r: real, t: real, a: real, b: real)
    requires r * t == 1.0 && t * b == a
    ensures r * a == b
  {
    SameProduct(r, a, r, t * b);
    SameProduct(r * t, b, 1.0, b);
  }

  lemma WeightOver(w: real, m: real)
    requires m != 0.0
    ensures w / m == w * (1.0 / m)
  {
    var r := 1.0 / m;
    assert r * m == 1.0;
    assert (w * r) * m == w * (r * m);
    DivisionUnique(w * r, m, w);
  }

  /** With reciprocals p, q, r the balance is linear in r. */
  lemma LinearBalance(a: real, b: real, p: real, q: real, r: real)
    requires a + b > 0.0
    ensures (r - p) * a == (q - r) * b <==> r * (a + b) == p * a + q * b
  {
    assert (r - p) * a == r * a - p * a;
    assert (q - r) * b == q * b - r * b;
    assert r * (a + b) == r * a + r * b;
  }

  lemma TangentBalances(dx: real, dxNext: real, m: real, mNext: real)
    requires dx > 0.0 && dxNext > 0.0 && m * mNext > 0.0
    ensures m != 0.0 && mNext != 0.0
    ensures Balances(dx, dxNext, m, mNext, InteriorTangent(dx, dxNext, m, mNext))
  {
    var common := dx + dxNext;
    var a, b := common + dxNext, common + dx;
    DenominatorNonzero(a, b, m, mNext);
    var t, d := InteriorTangent(dx, dxNext, m, mNext), a / m + b / mNext;
    assert t == (3.0 * common) / d;
    hide InteriorTangent;
    Inverse(t, 3.0 * common, d);
    WeightOver(a, m);
    WeightOver(b, mNext);
    assert a + b == 3.0 * common;
    assert (1.0 / t) * (a + b) == d;
    LinearBalance(a, b, 1.0 / m, 1.0 / mNext, 1.0 / t);
  }

  lemma ReciprocalsDiffer(t: real, u: real)
    requires t != 0.0 && u != 0.0 && 1.0 / t == 1.0 / u
    ensures t == u
  {
    var r := 1.0 / t;
    assert r * t == 1.0 && r * u == 1.0;
    assert r * (t - u) == 0.0;
  }

  lemma SameLinear(a: real, r: real, r': real)
    requires a > 0.0 && r * a == r' * a
    ensures r == r'
  {
    assert (r - r') * a == 0.0;
  }

  /** Only one slope balances two others. */
  lemma BalanceUnique(dx: real, dxNext: real, m: real, mNext: real, t: real, u: real)
    requires dx > 0.0 && dxNext > 0.0 && m != 0.0 && mNext != 0.0
    requires Balances(dx, dxNext, m, mNext, t) && Balances(dx, dxNext, m, mNext, u)
    ensures t == u
  {
    var a, b := dx + 2.0 * dxNext, 2.0 * dx + dxNext;
    LinearBalance(a, b, 1.0 / m, 1.0 / mNext, 1.0 / t);
    LinearBalance(a, b, 1.0 / m, 1.0 / mNext, 1.0 / u);
    SameLinear(a + b, 1.0 / t, 1.0 / u);
    ReciprocalsDiffer(t, u);
  }

  lemma SignsOfProduct(m: real, n: real)
    ensures m * n > 0.0 <==> (m > 0.0 && n > 0.0) || (m < 0.0 && n < 0.0)
  {
  }

  lemma TangentOfChords(s: Spline, k: nat)
    requires IsInterpolant(s) && 0 < k < |s.xs| - 1
    ensures s.xs[k-1] < s.xs[k] < s.xs[k+1]
    ensures s.c1s[k] == InteriorTangent(
      s.xs[k] - s.xs[k-1], s.xs[k+1] - s.xs[k], Chord(s.xs, s.ys, k - 1), Chord(s.xs, s.ys, k))
  {
    hide InteriorTangent, Quadratic, CubicCoefficient;
    assert s.c1s[k] == Tangent(s.xs, s.ys, k);
  }

  lemma TangentBalancesOrFlat(dx: real, dxNext: real, m: real, mNext: real)
    requires dx > 0.0 && dxNext > 0.0
    ensures var t := InteriorTangent(dx, dxNext, m, mNext);
      if (m > 0.0 && mNext > 0.0) || (m < 0.0 && mNext < 0.0) then Balances(dx, dxNext, m, mNext, t) else t == 0.0
  {
    hide Balances;
    SignsOfProduct(m, mNext);
    if m * mNext > 0.0 {
      hide InteriorTangent;
      TangentBalances(dx, dxNext, m, mNext);
    }
  }

  lemma InnerTangent(s: Spline, k: nat)
    requires IsInterpolant(s) && 0 < k < |s.xs| - 1
    ensures InnerSlope(s.xs, s.ys, k, s.c1s[k])
  {
    TangentOfChords(s, k);
    hide IsInterpolant, Chord, Balances, InteriorTangent;
    TangentBalancesOrFlat(
      s.xs[k] - s.xs[k-1], s.xs[k+1] - s.xs[k], Chord(s.xs, s.ys, k - 1), Chord(s.xs, s.ys, k));
  }

  lemma EndTangents(s: Spline)
    requires IsInterpolant(s)
    ensures |s.xs| == |s.ys| == |s.c1s| >= 2 && StrictlyIncreasing(s.xs)
    ensures s.c1s[0] == s.firstSlope == Chord(s.xs, s.ys, 0)
    ensures s.c1s[|s.xs|-1] == s.lastSlope == Chord(s.xs, s.ys, |s.xs| - 2)
  {
    hide InteriorTangent, Quadratic, CubicCoefficient;
  }

  /** The slopes of the curve at its knots, from either side, are the ones its points call for. */
  lemma CurveSlopes(s: Spline)
    requires IsInterpolant(s)
    ensures KnotSlopes(s.xs, s.ys, s.c1s)
    ensures forall i :: 0 <= i < |s.xs| - 1 ==>
      PieceSlope(s, i, s.xs[i]) == s.c1s[i] && PieceSlope(s, i, s.xs[i+1]) == s.c1s[i+1]
  {
    hide IsInterpolant, InnerSlope, Chord, PieceSlope;
    EndTangents(s);
    forall k | 0 < k < |s.xs| - 1 ensures InnerSlope(s.xs, s.ys, k, s.c1s[k]) {
      InnerTangent(s, k);
    }
    forall i | 0 <= i < |s.xs| - 1
      ensures PieceSlope(s, i, s.xs[i]) == s.c1s[i] && PieceSlope(s, i, s.xs[i+1]) == s.c1s[i+1]
    {
      EndsOfPiece(s, i);
    }
  }

  /** Points allow only one choice of slopes. */
  lemma SlopesUnique(xs: seq<real>, ys: seq<real>, t: seq<real>, u: seq<real>)
    requires |xs| == |ys| >= 2 && StrictlyIncreasing(xs)
    requires KnotSlopes(xs, ys, t) && KnotSlopes(xs, ys, u)
    ensures t == u
  {
    hide Chord, Balances;
    forall k | 0 < k < |xs| - 1 ensures t[k] == u[k] {
      assert InnerSlope(xs, ys, k, t[k]) && InnerSlope(xs, ys, k, u[k]);
      var m, mNext := Chord(xs, ys, k - 1), Chord(xs, ys, k);
      if (m > 0.0 && mNext > 0.0) || (m < 0.0 && mNext < 0.0) {
        BalanceUnique(xs[k] - xs[k-1], xs[k+1] - xs[k], m, mNext, t[k], u[k]);
      }
    }
  }

  // ---------- The curve between two knots ----------

  lemma HermiteForm(y0: real, y1: real, t0: real, t1: real, dx: real, m: real, u: real)
    requires dx > 0.0 && m * dx == y1 - y0
    ensures PieceAt(y0, dx, m, t0, t1, u * dx) == Hermite(y0, y1, t0, t1, dx, u)
  {
    var k := t0 + t1 - 2.0 * m;
    NestedForm(y0, t0, m - t0 - k, k, dx, u);
    hide Hermite;
    Expand(y0, y1, t0, t1, dx, m, u);
  }

  lemma Expand(y0: real, y1: real, t0: real, t1: real, dx: real, m: real, u: real)
    requires m * dx == y1 - y0
    ensures var k := t0 + t1 - 2.0 * m;
      y0 + u * dx * (t0 + u * (m - t0 - k + k * u)) == Hermite(y0, y1, t0, t1, dx, u)
  {
    var a, b, rise := dx * t0, dx * t1, m * dx;
    var k := t0 + t1 - 2.0 * m;
    assert dx * k == a + b - 2.0 * rise;
    assert dx * (m - t0 - k + k * u) == (rise - a - (a + b - 2.0 * rise)) + (a + b - 2.0 * rise) * u by {
      assert dx * (m - t0 - k + k * u) == dx * m - dx * t0 - dx * k + dx * k * u;
    }
    var inner := m - t0 - k + k * u;
    assert dx * (t0 + u * inner) == a + u * (dx * inner);
    assert u * dx * (t0 + u * inner) == u * (a + u * (dx * inner));
    HermiteExpanded(y0, rise, a, b, u);
  }

  lemma HermiteExpanded(y0: real, rise: real, a: real, b: real, u: real)
    ensures y0 + u * (a + u * ((rise - a - (a + b - 2.0 * rise)) + (a + b - 2.0 * rise) * u))
      == y0 * (1.0 - 3.0 * u * u + 2.0 * u * u * u) + (y0 + rise) * (3.0 * u * u - 2.0 * u * u * u)
         + a * (u - 2.0 * u * u + u * u * u) + b * (u * u * u - u * u)
  {
  }

  /**
   The points determine the curve: with the one sequence of slopes they call for, it is the cubic Hermite form of every
   interval, and the lines of the end chords outside.
   */
  lemma CurveDetermined(s: Spline, t: seq<real>, x: real)
    requires IsInterpolant(s) && KnotSlopes(s.xs, s.ys, t)
    ensures forall i :: 0 <= i < |s.xs| - 1 && s.xs[i] <= x <= s.xs[i+1] ==>
      var dx := s.xs[i+1] - s.xs[i];
      ForX(s, x) == Hermite(s.ys[i], s.ys[i+1], t[i], t[i+1], dx, (x - s.xs[i]) / dx)
    ensures var n := |s.xs|;
      && (x <= s.xs[0] ==> ForX(s, x) == s.ys[0] - t[0] * (s.xs[0] - x))
      && (x >= s.xs[n-1] ==> ForX(s, x) == s.ys[n-1] + t[n-1] * (x - s.xs[n-1]))
  {
    hide IsInterpolant, KnotSlopes, ForX, Hermite;
    SlopesAre(s, t);
    OutsideKnots(s, x);
    forall i | 0 <= i < |s.xs| - 1 && s.xs[i] <= x <= s.xs[i+1]
      ensures var dx := s.xs[i+1] - s.xs[i];
        ForX(s, x) == Hermite(s.ys[i], s.ys[i+1], t[i], t[i+1], dx, (x - s.xs[i]) / dx)
    {
      OnHermite(s, i, x);
    }
  }

  lemma SlopesAre(s: Spline, t: seq<real>)
    requires IsInterpolant(s) && KnotSlopes(s.xs, s.ys, t)
    ensures |s.xs| == |s.ys| >= 2 && StrictlyIncreasing(s.xs)
    ensures t == s.c1s && |t| == |s.xs|
  {
    hide InnerSlope, Chord, PieceSlope;
    EndTangents(s);
    CurveSlopes(s);
    hide KnotSlopes;
    SlopesUnique(s.xs, s.ys, t, s.c1s);
  }

  lemma OutsideKnots(s: Spline, x: real)
    requires IsInterpolant(s)
    ensures var n := |s.xs|;
      && (x <= s.xs[0] ==> ForX(s, x) == s.ys[0] - s.c1s[0] * (s.xs[0] - x))
      && (x >= s.xs[n-1] ==> ForX(s, x) == s.ys[n-1] + s.c1s[n-1] * (x - s.xs[n-1]))
  {
    hide ForX, Chord, IsInterpolant;
    EndTangents(s);
    TailValues(s, x);
  }

  lemma OnHermite(s: Spline, i: nat, x: real)
    requires IsInterpolant(s) && i < |s.xs| - 1 && s.xs[i] <= x <= s.xs[i+1]
    ensures var dx := s.xs[i+1] - s.xs[i];
      ForX(s, x) == Hermite(s.ys[i], s.ys[i+1], s.c1s[i], s.c1s[i+1], dx, (x - s.xs[i]) / dx)
  {
    hide ForX, Cubic, Quadratic, CubicCoefficient, Tangent, MeanSlope, Hermite;
    OnPiece(s, i, x);
    var dx, m := s.xs[i+1] - s.xs[i], MeanSlope(s.xs, s.ys, i);
    SlopeRise(s.xs, s.ys, i);
    var u := (x - s.xs[i]) / dx;
    assert u * dx == x - s.xs[i];
    assert ForX(s, x) == PieceAt(s.ys[i], dx, m, s.c1s[i], s.c1s[i+1], u * dx);
    HermiteForm(s.ys[i], s.ys[i+1], s.c1s[i], s.c1s[i+1], dx, m, u);
  }
}
