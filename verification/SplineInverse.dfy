/** When the inverse of the spline can be trusted on data that goes down. */
module SplineInverse {
  import opened HermitePiece
  import opened MonotoneCubicSpline

  /** All points lie on the line of the first tail. */
  ghost predicate Collinear(s: Spline)
    requires IsInterpolant(s)
  {
    forall i :: 0 <= i < |s.xs| ==> s.ys[i] == Line(s, s.xs[i])
  }

  function Line(s: Spline, x: real): real
    requires IsInterpolant(s)
  {
    s.ys[0] + s.firstSlope * (x - s.xs[0])
  }

  lemma LineSlope(s: Spline, i: nat)
    requires IsInterpolant(s) && Collinear(s) && i + 1 < |s.xs|
    ensures MeanSlope(s.xs, s.ys, i) == s.firstSlope
  {
    hide Tangent, Quadratic, CubicCoefficient, Line;
    var x, x', y, y', m := s.xs[i], s.xs[i+1], s.ys[i], s.ys[i+1], s.firstSlope;
    LineRise(s, x, x');
    assert x < x' && y == Line(s, x) && y' == Line(s, x');
    assert MeanSlope(s.xs, s.ys, i) == (y' - y) / (x' - x);
    hide *;
    DivisionUnique(m, x' - x, y' - y);
  }

  lemma LineRise(s: Spline, x: real, x': real)
    requires IsInterpolant(s)
    ensures Line(s, x') - Line(s, x) == s.firstSlope * (x' - x)
  {
    hide IsInterpolant;
  }

  /** Equal slopes on both sides of a knot are its tangent. */
  lemma EqualSlopes(dx: real, dxNext: real, m: real)
    requires dx > 0.0 && dxNext > 0.0
    ensures InteriorTangent(dx, dxNext, m, m) == m
  {
    if m == 0.0 {
    } else {
      assert m * m > 0.0 by { SquarePositive(m); }
      var common := dx + dxNext;
      var a, b := (common + dxNext) / m, (common + dx) / m;
      assert (a + b) * m == 3.0 * common by {
        assert a * m == common + dxNext && b * m == common + dx;
        assert (a + b) * m == a * m + b * m;
      }
      DenominatorNonzero(common + dxNext, common + dx, m, m);
      DivisionUnique(m, a + b, 3.0 * common);
    }
  }

  lemma SquarePositive(m: real)
    requires m != 0.0
    ensures m * m > 0.0
  {
    if m > 0.0 {
      ProductPositive(m, m);
    } else {
      ProductPositive(-m, -m);
    }
  }

  lemma LineTangent(s: Spline, i: nat)
    requires IsInterpolant(s) && Collinear(s) && i < |s.xs|
    ensures s.c1s[i] == s.firstSlope
  {
    hide InteriorTangent, Quadratic, CubicCoefficient, MeanSlope, Line;
    if 0 < i {
      LineSlope(s, i - 1);
    }
    if i < |s.xs| - 1 {
      LineSlope(s, i);
    }
    if 0 < i < |s.xs| - 1 {
      EqualSlopes(s.xs[i] - s.xs[i-1], s.xs[i+1] - s.xs[i], s.firstSlope);
    }
  }

  lemma FlatPiece(y0: real, dx: real, m: real, diff: real)
    requires dx > 0.0
    ensures Cubic(y0, m, Quadratic(dx, m, m, m), CubicCoefficient(dx, m, m, m), diff) == y0 + m * diff
  {
    var inv := 1.0 / dx;
    assert m - m - (m + m - 2.0 * m) == 0.0;
    assert Quadratic(dx, m, m, m) == 0.0 * inv;
    assert CubicCoefficient(dx, m, m, m) == 0.0 * inv * inv;
  }

  lemma LineOnTails(s: Spline, x: real)
    requires IsInterpolant(s) && Collinear(s) && !(s.xs[0] < x < s.xs[|s.xs|-1])
    ensures ForX(s, x) == Line(s, x)
  {
    hide ForX, Tangent, Quadratic, CubicCoefficient, MeanSlope, Line;
    var n := |s.xs|;
    LineSlope(s, n - 2);
    assert s.lastSlope == s.firstSlope && s.ys[0] == Line(s, s.xs[0]) && s.ys[n-1] == Line(s, s.xs[n-1]);
    TailValues(s, x);
    hide *;
    if x <= s.xs[0] {
      LineRise(s, x, s.xs[0]);
    } else {
      LineRise(s, s.xs[n-1], x);
      SameProduct(s.lastSlope, x - s.xs[n-1], s.firstSlope, x - s.xs[n-1]);
    }
  }

  lemma LineOnPiece(s: Spline, i: nat, x: real)
    requires IsInterpolant(s) && Collinear(s) && i < |s.xs| - 1 && s.xs[i] <= x <= s.xs[i+1]
    ensures ForX(s, x) == Line(s, x)
  {
    hide ForX, Cubic, Quadratic, CubicCoefficient, Tangent, MeanSlope, Line;
    OnPiece(s, i, x);
    LineTangent(s, i);
    LineTangent(s, i + 1);
    LineSlope(s, i);
    var dx, m, diff := s.xs[i+1] - s.xs[i], s.firstSlope, x - s.xs[i];
    assert ForX(s, x) == Cubic(s.ys[i], m, Quadratic(dx, m, m, m), CubicCoefficient(dx, m, m, m), diff);
    assert s.ys[i] == Line(s, s.xs[i]);
    FlatPiece(s.ys[i], dx, m, diff);
    LineRise(s, s.xs[i], x);
    hide *;
  }

  /** Through collinear points the curve is their line, tails included. */
  lemma LineEverywhere(s: Spline, x: real)
    requires IsInterpolant(s) && Collinear(s)
    ensures ForX(s, x) == Line(s, x)
  {
    hide ForX, Collinear, Tangent, Quadratic, CubicCoefficient, MeanSlope, Line;
    if s.xs[0] < x < s.xs[|s.xs|-1] {
      LineOnPiece(s, PieceOf(s, x), x);
    } else {
      LineOnTails(s, x);
    }
  }

  /** What `ForY` answers when the first value is above the last: every value is looked up on one of the tails. */
  function TailAnswer(s: Spline, y: real): Inverse
    requires IsInterpolant(s)
  {
    if y < s.ys[0] then LowTailInverse(s, y) else HighTailInverse(s, y)
  }

  method ForYOnDecreasing(s: Spline, y: real, precision: real) returns (answer: Inverse)
    requires IsInterpolant(s) && s.ys[0] > s.ys[|s.ys|-1]
    ensures answer == TailAnswer(s, y)
  {
    hide IsInterpolant;
    var r := ForY(s, y, precision);
    return r.Extract();
  }

  ghost predicate RightAnswer(s: Spline, y: real, answer: Inverse)
    requires IsInterpolant(s)
  {
    match answer
    case At(x) => ForX(s, x) == y
    case _ => forall x :: ForX(s, x) != y
  }

  /** On decreasing data every value is answered rightly exactly when the points lie on one line. */
  lemma DecreasingInverseExactly(s: Spline)
    requires IsInterpolant(s) && Nonincreasing(s.ys) && s.ys[0] > s.ys[|s.ys|-1]
    ensures (forall y :: RightAnswer(s, y, TailAnswer(s, y))) <==> Collinear(s)
  {
    hide ForX, Tangent, MeanSlope, Quadratic, CubicCoefficient;
    if forall y :: RightAnswer(s, y, TailAnswer(s, y)) {
      RightMeansCollinear(s);
    }
    if Collinear(s) {
      forall y ensures RightAnswer(s, y, TailAnswer(s, y)) {
        CollinearMeansRight(s, y);
      }
    }
  }

  /** The tail formula solved for the argument. */
  lemma Solve(m: real, rise: real, d: real)
    requires m != 0.0 && rise == m * d
    ensures rise / m == d
  {
    DivisionUnique(d, m, rise);
  }

  lemma LineReaches(s: Spline, from: real, rise: real)
    requires IsInterpolant(s) && s.firstSlope != 0.0
    ensures Line(s, from + rise / s.firstSlope) == Line(s, from) + rise
  {
    hide IsInterpolant, Line;
    var q := rise / s.firstSlope;
    LineRise(s, from, from + q);
    assert q * s.firstSlope == rise;
  }

  lemma RightMeansFalling(s: Spline)
    requires IsInterpolant(s) && Nonincreasing(s.ys) && s.ys[0] > s.ys[|s.ys|-1]
    requires forall y :: RightAnswer(s, y, TailAnswer(s, y))
    ensures s.firstSlope < 0.0
  {
    hide ForX, Tangent, MeanSlope, Quadratic, CubicCoefficient;
    var y := s.ys[|s.ys|-1];
    HitsKnot(s, |s.xs| - 1);
    assert RightAnswer(s, y, TailAnswer(s, y));
    SlopeSign(s.xs, s.ys, 0);
  }

  lemma RightMeansCollinear(s: Spline)
    requires IsInterpolant(s) && Nonincreasing(s.ys) && s.ys[0] > s.ys[|s.ys|-1]
    requires forall y :: RightAnswer(s, y, TailAnswer(s, y))
    ensures Collinear(s)
  {
    hide ForX, Tangent, MeanSlope, Quadratic, CubicCoefficient;
    RightMeansFalling(s);
    forall i | 0 < i < |s.xs| ensures s.ys[i] == Line(s, s.xs[i]) {
      HitsKnot(s, i);
      AnsweredAtKnot(s, i);
      assert RightAnswer(s, Line(s, s.xs[i]), TailAnswer(s, Line(s, s.xs[i])));
    }
  }

  lemma AnsweredAtKnot(s: Spline, i: nat)
    requires IsInterpolant(s) && s.firstSlope < 0.0 && 0 < i < |s.xs|
    ensures Line(s, s.xs[i]) < s.ys[0] && LowTailInverse(s, Line(s, s.xs[i])) == At(s.xs[i])
  {
    hide ForX, Tangent, MeanSlope, Quadratic, CubicCoefficient;
    var m, d, y := s.firstSlope, s.xs[i] - s.xs[0], Line(s, s.xs[i]);
    assert d > 0.0 && y == s.ys[0] + m * d;
    BackAlong(s.xs[0], s.ys[0], m, d, y);
    assert LowTailInverse(s, y) == At(s.xs[0] - (s.ys[0] - y) / m);
    hide *;
    assert s.xs[0] - (s.ys[0] - y) / m == s.xs[i];
  }

  lemma BackAlong(x0: real, y0: real, m: real, d: real, y: real)
    requires m < 0.0 && d > 0.0 && y == y0 + m * d
    ensures y < y0 && x0 - (y0 - y) / m == x0 + d
  {
    ProductPositive(-m, d);
    assert y0 - y == m * (-d);
    Solve(m, y0 - y, -d);
  }

  lemma CollinearMeansRight(s: Spline, y: real)
    requires IsInterpolant(s) && Collinear(s) && s.ys[0] > s.ys[|s.ys|-1]
    ensures RightAnswer(s, y, TailAnswer(s, y))
  {
    hide ForX, Tangent, MeanSlope, Quadratic, CubicCoefficient, Line;
    var n, m := |s.xs|, s.firstSlope;
    LineSlope(s, n - 2);
    LineFalls(s);
    assert s.ys[0] == Line(s, s.xs[0]) && s.ys[n-1] == Line(s, s.xs[n-1]);
    if y < s.ys[0] {
      LineReaches(s, s.xs[0], y - s.ys[0]);
      NegateRise(s.ys[0] - y, m);
      LineEverywhere(s, s.xs[0] + (y - s.ys[0]) / m);
    } else {
      LineReaches(s, s.xs[n-1], y - s.ys[n-1]);
      LineEverywhere(s, s.xs[n-1] + (y - s.ys[n-1]) / m);
    }
  }

  lemma LineFalls(s: Spline)
    requires IsInterpolant(s) && Collinear(s) && s.ys[0] > s.ys[|s.ys|-1]
    ensures s.firstSlope != 0.0
  {
    hide ForX, Tangent, MeanSlope, Quadratic, CubicCoefficient;
    assert s.ys[|s.ys|-1] == Line(s, s.xs[|s.xs|-1]);
  }

  lemma NegateRise(rise: real, m: real)
    requires m != 0.0
    ensures (-rise) / m == -(rise / m)
  {
    var q := rise / m;
    assert q * m == rise;
    assert (-q) * m == -rise;
    DivisionUnique(-q, m, -rise);
  }
}
