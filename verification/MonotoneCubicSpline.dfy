/**
 Monotone cubic interpolation: construction from raw points, evaluation for an argument, and bisection for a value.

 A `Spline` holds what the closure and the `CubicInterpolation` object of the source hold; neither is ever mutated.
 Arithmetic is over exact reals, where JavaScript's signed infinities can only come from a division by a zero slope.
 */
module MonotoneCubicSpline {
  import opened Outcomes
  import opened HermitePiece
  import Sorting

  datatype Spline = Spline(
    xs: seq<real>, ys: seq<real>, c1s: seq<real>, c2s: seq<real>, c3s: seq<real>, firstSlope: real, lastSlope: real)

  ghost predicate StrictlyIncreasing(xs: seq<real>) {
    forall i, j :: 0 <= i < j < |xs| ==> xs[i] < xs[j]
  }

  ghost predicate Nondecreasing(ys: seq<real>) {
    forall i, j :: 0 <= i < j < |ys| ==> ys[i] <= ys[j]
  }

  ghost predicate Nonincreasing(ys: seq<real>) {
    forall i, j :: 0 <= i < j < |ys| ==> ys[i] >= ys[j]
  }

  // ---------- What the construction computes ----------

  function MeanSlope(xs: seq<real>, ys: seq<real>, i: nat): real
    requires |xs| == |ys| && i + 1 < |xs| && StrictlyIncreasing(xs)
  {
    (ys[i+1] - ys[i]) / (xs[i+1] - xs[i])
  }

  function Tangent(xs: seq<real>, ys: seq<real>, i: nat): real
    requires |xs| == |ys| >= 2 && i < |xs| && StrictlyIncreasing(xs)
  {
    if i == 0 then MeanSlope(xs, ys, 0)
    else if i == |xs| - 1 then MeanSlope(xs, ys, i - 1)
    else InteriorTangent(xs[i] - xs[i-1], xs[i+1] - xs[i], MeanSlope(xs, ys, i - 1), MeanSlope(xs, ys, i))
  }

  /** The spline through strictly increasing arguments and monotone values, with the coefficients of the source. */
  ghost predicate IsInterpolant(s: Spline) {
    && |s.xs| == |s.ys| == |s.c1s| >= 2
    && |s.c2s| == |s.c3s| == |s.xs| - 1
    && StrictlyIncreasing(s.xs)
    && (Nondecreasing(s.ys) || Nonincreasing(s.ys))
    && (forall i :: 0 <= i < |s.xs| ==> s.c1s[i] == Tangent(s.xs, s.ys, i))
    && (forall i :: 0 <= i < |s.xs| - 1 ==>
      && s.c2s[i] == Quadratic(s.xs[i+1] - s.xs[i], MeanSlope(s.xs, s.ys, i), s.c1s[i], s.c1s[i+1])
      && s.c3s[i] == CubicCoefficient(s.xs[i+1] - s.xs[i], MeanSlope(s.xs, s.ys, i), s.c1s[i], s.c1s[i+1]))
    && s.firstSlope == MeanSlope(s.xs, s.ys, 0)
    && s.lastSlope == MeanSlope(s.xs, s.ys, |s.xs| - 2)
  }

  // ---------- Evaluation ----------

  /** First index `k >= i` whose half-open interval holds `point`, or the last index for the last point itself. */
  function IntervalFrom(point: real, points: seq<real>, i: nat): (r: Option<nat>)
    ensures r.Some? ==> r.value < |points| && points[r.value] <= point
    ensures r.Some? && r.value < |points| - 1 ==> point < points[r.value + 1]
    ensures r.Some? && r.value == |points| - 1 ==> point == points[r.value]
    decreases |points| - i
  {
    if i + 1 < |points| then
      if points[i] <= point < points[i+1] then Some(i) else IntervalFrom(point, points, i + 1)
    else if 0 < |points| && point == points[|points|-1] then Some(|points| - 1)
    else None
  }

  /** Every point between the first and the last lies in some interval, sorted or not. */
  lemma {:induction false} IntervalExists(point: real, points: seq<real>, i: nat)
    requires i < |points| && points[i] <= point <= points[|points|-1]
    ensures IntervalFrom(point, points, i).Some?
    decreases |points| - i
  {
    if i + 1 < |points| && !(point < points[i+1]) {
      IntervalExists(point, points, i + 1);
    }
  }

  method FindIntervalIndex(point: real, points: seq<real>) returns (r: Result<nat>)
    ensures r.Ok? <==> IntervalFrom(point, points, 0).Some?
    ensures r.Ok? ==> r.value == IntervalFrom(point, points, 0).value
  {
    var i := 0;
    while i < |points| - 1
      invariant 0 <= i && (|points| > 0 ==> i < |points|)
      invariant IntervalFrom(point, points, 0) == IntervalFrom(point, points, i)
    {
      if points[i] <= point && point < points[i+1] {
        return Ok(i);
      }
      i := i + 1;
    }
    if |points| > 0 && point == points[|points|-1] {
      return Ok(|points| - 1);
    }
    return Err("The point is outside the point list");
  }

  /** The interpolant proper, defined between the first and the last knot. */
  function Interpolate(s: Spline, x: real): real
    requires IsInterpolant(s) && s.xs[0] <= x <= s.xs[|s.xs|-1]
  {
    IntervalExists(x, s.xs, 0);
    var i := IntervalFrom(x, s.xs, 0).value;
    if x == s.xs[i] then s.ys[i]
    else Cubic(s.ys[i], s.c1s[i], s.c2s[i], s.c3s[i], x - s.xs[i])
  }

  function ForX(s: Spline, x: real): real
    requires IsInterpolant(s)
  {
    var last := |s.xs| - 1;
    if x < s.xs[0] then s.ys[0] - s.firstSlope * (s.xs[0] - x)
    else if x > s.xs[last] then s.ys[last] + s.lastSlope * (x - s.xs[last])
    else Interpolate(s, x)
  }

  // ---------- The curve hits every knot and is smooth ----------

  lemma IntervalOfKnot(xs: seq<real>, k: nat, i: nat)
    requires StrictlyIncreasing(xs) && i <= k < |xs|
    ensures IntervalFrom(xs[k], xs, i) == Some(k)
    decreases |xs| - i
  {
    if i < k {
      assert xs[i+1] <= xs[k];
      IntervalOfKnot(xs, k, i + 1);
    } else if i + 1 < |xs| {
      assert xs[i] < xs[i+1];
    }
  }

  lemma HitsKnot(s: Spline, k: nat)
    requires IsInterpolant(s) && k < |s.xs|
    ensures ForX(s, s.xs[k]) == s.ys[k]
  {
    IntervalOfKnot(s.xs, k, 0);
  }

  /** Value of piece `i` at `x`, extended beyond its interval as a cubic. */
  function PieceValue(s: Spline, i: nat, x: real): real
    requires IsInterpolant(s) && i < |s.xs| - 1
  {
    Cubic(s.ys[i], s.c1s[i], s.c2s[i], s.c3s[i], x - s.xs[i])
  }

  function PieceSlope(s: Spline, i: nat, x: real): real
    requires IsInterpolant(s) && i < |s.xs| - 1
  {
    CubicSlope(s.c1s[i], s.c2s[i], s.c3s[i], x - s.xs[i])
  }

  /** Between two neighbouring knots the curve is the piece of that interval. */
  lemma OnPiece(s: Spline, i: nat, x: real)
    requires IsInterpolant(s) && i < |s.xs| - 1 && s.xs[i] <= x <= s.xs[i+1]
    ensures ForX(s, x) == PieceValue(s, i, x)
  {
    PieceJoins(s, i);
    if x == s.xs[i] {
      HitsKnot(s, i);
    } else if x == s.xs[i+1] {
      HitsKnot(s, i + 1);
    } else {
      assert s.xs[0] <= s.xs[i] && s.xs[i+1] <= s.xs[|s.xs|-1];
      IntervalBetween(s.xs, i, x, 0);
    }
  }

  lemma {:induction false} IntervalBetween(xs: seq<real>, k: nat, x: real, i: nat)
    requires StrictlyIncreasing(xs) && i <= k < |xs| - 1 && xs[k] <= x < xs[k+1]
    ensures IntervalFrom(x, xs, i) == Some(k)
    decreases k - i
  {
    if i < k {
      assert xs[i+1] <= xs[k];
      IntervalBetween(xs, k, x, i + 1);
    }
  }

  /**
   Neighbouring pieces meet in value and in slope at the knot they share; at both ends the slope is that of the
   linear tail. Together with `SlopeIsDerivative` this is continuous differentiability over all arguments.
   */
  lemma PieceJoins(s: Spline, i: nat)
    requires IsInterpolant(s) && i < |s.xs| - 1
    ensures PieceValue(s, i, s.xs[i]) == s.ys[i]
    ensures PieceValue(s, i, s.xs[i+1]) == s.ys[i+1]
    ensures PieceSlope(s, i, s.xs[i+1]) == if i < |s.xs| - 2 then PieceSlope(s, i + 1, s.xs[i+1]) else s.lastSlope
    ensures i == 0 ==> PieceSlope(s, i, s.xs[i]) == s.firstSlope
  {
    hide Cubic, CubicSlope, Quadratic, CubicCoefficient, InteriorTangent, MeanSlope;
    EndsOfPiece(s, i);
    if i < |s.xs| - 2 {
      EndsOfPiece(s, i + 1);
    }
  }

  lemma EndsOfPiece(s: Spline, i: nat)
    requires IsInterpolant(s) && i < |s.xs| - 1
    ensures PieceValue(s, i, s.xs[i]) == s.ys[i] && PieceSlope(s, i, s.xs[i]) == s.c1s[i]
    ensures PieceValue(s, i, s.xs[i+1]) == s.ys[i+1] && PieceSlope(s, i, s.xs[i+1]) == s.c1s[i+1]
  {
    hide Cubic, CubicSlope, Quadratic, CubicCoefficient, Tangent, MeanSlope;
    SlopeRise(s.xs, s.ys, i);
    PieceEnds(s.ys[i], s.xs[i+1] - s.xs[i], MeanSlope(s.xs, s.ys, i), s.c1s[i], s.c1s[i+1]);
    assert s.xs[i] - s.xs[i] == 0.0;
  }

  lemma SlopeRise(xs: seq<real>, ys: seq<real>, i: nat)
    requires |xs| == |ys| && i + 1 < |xs| && StrictlyIncreasing(xs)
    ensures MeanSlope(xs, ys, i) * (xs[i+1] - xs[i]) == ys[i+1] - ys[i]
  {
  }

  // ---------- Monotonicity ----------

  lemma SlopeSign(xs: seq<real>, ys: seq<real>, i: nat)
    requires |xs| == |ys| && i + 1 < |xs| && StrictlyIncreasing(xs)
    ensures ys[i] <= ys[i+1] ==> MeanSlope(xs, ys, i) >= 0.0
    ensures ys[i] >= ys[i+1] ==> MeanSlope(xs, ys, i) <= 0.0
  {
    var dx, m := xs[i+1] - xs[i], MeanSlope(xs, ys, i);
    SlopeRise(xs, ys, i);
    if m < 0.0 {
      ProductPositive(-m, dx);
    } else if m > 0.0 {
      ProductPositive(m, dx);
    }
  }

  /** On monotone data both end tangents of every piece are within three times its mean slope. */
  lemma TangentsWithin3x(s: Spline, i: nat)
    requires IsInterpolant(s) && i < |s.xs| - 1
    ensures Within3x(s.c1s[i], MeanSlope(s.xs, s.ys, i))
    ensures Within3x(s.c1s[i+1], MeanSlope(s.xs, s.ys, i))
  {
    hide InteriorTangent, MeanSlope, Quadratic, CubicCoefficient;
    var m := MeanSlope(s.xs, s.ys, i);
    SlopeSign(s.xs, s.ys, i);
    if 0 < i {
      var mPrev := MeanSlope(s.xs, s.ys, i - 1);
      SlopeSign(s.xs, s.ys, i - 1);
      SameSignProduct(mPrev, m);
      TangentWithin3x(s.xs[i] - s.xs[i-1], s.xs[i+1] - s.xs[i], mPrev, m);
    }
    if i < |s.xs| - 2 {
      var mNext := MeanSlope(s.xs, s.ys, i + 1);
      SlopeSign(s.xs, s.ys, i + 1);
      SameSignProduct(m, mNext);
      TangentWithin3x(s.xs[i+1] - s.xs[i], s.xs[i+2] - s.xs[i+1], m, mNext);
    }
  }

  lemma SameSignProduct(a: real, b: real)
    requires (a >= 0.0 && b >= 0.0) || (a <= 0.0 && b <= 0.0)
    ensures a * b >= 0.0
  {
  }

  /** `a` does not come after `b` in the direction the data moves. */
  ghost predicate InOrder(up: bool, a: real, b: real) {
    if up then a <= b else a >= b
  }

  ghost predicate Moves(up: bool, ys: seq<real>) {
    if up then Nondecreasing(ys) else Nonincreasing(ys)
  }

  lemma MonotoneOnPiece(s: Spline, up: bool, i: nat, x: real, x': real)
    requires IsInterpolant(s) && Moves(up, s.ys) && i < |s.xs| - 1
    requires s.xs[i] <= x <= x' <= s.xs[i+1]
    ensures InOrder(up, s.ys[i], ForX(s, x))
    ensures InOrder(up, ForX(s, x), ForX(s, x'))
    ensures InOrder(up, ForX(s, x'), s.ys[i+1])
  {
    hide ForX, Cubic, Quadratic, CubicCoefficient, Tangent, MeanSlope, Within3x;
    OnPiece(s, i, x);
    OnPiece(s, i, x');
    var dx, m := s.xs[i+1] - s.xs[i], MeanSlope(s.xs, s.ys, i);
    SlopeRise(s.xs, s.ys, i);
    SlopeSign(s.xs, s.ys, i);
    TangentsWithin3x(s, i);
    PieceMonotone(s.ys[i], dx, m, s.c1s[i], s.c1s[i+1], x - s.xs[i], x' - s.xs[i]);
  }

  /** Inside the knots the curve is monotone. */
  lemma MonotoneInside(s: Spline, up: bool, x: real, x': real)
    requires IsInterpolant(s) && Moves(up, s.ys)
    requires s.xs[0] <= x <= x' <= s.xs[|s.xs|-1]
    ensures InOrder(up, s.ys[0], ForX(s, x))
    ensures InOrder(up, ForX(s, x), ForX(s, x'))
    ensures InOrder(up, ForX(s, x'), s.ys[|s.ys|-1])
  {
    hide ForX, Tangent, MeanSlope, Quadratic, CubicCoefficient, IntervalFrom, PieceOf;
    var i, j := PieceOf(s, x), PieceOf(s, x');
    MonotoneOnPiece(s, up, i, x, x);
    MonotoneOnPiece(s, up, j, x', x');
    assert InOrder(up, s.ys[0], s.ys[i]) && InOrder(up, s.ys[j+1], s.ys[|s.ys|-1]);
    if i == j {
      MonotoneOnPiece(s, up, i, x, x');
    } else if i < j {
      assert InOrder(up, s.ys[i+1], s.ys[j]);
    }
  }

  function PieceOf(s: Spline, x: real): (i: nat)
    requires IsInterpolant(s) && s.xs[0] <= x <= s.xs[|s.xs|-1]
    ensures i < |s.xs| - 1 && s.xs[i] <= x <= s.xs[i+1]
  {
    IntervalExists(x, s.xs, 0);
    var i := IntervalFrom(x, s.xs, 0).value;
    if i == |s.xs| - 1 then i - 1 else i
  }

  lemma TailValues(s: Spline, x: real)
    requires IsInterpolant(s)
    ensures x <= s.xs[0] ==> ForX(s, x) == s.ys[0] - s.firstSlope * (s.xs[0] - x)
    ensures var last := |s.xs| - 1;
      x >= s.xs[last] ==> ForX(s, x) == s.ys[last] + s.lastSlope * (x - s.xs[last])
  {
    hide Interpolate, MeanSlope, Tangent, Quadratic, CubicCoefficient;
    HitsKnot(s, 0);
    HitsKnot(s, |s.xs| - 1);
    assert s.xs[0] < s.xs[|s.xs| - 1];
    if x == s.xs[0] {
      assert s.xs[0] - x == 0.0;
    }
    if x == s.xs[|s.xs| - 1] {
      assert x - s.xs[|s.xs| - 1] == 0.0;
    }
  }

  lemma FirstTailMonotone(s: Spline, up: bool, x: real, x': real)
    requires IsInterpolant(s) && Moves(up, s.ys) && x <= x' <= s.xs[0]
    ensures InOrder(up, ForX(s, x), ForX(s, x')) && InOrder(up, ForX(s, x'), s.ys[0])
  {
    hide ForX, MeanSlope, Tangent, Quadratic, CubicCoefficient;
    SlopeSign(s.xs, s.ys, 0);
    TailValues(s, x);
    TailValues(s, x');
    LineOrder(!up, s.ys[0], -s.firstSlope, s.xs[0] - x', s.xs[0] - x, ForX(s, x'), ForX(s, x));
  }

  lemma LastTailMonotone(s: Spline, up: bool, x: real, x': real)
    requires IsInterpolant(s) && Moves(up, s.ys) && s.xs[|s.xs|-1] <= x <= x'
    ensures InOrder(up, ForX(s, x), ForX(s, x')) && InOrder(up, s.ys[|s.ys|-1], ForX(s, x))
  {
    hide ForX, MeanSlope, Tangent, Quadratic, CubicCoefficient;
    var n := |s.xs|;
    SlopeSign(s.xs, s.ys, n - 2);
    TailValues(s, x);
    TailValues(s, x');
    LineOrder(up, s.ys[n-1], s.lastSlope, x - s.xs[n-1], x' - s.xs[n-1], ForX(s, x), ForX(s, x'));
  }

  lemma LineOrder(up: bool, y0: real, m: real, d: real, e: real, f: real, g: real)
    requires 0.0 <= d <= e && InOrder(up, 0.0, m)
    requires f == y0 + m * d && g == y0 + m * e
    ensures InOrder(up, y0, f) && InOrder(up, f, g)
  {
    RiseSign(m, d);
    RiseSign(m, e - d);
    assert g - f == m * (e - d);
  }

  /**
   The promise of the file: on monotone data the whole curve, linear tails included, never turns back.
   */
  lemma Monotone(s: Spline, up: bool, x: real, x': real)
    requires IsInterpolant(s) && Moves(up, s.ys) && x <= x'
    ensures InOrder(up, ForX(s, x), ForX(s, x'))
  {
    hide ForX;
    var n := |s.xs|;
    var first, last := s.xs[0], s.xs[n-1];
    var a, b := if x < first then first else x, if x' > last then last else x';
    HitsKnot(s, 0);
    HitsKnot(s, n - 1);
    if x' <= first {
      FirstTailMonotone(s, up, x, x');
    } else if x >= last {
      LastTailMonotone(s, up, x, x');
    } else {
      if x < first { FirstTailMonotone(s, up, x, first); }
      MonotoneInside(s, up, a, b);
      if x' > last { LastTailMonotone(s, up, last, x'); }
    }
  }

  // ---------- Construction from raw points ----------

  function Points(xs: seq<real>, ys: seq<real>): (r: seq<(real, real)>)
    requires |xs| == |ys|
    ensures |r| == |xs|
    ensures forall i :: 0 <= i < |xs| ==> r[i] == (xs[i], ys[i])
  {
    seq(|xs|, i requires 0 <= i < |xs| => (xs[i], ys[i]))
  }

  function Positions(n: nat): (r: seq<nat>)
    ensures |r| == n && forall i :: 0 <= i < n ==> r[i] == i
  {
    seq(n, i requires 0 <= i < n => i)
  }

  method SortPoints(xs: seq<real>, ys: seq<real>) returns (sortedXs: seq<real>, sortedYs: seq<real>)
    requires |xs| == |ys|
    ensures |sortedXs| == |sortedYs| == |xs|
    ensures Nondecreasing(sortedXs)
    ensures multiset(Points(sortedXs, sortedYs)) == multiset(Points(xs, ys))
  {
    var key := (i: nat) => if i < |xs| then xs[i] else 0.0;
    var indexes := Sorting.SortBy(Positions(|xs|), key);
    InRange(indexes, |xs|);
    sortedXs, sortedYs := [], [];
    for i := 0 to |xs|
      invariant |sortedXs| == |sortedYs| == i
      invariant forall k :: 0 <= k < i ==> sortedXs[k] == xs[indexes[k]] && sortedYs[k] == ys[indexes[k]]
    {
      sortedXs := sortedXs + [xs[indexes[i]]];
      sortedYs := sortedYs + [ys[indexes[i]]];
    }
    forall i, j | 0 <= i < j < |sortedXs| ensures sortedXs[i] <= sortedXs[j] {
      assert key(indexes[i]) <= key(indexes[j]);
    }
    RearrangedPoints(xs, ys, indexes, sortedXs, sortedYs);
  }

  lemma InRange(indexes: seq<nat>, n: nat)
    requires multiset(indexes) == multiset(Positions(n))
    ensures |indexes| == n && forall i :: 0 <= i < n ==> indexes[i] < n
  {
    Sorting.SameElements(indexes, Positions(n));
    assert forall i :: 0 <= i < |indexes| ==> indexes[i] in indexes;
  }

  lemma RearrangedPoints(xs: seq<real>, ys: seq<real>, indexes: seq<nat>, sx: seq<real>, sy: seq<real>)
    requires |xs| == |ys| == |indexes| == |sx| == |sy|
    requires multiset(indexes) == multiset(Positions(|xs|))
    requires forall k :: 0 <= k < |xs| ==> indexes[k] < |xs| && sx[k] == xs[indexes[k]] && sy[k] == ys[indexes[k]]
    ensures multiset(Points(sx, sy)) == multiset(Points(xs, ys))
  {
    var point := (i: nat) => if i < |xs| then (xs[i], ys[i]) else (0.0, 0.0);
    Sorting.MapPreservesMultiset(point, indexes, Positions(|xs|));
    assert Points(sx, sy) == Sorting.Map(point, indexes);
    assert Points(xs, ys) == Sorting.Map(point, Positions(|xs|));
  }

  datatype Direction = Undefined | Increasing | Decreasing

  method IsMonotonic(ys: seq<real>) returns (r: bool)
    ensures r <==> Nondecreasing(ys) || Nonincreasing(ys)
  {
    if |ys| < 2 {
      return true;
    }
    var direction := Undefined;
    var previous := ys[0];
    for i := 1 to |ys|
      invariant previous == ys[i-1]
      invariant direction == Undefined ==> forall k :: 0 <= k < i ==> ys[k] == ys[0]
      invariant direction == Increasing ==> Nondecreasing(ys[..i]) && ys[0] < ys[i-1]
      invariant direction == Decreasing ==> Nonincreasing(ys[..i]) && ys[0] > ys[i-1]
    {
      var current := ys[i];
      if current > previous {
        if direction == Decreasing {
          return false;
        }
        direction := Increasing;
      } else if current < previous {
        if direction == Increasing {
          return false;
        }
        direction := Decreasing;
      }
      previous := current;
    }
    assert ys[..|ys|] == ys;
    return true;
  }

  /** Among the given points a larger argument never has a smaller (`up`) or larger (otherwise) value. */
  ghost predicate PointsMove(up: bool, xs: seq<real>, ys: seq<real>)
    requires |xs| == |ys|
  {
    forall i, j :: 0 <= i < |xs| && 0 <= j < |xs| && xs[i] < xs[j] ==> InOrder(up, ys[i], ys[j])
  }

  lemma IncreasingReflects(xs: seq<real>, p: nat, q: nat)
    requires StrictlyIncreasing(xs) && p < |xs| && q < |xs| && xs[p] < xs[q]
    ensures p < q
  {
  }

  lemma SortedPointsMove(up: bool, xs: seq<real>, ys: seq<real>, sx: seq<real>, sy: seq<real>)
    requires |xs| == |ys| == |sx| == |sy|
    requires multiset(Points(sx, sy)) == multiset(Points(xs, ys))
    requires StrictlyIncreasing(sx)
    ensures Moves(up, sy) <==> PointsMove(up, xs, ys)
  {
    Sorting.SameElements(Points(sx, sy), Points(xs, ys));
    if Moves(up, sy) {
      forall i, j | 0 <= i < |xs| && 0 <= j < |xs| && xs[i] < xs[j] ensures InOrder(up, ys[i], ys[j]) {
        var p := PointAt(sx, sy, xs, ys, i);
        var q := PointAt(sx, sy, xs, ys, j);
        IncreasingReflects(sx, p, q);
      }
    }
    if PointsMove(up, xs, ys) {
      forall i, j | 0 <= i < j < |sx| ensures InOrder(up, sy[i], sy[j]) {
        var p := PointAt(xs, ys, sx, sy, i);
        var q := PointAt(xs, ys, sx, sy, j);
        assert xs[p] < xs[q];
      }
    }
  }

  /** Where the k-th point of one arrangement sits in another. */
  lemma PointAt(xs: seq<real>, ys: seq<real>, xs': seq<real>, ys': seq<real>, k: nat) returns (p: nat)
    requires |xs| == |ys| == |xs'| == |ys'| && k < |xs|
    requires multiset(Points(xs, ys)) == multiset(Points(xs', ys'))
    ensures p < |xs| && xs[p] == xs'[k] && ys[p] == ys'[k]
  {
    Sorting.SameElements(Points(xs, ys), Points(xs', ys'));
    assert Points(xs', ys')[k] in Points(xs', ys');
    p := Sorting.IndexOf(Points(xs, ys), Points(xs', ys')[k]);
  }

  lemma SortedStrictly(xs: seq<real>, ys: seq<real>, sx: seq<real>, sy: seq<real>)
    requires |xs| == |ys| == |sx| == |sy|
    requires multiset(Points(sx, sy)) == multiset(Points(xs, ys))
    requires Sorting.Distinct(xs) && Nondecreasing(sx)
    ensures StrictlyIncreasing(sx)
  {
    var argument := (p: (real, real)) => p.0;
    Sorting.DistinctKeysSortStrictly(Points(xs, ys), Points(sx, sy), argument);
    forall i, j | 0 <= i < j < |sx| ensures sx[i] < sx[j] {
      assert argument(Points(sx, sy)[i]) < argument(Points(sx, sy)[j]);
    }
  }

  /**
   Builds the spline, or fails exactly on mismatched lengths, fewer than two points or points that are not
   monotone. The caller gives pairwise different arguments, since their differences are divisors. Whatever the order
   the points come in, the curve passes through each of them.
   */
  method CreateInterpolant(xs: seq<real>, ys: seq<real>) returns (r: Result<Spline>)
    requires Sorting.Distinct(xs)
    ensures r.Ok? <==> |xs| == |ys| >= 2 && (PointsMove(true, xs, ys) || PointsMove(false, xs, ys))
    ensures r.Ok? ==> IsInterpolant(r.value) && multiset(Points(r.value.xs, r.value.ys)) == multiset(Points(xs, ys))
    ensures r.Ok? ==> forall up :: Moves(up, r.value.ys) <==> PointsMove(up, xs, ys)
    ensures r.Ok? ==> forall k :: 0 <= k < |xs| ==> ForX(r.value, xs[k]) == ys[k]
  {
    if |xs| != |ys| {
      return Err("The number of xs and ys should be equal");
    }
    if |xs| == 0 {
      return Err("Empty array of xs");
    }
    if |xs| == 1 {
      return Err("Interpolation cannot be performed for a single point");
    }
    var sortedXs, sortedYs := SortPoints(xs, ys);
    SortedStrictly(xs, ys, sortedXs, sortedYs);
    SortedPointsMove(true, xs, ys, sortedXs, sortedYs);
    SortedPointsMove(false, xs, ys, sortedXs, sortedYs);
    var monotonic := IsMonotonic(sortedYs);
    if !monotonic {
      return Err("The given points are not monotonic");
    }
    var s := ComputeCoefficients(sortedXs, sortedYs);
    r := Ok(s);
    forall k | 0 <= k < |xs| ensures ForX(s, xs[k]) == ys[k] {
      var p := PointAt(sortedXs, sortedYs, xs, ys, k);
      HitsKnot(s, p);
    }
  }

  /** The loops of the construction over sorted, monotone points. */
  method ComputeCoefficients(xs: seq<real>, ys: seq<real>) returns (s: Spline)
    requires |xs| == |ys| >= 2 && StrictlyIncreasing(xs)
    requires Nondecreasing(ys) || Nonincreasing(ys)
    ensures IsInterpolant(s) && s.xs == xs && s.ys == ys
  {
    hide InteriorTangent, Quadratic, CubicCoefficient, MeanSlope, Tangent;
    var dxs, ms := ComputeSlopes(xs, ys);
    var c1s := ComputeTangents(xs, ys, dxs, ms);
    var c2s, c3s := ComputeHigherCoefficients(dxs, ms, c1s);
    s := Spline(xs, ys, c1s, c2s, c3s, ms[0], ms[|ms|-1]);
  }

  method ComputeHigherCoefficients(dxs: seq<real>, ms: seq<real>, c1s: seq<real>)
    returns (c2s: seq<real>, c3s: seq<real>)
    requires |dxs| == |ms| == |c1s| - 1 && forall k :: 0 <= k < |dxs| ==> dxs[k] > 0.0
    ensures |c2s| == |c3s| == |dxs|
    ensures forall k :: 0 <= k < |dxs| ==> c2s[k] == Quadratic(dxs[k], ms[k], c1s[k], c1s[k+1])
    ensures forall k :: 0 <= k < |dxs| ==> c3s[k] == CubicCoefficient(dxs[k], ms[k], c1s[k], c1s[k+1])
  {
    hide Quadratic, CubicCoefficient;
    c2s, c3s := [], [];
    for i := 0 to |dxs|
      invariant |c2s| == |c3s| == i
      invariant forall k :: 0 <= k < i ==> c2s[k] == Quadratic(dxs[k], ms[k], c1s[k], c1s[k+1])
      invariant forall k :: 0 <= k < i ==> c3s[k] == CubicCoefficient(dxs[k], ms[k], c1s[k], c1s[k+1])
    {
      c2s := c2s + [Quadratic(dxs[i], ms[i], c1s[i], c1s[i+1])];
      c3s := c3s + [CubicCoefficient(dxs[i], ms[i], c1s[i], c1s[i+1])];
    }
  }

  method ComputeSlopes(xs: seq<real>, ys: seq<real>) returns (dxs: seq<real>, ms: seq<real>)
    requires |xs| == |ys| >= 2 && StrictlyIncreasing(xs)
    ensures |dxs| == |ms| == |xs| - 1
    ensures forall k :: 0 <= k < |ms| ==> dxs[k] > 0.0
    ensures forall k :: 0 <= k < |ms| ==> dxs[k] == xs[k+1] - xs[k] && ms[k] == MeanSlope(xs, ys, k)
  {
    dxs, ms := [], [];
    for i := 0 to |xs| - 1
      invariant |dxs| == |ms| == i
      invariant forall k :: 0 <= k < i ==> dxs[k] > 0.0
      invariant forall k :: 0 <= k < i ==> dxs[k] == xs[k+1] - xs[k] && ms[k] == MeanSlope(xs, ys, k)
    {
      var dx := xs[i+1] - xs[i];
      var dy := ys[i+1] - ys[i];
      dxs := dxs + [dx];
      ms := ms + [dy / dx];
    }
  }

  method ComputeTangents(xs: seq<real>, ys: seq<real>, dxs: seq<real>, ms: seq<real>) returns (c1s: seq<real>)
    requires |xs| == |ys| >= 2 && StrictlyIncreasing(xs) && |dxs| == |ms| == |xs| - 1
    requires forall k :: 0 <= k < |ms| ==> dxs[k] > 0.0
    requires forall k :: 0 <= k < |ms| ==> dxs[k] == xs[k+1] - xs[k] && ms[k] == MeanSlope(xs, ys, k)
    ensures |c1s| == |xs| && forall k :: 0 <= k < |xs| ==> c1s[k] == Tangent(xs, ys, k)
  {
    hide InteriorTangent, MeanSlope;
    c1s := [ms[0]];
    for i := 0 to |dxs| - 1
      invariant |c1s| == i + 1
      invariant forall k :: 0 <= k <= i ==> c1s[k] == Tangent(xs, ys, k)
    {
      c1s := c1s + [InteriorTangent(dxs[i], dxs[i+1], ms[i], ms[i+1])];
    }
    c1s := c1s + [ms[|ms|-1]];
  }

  // ---------- Bisection for a value ----------

  /** Division by a zero slope gives a signed infinity in the source. */
  datatype Inverse = At(x: real) | MinusInfinity | PlusInfinity

  const MAX_TRIES := 50

  function Pow2(n: nat): (p: real)
    ensures p >= 1.0
  {
    if n == 0 then 1.0 else 2.0 * Pow2(n - 1)
  }

  function LowTailInverse(s: Spline, y: real): Inverse
    requires IsInterpolant(s)
  {
    if s.firstSlope == 0.0 then MinusInfinity else At(s.xs[0] - (s.ys[0] - y) / s.firstSlope)
  }

  function HighTailInverse(s: Spline, y: real): Inverse
    requires IsInterpolant(s)
  {
    if s.lastSlope == 0.0 then PlusInfinity
    else At(s.xs[|s.xs|-1] + (y - s.ys[|s.ys|-1]) / s.lastSlope)
  }

  /** The curve is at or below `y` at `low` and at or above it at `high`. */
  ghost predicate Brackets(s: Spline, y: real, low: real, high: real)
    requires IsInterpolant(s)
  {
    low <= high && ForX(s, low) <= y <= ForX(s, high)
  }

  /** `x` is close to the sought value, or is the midpoint of a bracket narrower than `precision`. */
  ghost predicate GoodEnough(s: Spline, y: real, precision: real, x: real)
    requires IsInterpolant(s)
  {
    || -precision < ForX(s, x) - y < precision
    || exists low, high :: Brackets(s, y, low, high) && high - low < precision && x == (low + high) / 2.0
  }

  method ForY(s: Spline, y: real, precision: real) returns (r: Result<Inverse>)
    requires IsInterpolant(s)
    ensures y < s.ys[0] ==> r == Ok(LowTailInverse(s, y))
    ensures y >= s.ys[0] && y > s.ys[|s.ys|-1] ==> r == Ok(HighTailInverse(s, y))
    ensures s.ys[0] <= y <= s.ys[|s.ys|-1] && r.Ok? ==>
      r.value.At? && (ForX(s, r.value.x) == y || GoodEnough(s, y, precision, r.value.x))
    ensures r.Err? ==> exists i :: 0 <= i < |s.xs| - 1 && TooWide(s, y, precision, i)
  {
    hide ForX, MeanSlope, Tangent, Quadratic, CubicCoefficient, GoodEnough, Pow2, IntervalFrom;
    var n := |s.xs|;
    if y < s.ys[0] {
      return Ok(LowTailInverse(s, y));
    } else if y > s.ys[n-1] {
      return Ok(HighTailInverse(s, y));
    }
    IntervalExists(y, s.ys, 0);
    var found := FindIntervalIndex(y, s.ys);
    var i := found.value;
    HitsKnot(s, i);
    if y == s.ys[i] {
      return Ok(At(s.xs[i]));
    }
    HitsKnot(s, i + 1);
    var x := Bisect(s, y, precision, s.xs[i], s.xs[i+1]);
    match x {
      case Some(mid) => return Ok(At(mid));
      case None =>
        assert TooWide(s, y, precision, i);
        return Err("X was not found");
    }
  }

  /** The only intervals on which the search can run out of tries. */
  ghost predicate TooWide(s: Spline, y: real, precision: real, i: nat)
    requires IsInterpolant(s) && i < |s.xs| - 1
  {
    s.ys[i] < y < s.ys[i+1] && s.xs[i+1] - s.xs[i] >= precision * 562949953421312.0
  }

  lemma FiftyTries()
    ensures Pow2(MAX_TRIES - 1) == 562949953421312.0
  {
    SevenMore(0);
    SevenMore(7);
    SevenMore(14);
    SevenMore(21);
    SevenMore(28);
    SevenMore(35);
    SevenMore(42);
  }

  lemma SevenMore(n: nat)
    ensures Pow2(n + 7) == 128.0 * Pow2(n)
  {
    assert Pow2(n + 1) == 2.0 * Pow2(n) && Pow2(n + 2) == 2.0 * Pow2(n + 1) && Pow2(n + 3) == 2.0 * Pow2(n + 2);
    assert Pow2(n + 4) == 2.0 * Pow2(n + 3) && Pow2(n + 5) == 2.0 * Pow2(n + 4) && Pow2(n + 6) == 2.0 * Pow2(n + 5);
  }

  /** The search loop of `ForY`, from a bracket of the value. */
  method Bisect(s: Spline, y: real, precision: real, start: real, end: real) returns (r: Option<real>)
    requires IsInterpolant(s) && Brackets(s, y, start, end)
    ensures r.Some? ==> start <= r.value <= end && GoodEnough(s, y, precision, r.value)
    ensures r.None? ==> end - start >= precision * 562949953421312.0
  {
    hide ForX, MeanSlope, Tangent, Quadratic, CubicCoefficient, IsInterpolant;
    var lowX, highX := start, end;
    var tries := MAX_TRIES;
    while lowX <= highX && tries > 0
      invariant 0 <= tries <= MAX_TRIES
      invariant start <= lowX && highX <= end && Brackets(s, y, lowX, highX)
      invariant highX - lowX == Halved(end - start, MAX_TRIES - tries)
      invariant tries < MAX_TRIES ==> Halved(end - start, MAX_TRIES - tries - 1) >= precision
      decreases tries
    {
      var midX := (lowX + highX) / 2.0;
      if highX - lowX < precision {
        return Some(midX);
      }
      var midY := ForX(s, midX);
      if -precision < midY - y < precision {
        return Some(midX);
      }
      if midY < y {
        lowX := midX;
      } else {
        highX := midX;
      }
      tries := tries - 1;
    }
    FiftyTries();
    HalvedBack(end - start, precision, MAX_TRIES - 1, Pow2(MAX_TRIES - 1));
    return None;
  }

  function Halved(width: real, n: nat): real {
    if n == 0 then width else Halved(width, n - 1) / 2.0
  }

  lemma {:induction false} HalvedBack(width: real, precision: real, n: nat, power: real)
    requires Halved(width, n) >= precision && power == Pow2(n)
    ensures width >= precision * power
    decreases n
  {
    if n > 0 {
      HalvedBack(width, 2.0 * precision, n - 1, Pow2(n - 1));
      assert 2.0 * precision * Pow2(n - 1) == precision * power;
    }
  }

  lemma HighTailExact(s: Spline, y: real, d: real, last: real, x: real)
    requires IsInterpolant(s) && last == s.xs[|s.xs|-1] && x == last + d
    requires d >= 0.0 && d * s.lastSlope == y - s.ys[|s.ys|-1]
    ensures ForX(s, x) == y
  {
    hide ForX, Tangent, Quadratic, CubicCoefficient, MeanSlope;
    TailValues(s, x);
    assert x >= last && ForX(s, x) == s.ys[|s.ys|-1] + s.lastSlope * (x - last);
    hide *;
    SameProduct(s.lastSlope, d, s.lastSlope, x - last);
  }

  lemma LowTailExact(s: Spline, y: real, d: real, first: real, x: real)
    requires IsInterpolant(s) && first == s.xs[0] && x == first - d
    requires d >= 0.0 && d * s.firstSlope == s.ys[0] - y
    ensures ForX(s, x) == y
  {
    hide *;
    TailValues(s, x);
    SameProduct(s.firstSlope, d, s.firstSlope, first - x);
  }

  /** On non-decreasing data a tail answer is exact, and an infinite answer means the value is never reached. */
  lemma TailInverseExact(s: Spline, y: real)
    requires IsInterpolant(s) && Nondecreasing(s.ys)
    ensures y < s.ys[0] ==>
      match LowTailInverse(s, y)
      case At(x) => ForX(s, x) == y
      case _ => forall x :: ForX(s, x) > y
    ensures y > s.ys[|s.ys|-1] ==>
      match HighTailInverse(s, y)
      case At(x) => ForX(s, x) == y
      case _ => forall x :: ForX(s, x) < y
  {
    hide ForX, MeanSlope, Tangent, Quadratic, CubicCoefficient;
    var n := |s.xs|;
    SlopeSign(s.xs, s.ys, 0);
    SlopeSign(s.xs, s.ys, n - 2);
    if y < s.ys[0] {
      if s.firstSlope == 0.0 {
        forall x ensures ForX(s, x) > y {
          TailValues(s, x);
          HitsKnot(s, 0);
          if x > s.xs[0] { Monotone(s, true, s.xs[0], x); }
        }
      } else {
        var d := (s.ys[0] - y) / s.firstSlope;
        assert d * s.firstSlope == s.ys[0] - y;
        PositiveQuotient(s.ys[0] - y, s.firstSlope);
        LowTailExact(s, y, d, s.xs[0], s.xs[0] - d);
      }
    }
    if y > s.ys[n-1] {
      if s.lastSlope == 0.0 {
        forall x ensures ForX(s, x) < y {
          TailValues(s, x);
          HitsKnot(s, n - 1);
          if x < s.xs[n-1] { Monotone(s, true, x, s.xs[n-1]); }
        }
      } else {
        var d := (y - s.ys[n-1]) / s.lastSlope;
        assert d * s.lastSlope == y - s.ys[n-1];
        PositiveQuotient(y - s.ys[n-1], s.lastSlope);
        HighTailExact(s, y, d, s.xs[n-1], s.xs[n-1] + d);
      }
    }
  }

  lemma PositiveQuotient(w: real, m: real)
    requires w > 0.0 && m > 0.0
    ensures w / m > 0.0
  {
    QuotientSign(w, m);
  }

  /**
   The bisection serves non-decreasing data only: on this decreasing curve the value 0 of the last knot (argument 2)
   is answered from the first tail with argument 20, where the curve is far below 0.
   */
  lemma DecreasingDataMisanswered(s: Spline)
    requires IsInterpolant(s) && s.xs == [0.0, 1.0, 2.0] && s.ys == [2.0, 1.9, 0.0]
    ensures 0.0 < s.ys[0] && LowTailInverse(s, 0.0) == At(20.0)
    ensures ForX(s, 2.0) == 0.0 && ForX(s, 20.0) < -30.0
  {
    hide ForX, Tangent, Quadratic, CubicCoefficient;
    assert s.firstSlope == -0.1 && s.lastSlope == -1.9;
    assert 2.0 / -0.1 == -20.0;
    HitsKnot(s, 2);
    TailValues(s, 20.0);
  }
}
