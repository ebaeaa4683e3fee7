/** Choice of the packages whose values are closest to the median over all packages of a feed. */
module ClosestToMedian {
  import opened Outcomes
  import opened WeightedMedian
  import Sorting

  type FeedId = string
  type Signer = string

  /** A received package: its id, timestamp, recovered signer and data points. */
  datatype SignedData = SignedData(feed: FeedId, timestamp: int, signer: Signer, points: seq<(FeedId, real)>)

  // ---------- Values and medians per data point ----------

  function ValuesInPoints(points: seq<(FeedId, real)>, feed: FeedId): seq<real> {
    if points == [] then []
    else
      var last := points[|points|-1];
      ValuesInPoints(points[..|points|-1], feed) + if last.0 == feed then [last.1] else []
  }

  /** All values reported for `feed`, in order of arrival. */
  function ValuesOf(packages: seq<SignedData>, feed: FeedId): seq<real> {
    if packages == [] then []
    else ValuesOf(packages[..|packages|-1], feed) + ValuesInPoints(packages[|packages|-1].points, feed)
  }

  /** Values grouped by feed, as the two nested loops collect them. */
  method GetAllValues(packages: seq<SignedData>) returns (allValues: map<FeedId, seq<real>>)
    ensures forall f :: f in allValues <==> ValuesOf(packages, f) != []
    ensures forall f :: f in allValues ==> allValues[f] == ValuesOf(packages, f)
  {
    allValues := map[];
    for i := 0 to |packages|
      invariant forall f :: Lookup(allValues, f) == ValuesOf(packages[..i], f)
      invariant forall f :: f in allValues ==> allValues[f] != []
    {
      allValues := AddValues(allValues, packages[i].points);
      assert packages[..i+1][..i] == packages[..i];
    }
    assert packages[..|packages|] == packages;
    assert forall f :: f in allValues <==> Lookup(allValues, f) != [];
  }

  method AddValues(before: map<FeedId, seq<real>>, points: seq<(FeedId, real)>)
    returns (allValues: map<FeedId, seq<real>>)
    requires forall f :: f in before ==> before[f] != []
    ensures forall f :: Lookup(allValues, f) == Lookup(before, f) + ValuesInPoints(points, f)
    ensures forall f :: f in allValues ==> allValues[f] != []
  {
    hide ValuesInPoints;
    allValues := before;
    NoValues(points);
    for j := 0 to |points|
      invariant forall f :: Lookup(allValues, f) == Lookup(before, f) + ValuesInPoints(points[..j], f)
      invariant forall f :: f in allValues ==> allValues[f] != []
    {
      var (feed, value) := points[j];
      StoreNext(before, allValues, points, j);
      allValues := allValues[feed := Lookup(allValues, feed) + [value]];
    }
    assert points[..|points|] == points;
  }

  lemma StoreNext(before: map<FeedId, seq<real>>, now: map<FeedId, seq<real>>, points: seq<(FeedId, real)>, j: nat)
    requires j < |points|
    requires forall f :: Lookup(now, f) == Lookup(before, f) + ValuesInPoints(points[..j], f)
    ensures var next := now[points[j].0 := Lookup(now, points[j].0) + [points[j].1]];
      forall f :: Lookup(next, f) == Lookup(before, f) + ValuesInPoints(points[..j+1], f)
  {
    hide ValuesInPoints;
    var next := now[points[j].0 := Lookup(now, points[j].0) + [points[j].1]];
    forall f ensures Lookup(next, f) == Lookup(before, f) + ValuesInPoints(points[..j+1], f) {
      NextValue(points, j, f);
      assert Lookup(now, f) == Lookup(before, f) + ValuesInPoints(points[..j], f);
    }
  }

  lemma NoValues(points: seq<(FeedId, real)>)
    ensures forall f :: ValuesInPoints(points[..0], f) == []
  {
  }

  lemma NextValue(points: seq<(FeedId, real)>, j: nat, f: FeedId)
    requires j < |points|
    ensures ValuesInPoints(points[..j+1], f)
      == ValuesInPoints(points[..j], f) + if points[j].0 == f then [points[j].1] else []
  {
    assert points[..j+1][..j] == points[..j];
  }

  function Lookup(m: map<FeedId, seq<real>>, feed: FeedId): seq<real> {
    if feed in m then m[feed] else []
  }

  /** A package can be measured against the others when none of its medians is the divisor zero. */
  predicate Measurable(packages: seq<SignedData>, p: SignedData) {
    forall i :: 0 <= i < |p.points| ==>
      ValuesOf(packages, p.points[i].0) != [] && MedianOf(ValuesOf(packages, p.points[i].0)) != 0.0
  }

  function Abs(x: real): real {
    if x < 0.0 then -x else x
  }

  function Distance(value: real, median: real): real
    requires median != 0.0
  {
    Abs(value - median) / median
  }

  /** Relative distance of the i-th point of `p` from its median. */
  function PointDistance(packages: seq<SignedData>, p: SignedData, i: nat): real
    requires Measurable(packages, p) && i < |p.points|
  {
    Distance(p.points[i].1, MedianOf(ValuesOf(packages, p.points[i].0)))
  }

  /** Largest relative distance of the first `n` points from their medians, never below zero. */
  function MaxDistance(packages: seq<SignedData>, p: SignedData, n: nat): real
    requires Measurable(packages, p) && n <= |p.points|
  {
    if n == 0 then 0.0
    else
      var previous, current := MaxDistance(packages, p, n - 1), PointDistance(packages, p, n - 1);
      if current > previous then current else previous
  }

  lemma {:induction false} MaxDistanceIsGreatest(packages: seq<SignedData>, p: SignedData, n: nat)
    requires Measurable(packages, p) && n <= |p.points|
    ensures var d := MaxDistance(packages, p, n);
      && d >= 0.0 && (forall i :: 0 <= i < n ==> PointDistance(packages, p, i) <= d)
      && (d == 0.0 || exists i :: 0 <= i < n && PointDistance(packages, p, i) == d)
  {
    hide PointDistance, Measurable;
    if n > 0 {
      MaxDistanceIsGreatest(packages, p, n - 1);
    }
  }

  method GetMaxDistanceFromMedian(packages: seq<SignedData>, p: SignedData) returns (r: Result<real>)
    requires p in packages
    ensures r.Ok? <==> Measurable(packages, p)
    ensures r.Ok? ==> r.value == MaxDistance(packages, p, |p.points|)
  {
    hide MedianOf, Distance, ValuesOf;
    var maxDistance := 0.0;
    for i := 0 to |p.points|
      invariant forall k :: 0 <= k < i ==>
        ValuesOf(packages, p.points[k].0) != [] && MedianOf(ValuesOf(packages, p.points[k].0)) != 0.0
      invariant Measurable(packages, p) ==> maxDistance == MaxDistance(packages, p, i)
    {
      ValuesIncludeOwn(packages, p, i);
      var median := MedianOf(ValuesOf(packages, p.points[i].0));
      if median == 0.0 {
        return Err("Invalid number format: number is not finite");
      }
      var distance := Distance(p.points[i].1, median);
      maxDistance := if distance > maxDistance then distance else maxDistance;
    }
    return Ok(maxDistance);
  }

  lemma ValuesIncludeOwn(packages: seq<SignedData>, p: SignedData, i: nat)
    requires p in packages && i < |p.points|
    ensures ValuesOf(packages, p.points[i].0) != []
  {
    var n := |packages| - 1;
    if packages[n] == p {
      PointsIncludeOwn(p.points, i);
    } else {
      assert p in packages[..n];
      ValuesIncludeOwn(packages[..n], p, i);
    }
  }

  lemma PointsIncludeOwn(points: seq<(FeedId, real)>, i: nat)
    requires i < |points|
    ensures ValuesInPoints(points, points[i].0) != []
  {
    var n := |points| - 1;
    if i < n {
      PointsIncludeOwn(points[..n], i);
      assert points[..n][i] == points[i];
    }
  }

  // ---------- The choice ----------

  predicate AllMeasurable(packages: seq<SignedData>) {
    forall i :: 0 <= i < |packages| ==> Measurable(packages, packages[i])
  }

  function Diff(packages: seq<SignedData>, p: SignedData): real {
    if Measurable(packages, p) then MaxDistance(packages, p, |p.points|) else 0.0
  }

  function Take<T>(s: seq<T>, count: nat): seq<T> {
    if count < |s| then s[..count] else s
  }

  function PickClosest(packages: seq<SignedData>, count: nat): Result<seq<SignedData>> {
    if !AllMeasurable(packages) then Err("Invalid number format: number is not finite")
    else Ok(Take(Sorting.SortBy(packages, p => Diff(packages, p)), count))
  }

  /** `kept` is a choice of `count` packages such that nothing left out is strictly closer than something kept. */
  ghost predicate ClosestChoice(packages: seq<SignedData>, kept: seq<SignedData>, count: nat) {
    && |kept| == (if count < |packages| then count else |packages|)
    && multiset(kept) <= multiset(packages)
    && forall k, d :: k in kept && d in multiset(packages) - multiset(kept) ==> Diff(packages, k) <= Diff(packages, d)
  }

  lemma PickedAreClosest(packages: seq<SignedData>, count: nat)
    requires AllMeasurable(packages)
    ensures PickClosest(packages, count).Ok?
    ensures ClosestChoice(packages, PickClosest(packages, count).value, count)
    ensures forall p :: p in PickClosest(packages, count).value ==> p in packages
  {
    hide Diff, AllMeasurable, Sorting.SortBy;
    var key := p => Diff(packages, p);
    var sorted := Sorting.SortBy(packages, key);
    var kept := Take(sorted, count);
    assert kept == sorted[..|kept|] && sorted == kept + sorted[|kept|..];
    forall k, d | k in multiset(kept) && d in multiset(packages) - multiset(kept)
      ensures Diff(packages, k) <= Diff(packages, d)
    {
      Sorting.FrontIsLeast(sorted, |kept|, key, k, d);
    }
    assert forall p :: p in kept ==> p in multiset(kept);
  }

  // ---------- Nearness proper, and the sign of the medians ----------

  /** Every median of the feeds that `p` reports has the given sign. */
  predicate MediansHaveSign(packages: seq<SignedData>, p: SignedData, positive: bool) {
    Measurable(packages, p) && forall i :: 0 <= i < |p.points| ==>
      if positive then MedianOf(ValuesOf(packages, p.points[i].0)) > 0.0
      else MedianOf(ValuesOf(packages, p.points[i].0)) < 0.0
  }

  /** Largest distance of the first `n` points from their medians, relative to the size of the median. */
  function MaxNearness(packages: seq<SignedData>, p: SignedData, n: nat): real
    requires Measurable(packages, p) && n <= |p.points|
  {
    if n == 0 then 0.0
    else
      var median := MedianOf(ValuesOf(packages, p.points[n-1].0));
      var previous, current := MaxNearness(packages, p, n - 1), Abs(p.points[n-1].1 - median) / Abs(median);
      if current > previous then current else previous
  }

  lemma {:induction false} SignDecidesDistance(packages: seq<SignedData>, p: SignedData, positive: bool, n: nat)
    requires MediansHaveSign(packages, p, positive) && n <= |p.points|
    ensures MaxDistance(packages, p, n) == if positive then MaxNearness(packages, p, n) else 0.0
  {
    hide MedianOf, ValuesOf;
    if n > 0 {
      SignDecidesDistance(packages, p, positive, n - 1);
      if !positive {
        NegativeQuotient(Abs(p.points[n-1].1 - MedianOf(ValuesOf(packages, p.points[n-1].0))),
                         MedianOf(ValuesOf(packages, p.points[n-1].0)));
      }
    }
  }

  lemma NegativeQuotient(a: real, m: real)
    requires a >= 0.0 && m < 0.0
    ensures a / m <= 0.0
  {
  }

  lemma NearnessIsDiff(packages: seq<SignedData>, p: SignedData)
    requires (forall i :: 0 <= i < |packages| ==> MediansHaveSign(packages, packages[i], true)) && p in packages
    ensures Measurable(packages, p) && Diff(packages, p) == MaxNearness(packages, p, |p.points|)
  {
    hide MaxDistance, MaxNearness;
    var i := Sorting.IndexOf(packages, p);
    assert MediansHaveSign(packages, packages[i], true);
    SignDecidesDistance(packages, p, true, |p.points|);
  }

  lemma KeptIsCloser(packages: seq<SignedData>, kept: seq<SignedData>, count: nat, k: SignedData, d: SignedData)
    requires ClosestChoice(packages, kept, count) && k in kept && d in multiset(packages) - multiset(kept)
    ensures Diff(packages, k) <= Diff(packages, d)
  {
  }

  /** With positive medians nothing left out is nearer to its medians than something kept. */
  lemma PositiveMediansKeepNearest(packages: seq<SignedData>, count: nat, k: SignedData, d: SignedData)
    requires forall i :: 0 <= i < |packages| ==> MediansHaveSign(packages, packages[i], true)
    requires AllMeasurable(packages) && k in PickClosest(packages, count).value
    requires d in multiset(packages) - multiset(PickClosest(packages, count).value)
    ensures k in packages && d in packages && Measurable(packages, k) && Measurable(packages, d)
    ensures MaxNearness(packages, k, |k.points|) <= MaxNearness(packages, d, |d.points|)
  {
    hide PickClosest, MediansHaveSign, Measurable, MaxDistance, MaxNearness, AllMeasurable, ClosestChoice;
    PickedAreClosest(packages, count);
    var kept := PickClosest(packages, count).value;
    assert d in multiset(packages);
    NearnessIsDiff(packages, k);
    NearnessIsDiff(packages, d);
    KeptIsCloser(packages, kept, count, k, d);
  }

  /**
   The distance is divided by the signed median, so with negative medians every package counts as equally close and
   the choice is simply the first `count` to arrive.
   */
  lemma NegativeMediansPickFirst(packages: seq<SignedData>, count: nat)
    requires forall i :: 0 <= i < |packages| ==> MediansHaveSign(packages, packages[i], false)
    ensures PickClosest(packages, count) == Ok(Take(packages, count))
  {
    hide MaxDistance, ValuesOf, MedianOf;
    forall i | 0 <= i < |packages| ensures Diff(packages, packages[i]) == 0.0 {
      assert MediansHaveSign(packages, packages[i], false);
      SignDecidesDistance(packages, packages[i], false, |packages[i].points|);
    }
    hide Diff;
    Sorting.EqualKeysStay(packages, p => Diff(packages, p), 0.0);
  }

  /** With three negative values the nearest, the median itself, is left out when it comes last. */
  lemma NegativeMedianDropsNearest(a: SignedData, b: SignedData, c: SignedData, low: real, mid: real, high: real)
    requires low < mid < high < 0.0
    requires a.points == [("X", high)] && b.points == [("X", low)] && c.points == [("X", mid)]
    ensures MedianOf(ValuesOf([a, b, c], "X")) == mid
    ensures PickClosest([a, b, c], 2) == Ok([a, b])
  {
    hide ValuesOf, MedianOf, PickClosest, MediansHaveSign;
    ThreeValues(a, b, c, low, mid, high);
    MedianOfThree(low, mid, high);
    var packages := [a, b, c];
    OnePointNegative(packages, a);
    OnePointNegative(packages, b);
    OnePointNegative(packages, c);
    NegativeMediansPickFirst(packages, 2);
    assert Take(packages, 2) == [a, b];
  }

  lemma OnePointNegative(packages: seq<SignedData>, p: SignedData)
    requires |p.points| == 1 && p.points[0].0 == "X"
    requires ValuesOf(packages, "X") != [] && MedianOf(ValuesOf(packages, "X")) < 0.0
    ensures MediansHaveSign(packages, p, false)
  {
    hide ValuesOf, MedianOf;
  }

  lemma OneValue(front: seq<SignedData>, p: SignedData, v: real)
    requires p.points == [("X", v)]
    ensures ValuesOf(front + [p], "X") == ValuesOf(front, "X") + [v]
  {
    assert (front + [p])[..|front|] == front;
    assert p.points[..0] == [];
    assert ValuesInPoints(p.points, "X") == [] + [v];
  }

  lemma ThreeValues(a: SignedData, b: SignedData, c: SignedData, low: real, mid: real, high: real)
    requires a.points == [("X", high)] && b.points == [("X", low)] && c.points == [("X", mid)]
    ensures ValuesOf([a, b, c], "X") == [high, low, mid]
  {
    hide ValuesOf;
    NextValueOf([], [], a, high);
    assert [] + [a] == [a] && [] + [high] == [high];
    NextValueOf([a], [high], b, low);
    assert [a] + [b] == [a, b] && [high] + [low] == [high, low];
    NextValueOf([a, b], [high, low], c, mid);
    assert [a, b] + [c] == [a, b, c] && [high, low] + [mid] == [high, low, mid];
  }

  lemma NextValueOf(front: seq<SignedData>, values: seq<real>, p: SignedData, v: real)
    requires p.points == [("X", v)] && (front == [] || ValuesOf(front, "X") == values) && (front == [] ==> values == [])
    ensures ValuesOf(front + [p], "X") == values + [v]
  {
    OneValue(front, p, v);
  }

  lemma MedianOfThree(low: real, mid: real, high: real)
    requires low < mid < high
    ensures MedianOf([high, low, mid]) == mid
  {
  }

  ghost predicate DistinctSigners(packages: seq<SignedData>) {
    forall i, j :: 0 <= i < j < |packages| ==> packages[i].signer != packages[j].signer
  }

  /** Choosing never introduces a second package of the same signer. */
  lemma ChoiceKeepsSignersDistinct(packages: seq<SignedData>, count: nat)
    requires AllMeasurable(packages) && DistinctSigners(packages)
    ensures DistinctSigners(PickClosest(packages, count).value)
  {
    hide Diff;
    var sorted := Sorting.SortBy(packages, p => Diff(packages, p));
    var signer := (p: SignedData) => p.signer;
    forall i, j | 0 <= i < j < |sorted| ensures sorted[i].signer != sorted[j].signer {
      if sorted[i].signer == sorted[j].signer {
        Sorting.ClashCarriesOver(packages, sorted, signer, i, j);
      }
    }
  }
}
