/** When the choice of packages keeps the ones nearest to their medians, whatever the order they arrive in. */
module NearestChoice {
  import opened WeightedMedian
  import opened ClosestToMedian
  import Sorting

  // ---------- Distances do not depend on the order of arrival ----------

  lemma {:induction false} ValuesConcat(a: seq<SignedData>, b: seq<SignedData>, feed: FeedId)
    ensures ValuesOf(a + b, feed) == ValuesOf(a, feed) + ValuesOf(b, feed)
  {
    hide ValuesInPoints;
    if b == [] {
      assert a + b == a;
    } else {
      var front := b[..|b|-1];
      ValuesConcat(a, front, feed);
      assert (a + b)[..|a + b|-1] == a + front;
    }
  }

  lemma ValuesRemoveAt(packages: seq<SignedData>, i: nat, feed: FeedId)
    requires i < |packages|
    ensures multiset(ValuesOf(packages, feed))
      == multiset(ValuesOf(Sorting.RemoveAt(packages, i), feed)) + multiset(ValuesInPoints(packages[i].points, feed))
  {
    var before, p, after := packages[..i], packages[i], packages[i+1..];
    assert ValuesOf([p], feed) == ValuesInPoints(p.points, feed) by {
      assert [p][..0] == [];
    }
    hide ValuesOf;
    assert packages == before + [p] + after;
    ValuesConcat(before + [p], after, feed);
    ValuesConcat(before, [p], feed);
    ValuesConcat(before, after, feed);
  }

  lemma {:induction false} ValuesRearranged(packages: seq<SignedData>, other: seq<SignedData>, feed: FeedId)
    requires multiset(packages) == multiset(other)
    ensures multiset(ValuesOf(packages, feed)) == multiset(ValuesOf(other, feed))
    decreases |packages|
  {
    Sorting.SameElements(packages, other);
    if packages != [] {
      hide ValuesOf;
      assert packages[0] in packages;
      var i := Sorting.IndexOf(other, packages[0]);
      ValuesRemoveAt(packages, 0, feed);
      ValuesRemoveAt(other, i, feed);
      ValuesRearranged(Sorting.RemoveAt(packages, 0), Sorting.RemoveAt(other, i), feed);
    }
  }

  /** The plain median is the same for every order of the numbers. */
  lemma PlainMedianRearranged(numbers: seq<real>, other: seq<real>)
    requires numbers != [] && multiset(numbers) == multiset(other)
    ensures other != [] && MedianOf(numbers) == MedianOf(other)
  {
    hide MedianOf, IsWeightedMedian;
    Sorting.SameElements(numbers, other);
    Sorting.MapPreservesMultiset((x: real) => Weighted(x, 1.0), numbers, other);
    MedianIsUnitWeighted(numbers);
    MedianIsUnitWeighted(other);
    MedianRearranged(UnitWeights(numbers), UnitWeights(other), MedianOf(numbers));
    MedianUnique(UnitWeights(other), MedianOf(numbers), MedianOf(other));
  }

  lemma SameMedian(packages: seq<SignedData>, other: seq<SignedData>, feed: FeedId)
    requires multiset(packages) == multiset(other)
    ensures ValuesOf(packages, feed) == [] <==> ValuesOf(other, feed) == []
    ensures ValuesOf(packages, feed) != [] ==> MedianOf(ValuesOf(packages, feed)) == MedianOf(ValuesOf(other, feed))
  {
    hide MedianOf, ValuesOf;
    ValuesRearranged(packages, other, feed);
    Sorting.SameElements(ValuesOf(packages, feed), ValuesOf(other, feed));
    if ValuesOf(packages, feed) != [] {
      PlainMedianRearranged(ValuesOf(packages, feed), ValuesOf(other, feed));
    }
  }

  lemma SameMeasurable(packages: seq<SignedData>, other: seq<SignedData>, p: SignedData)
    requires multiset(packages) == multiset(other)
    ensures Measurable(packages, p) <==> Measurable(other, p)
  {
    hide MedianOf, ValuesOf;
    forall i | 0 <= i < |p.points|
      ensures ValuesOf(packages, p.points[i].0) == [] <==> ValuesOf(other, p.points[i].0) == []
      ensures ValuesOf(packages, p.points[i].0) != [] ==>
        MedianOf(ValuesOf(packages, p.points[i].0)) == MedianOf(ValuesOf(other, p.points[i].0))
    {
      SameMedian(packages, other, p.points[i].0);
    }
  }

  lemma {:induction false} SameDistances(packages: seq<SignedData>, other: seq<SignedData>, p: SignedData, n: nat)
    requires multiset(packages) == multiset(other) && Measurable(packages, p) && Measurable(other, p) && n <= |p.points|
    ensures MaxDistance(packages, p, n) == MaxDistance(other, p, n)
    ensures MaxNearness(packages, p, n) == MaxNearness(other, p, n)
  {
    hide MedianOf, ValuesOf;
    if n > 0 {
      SameDistances(packages, other, p, n - 1);
      SameMedian(packages, other, p.points[n-1].0);
    }
  }

  /** Distance of a package from its medians, each relative to the size of the median. */
  function Nearness(packages: seq<SignedData>, p: SignedData): real {
    if Measurable(packages, p) then MaxNearness(packages, p, |p.points|) else 0.0
  }

  lemma SameOrder(packages: seq<SignedData>, other: seq<SignedData>, p: SignedData)
    requires multiset(packages) == multiset(other)
    ensures Diff(packages, p) == Diff(other, p) && Nearness(packages, p) == Nearness(other, p)
  {
    hide Measurable, MaxDistance, MaxNearness;
    SameMeasurable(packages, other, p);
    if Measurable(packages, p) {
      SameDistances(packages, other, p, |p.points|);
    }
  }

  lemma AllMeasurableRearranged(packages: seq<SignedData>, other: seq<SignedData>)
    requires multiset(packages) == multiset(other) && AllMeasurable(packages)
    ensures AllMeasurable(other)
  {
    hide Measurable;
    Sorting.SameElements(packages, other);
    forall i | 0 <= i < |other| ensures Measurable(other, other[i]) {
      assert other[i] in packages;
      SameMeasurable(packages, other, other[i]);
    }
  }

  // ---------- The exact condition ----------

  /** Nothing left out is nearer to its medians than something kept. */
  ghost predicate KeepsNearest(packages: seq<SignedData>, count: nat)
    requires AllMeasurable(packages)
  {
    var kept := PickClosest(packages, count).Extract();
    forall k, d :: k in kept && d in multiset(packages) - multiset(kept) ==>
      Nearness(packages, k) <= Nearness(packages, d)
  }

  ghost predicate EveryOrderKeepsNearest(packages: seq<SignedData>, count: nat)
    requires AllMeasurable(packages)
  {
    forall other :: multiset(packages) == multiset(other) ==> AllMeasurable(other) && KeepsNearest(other, count)
  }

  function Closer(packages: seq<SignedData>, k: SignedData): nat {
    Sorting.CountKey(packages, p => Diff(packages, p), Diff(packages, k), false)
  }

  function AsClose(packages: seq<SignedData>, d: SignedData): nat {
    Sorting.CountKey(packages, p => Diff(packages, p), Diff(packages, d), true)
  }

  /** Some order keeps `k` and leaves `d` out. */
  predicate MayLose(packages: seq<SignedData>, count: nat, k: SignedData, d: SignedData) {
    Diff(packages, k) <= Diff(packages, d) && Closer(packages, k) < count < AsClose(packages, d)
  }

  /**
   Every order of arrival keeps the nearest packages exactly when the computed distance never prefers a package that is
   further away: whenever fewer than `count` packages are computed to be closer than `k`, and more than `count` at most
   as far as `d`, and `k` not to be further than `d`, then `k` is really not further than `d`.
   */
  lemma KeepsNearestExactly(packages: seq<SignedData>, count: nat)
    requires AllMeasurable(packages)
    ensures EveryOrderKeepsNearest(packages, count) <==>
      forall k, d :: k in packages && d in packages && MayLose(packages, count, k, d) ==>
        Nearness(packages, k) <= Nearness(packages, d)
  {
    hide AllMeasurable, MayLose, Nearness, KeepsNearest;
    if EveryOrderKeepsNearest(packages, count) {
      forall k, d | k in packages && d in packages && MayLose(packages, count, k, d)
        ensures Nearness(packages, k) <= Nearness(packages, d)
      {
        if k != d {
          LosingOrder(packages, count, k, d);
        }
      }
    }
    if forall k, d :: k in packages && d in packages && MayLose(packages, count, k, d) ==>
        Nearness(packages, k) <= Nearness(packages, d)
    {
      forall other | multiset(packages) == multiset(other) ensures AllMeasurable(other) && KeepsNearest(other, count) {
        AllMeasurableRearranged(packages, other);
        OrderKeepsNearest(packages, other, count);
      }
    }
  }

  lemma OrderKeepsNearest(packages: seq<SignedData>, other: seq<SignedData>, count: nat)
    requires AllMeasurable(other) && multiset(packages) == multiset(other)
    requires forall k, d :: k in packages && d in packages && MayLose(packages, count, k, d) ==>
      Nearness(packages, k) <= Nearness(packages, d)
    ensures KeepsNearest(other, count)
  {
    hide AllMeasurable, Nearness, PickClosest, MayLose;
    Sorting.SameElements(packages, other);
    assert PickClosest(other, count).Ok? by { PickedAreClosest(other, count); }
    var kept := PickClosest(other, count).value;
    forall k, d | k in kept && d in multiset(other) - multiset(kept) ensures Nearness(other, k) <= Nearness(other, d) {
      KeptBeforeLeftOut(other, count, k, d);
      MayLoseRearranged(packages, other, count, k, d);
      SameOrder(packages, other, k);
      SameOrder(packages, other, d);
    }
  }

  lemma MayLoseRearranged(packages: seq<SignedData>, other: seq<SignedData>, count: nat, k: SignedData, d: SignedData)
    requires multiset(packages) == multiset(other)
    ensures MayLose(packages, count, k, d) <==> MayLose(other, count, k, d)
  {
    hide Diff;
    forall p ensures Diff(packages, p) == Diff(other, p) {
      SameOrder(packages, other, p);
    }
    var key, key' := p => Diff(packages, p), p => Diff(other, p);
    Sorting.CountRearranged(packages, other, key, Diff(packages, k), false);
    Sorting.CountRearranged(packages, other, key, Diff(packages, d), true);
    Sorting.CountSameKeys(other, key, key', Diff(packages, k), false);
    Sorting.CountSameKeys(other, key, key', Diff(packages, d), true);
  }

  lemma KeptBeforeLeftOut(packages: seq<SignedData>, count: nat, k: SignedData, d: SignedData)
    requires AllMeasurable(packages) && k in PickClosest(packages, count).Extract()
    requires d in multiset(packages) - multiset(PickClosest(packages, count).Extract())
    ensures k in packages && d in packages && MayLose(packages, count, k, d)
  {
    hide Diff, AllMeasurable, Sorting.SortBy, Sorting.CountKey;
    var key := p => Diff(packages, p);
    Sorting.SameElements(packages, Sorting.SortBy(packages, key));
    assert d in multiset(packages);
    Sorting.KeptAndLeftOut(packages, key, count, k, d);
  }

  /** With `k` first and `d` last to arrive, `k` is kept and `d` is not. */
  lemma LosingOrder(packages: seq<SignedData>, count: nat, k: SignedData, d: SignedData)
    requires AllMeasurable(packages) && k in packages && d in packages && k != d && MayLose(packages, count, k, d)
    requires EveryOrderKeepsNearest(packages, count)
    ensures Nearness(packages, k) <= Nearness(packages, d)
  {
    hide AllMeasurable, Nearness, PickClosest, MayLose;
    var other := FirstAndLast(packages, k, d);
    assert AllMeasurable(other) && KeepsNearest(other, count);
    MayLoseRearranged(packages, other, count, k, d);
    Loses(other, count, k, d);
    SameOrder(packages, other, k);
    SameOrder(packages, other, d);
  }

  lemma FirstAndLast(packages: seq<SignedData>, k: SignedData, d: SignedData) returns (other: seq<SignedData>)
    requires k in packages && d in packages && k != d
    ensures multiset(packages) == multiset(other) && |other| >= 2 && other[0] == k && other[|other|-1] == d
  {
    var i := Sorting.IndexOf(packages, k);
    var rest := Sorting.RemoveAt(packages, i);
    assert d in multiset(rest);
    var j := Sorting.IndexOf(rest, d);
    var middle := Sorting.RemoveAt(rest, j);
    other := [k] + middle + [d];
    Surrounded(k, middle, d);
  }

  lemma Surrounded(k: SignedData, middle: seq<SignedData>, d: SignedData)
    ensures multiset([k] + middle + [d]) == multiset{k} + multiset(middle) + multiset{d}
    ensures |[k] + middle + [d]| >= 2
    ensures ([k] + middle + [d])[0] == k && ([k] + middle + [d])[|[k] + middle + [d]|-1] == d
  {
  }

  lemma Loses(packages: seq<SignedData>, count: nat, k: SignedData, d: SignedData)
    requires AllMeasurable(packages) && |packages| >= 2 && packages[0] == k && packages[|packages|-1] == d
    requires MayLose(packages, count, k, d)
    ensures PickClosest(packages, count).Ok?
    ensures k in PickClosest(packages, count).value
    ensures d in multiset(packages) - multiset(PickClosest(packages, count).value)
  {
    hide Diff, AllMeasurable, Sorting.SortBy, Sorting.CountKey;
    Sorting.FirstKeptLastLeftOut(packages, p => Diff(packages, p), count);
  }

  // ---------- Medians of one sign ----------

  ghost predicate OneSign(packages: seq<SignedData>, positive: bool) {
    forall i :: 0 <= i < |packages| ==> MediansHaveSign(packages, packages[i], positive)
  }

  /**
   When all medians have one sign, every order of arrival keeps the nearest packages exactly when the medians are
   positive, or nothing or everything is kept, or all packages are equally near.
   */
  lemma OneSignKeepsNearestExactly(packages: seq<SignedData>, count: nat, positive: bool)
    requires packages != [] && AllMeasurable(packages) && OneSign(packages, positive)
    ensures EveryOrderKeepsNearest(packages, count) <==>
      || positive || count == 0 || count >= |packages|
      || forall k, d :: k in packages && d in packages ==> Nearness(packages, k) == Nearness(packages, d)
  {
    hide EveryOrderKeepsNearest, MayLose, AllMeasurable, OneSign, Nearness;
    KeepsNearestExactly(packages, count);
    forall k, d | k in packages && d in packages
      ensures positive && MayLose(packages, count, k, d) ==> Nearness(packages, k) <= Nearness(packages, d)
      ensures !positive ==> (MayLose(packages, count, k, d) <==> 0 < count < |packages|)
      ensures MayLose(packages, count, k, d) ==> 0 < count < |packages|
    {
      OneSignLoses(packages, count, positive, k, d);
    }
  }

  lemma OneSignLoses(packages: seq<SignedData>, count: nat, positive: bool, k: SignedData, d: SignedData)
    requires OneSign(packages, positive) && k in packages && d in packages
    ensures positive && MayLose(packages, count, k, d) ==> Nearness(packages, k) <= Nearness(packages, d)
    ensures !positive ==> (MayLose(packages, count, k, d) <==> 0 < count < |packages|)
    ensures MayLose(packages, count, k, d) ==> 0 < count < |packages|
  {
    hide Diff, Nearness, MediansHaveSign;
    forall p | p in packages ensures Diff(packages, p) == if positive then Nearness(packages, p) else 0.0 {
      OneSignDiff(packages, positive, p);
    }
    var key := p => Diff(packages, p);
    Sorting.CountAtMost(packages, key, Diff(packages, d), true, |packages|);
    if !positive {
      assert forall i :: 0 <= i < |packages| ==> packages[i] in packages && key(packages[i]) == 0.0;
      Sorting.CountAtMost(packages, key, 0.0, false, 0);
      Sorting.CountAtLeast(packages, key, 0.0, true, |packages|);
    }
  }

  lemma OneSignDiff(packages: seq<SignedData>, positive: bool, p: SignedData)
    requires OneSign(packages, positive) && p in packages
    ensures Diff(packages, p) == if positive then Nearness(packages, p) else 0.0
  {
    hide MaxDistance, MaxNearness;
    var i := Sorting.IndexOf(packages, p);
    assert MediansHaveSign(packages, packages[i], positive);
    SignDecidesDistance(packages, p, positive, |p.points|);
  }
}
