/** Plain and weighted medians over exact reals, and why they agree. */
module WeightedMedian {
  import opened Outcomes
  import Sorting

  datatype Weighted = Weighted(value: real, weight: real)

  ghost predicate Positive(ws: seq<Weighted>) {
    forall i :: 0 <= i < |ws| ==> ws[i].weight > 0.0
  }

  // ---------- Weight on one side of a value ----------

  datatype Side = Below | AtMost | Everything

  predicate Counts(side: Side, value: real, v: real) {
    match side
    case Below => value < v
    case AtMost => value <= v
    case Everything => true
  }

  /** Total weight of the values on the given side of `v`. */
  function Weight(side: Side, ws: seq<Weighted>, v: real): real {
    if ws == [] then 0.0
    else Weight(side, ws[..|ws|-1], v) + Share(side, ws[|ws|-1], v)
  }

  function Share(side: Side, w: Weighted, v: real): real {
    if Counts(side, w.value, v) then w.weight else 0.0
  }

  function Total(ws: seq<Weighted>): real {
    Weight(Everything, ws, 0.0)
  }

  /** The smallest value that half of the weight does not exceed. */
  ghost predicate LowerMedian(ws: seq<Weighted>, v: real) {
    2.0 * Weight(Below, ws, v) < Total(ws) <= 2.0 * Weight(AtMost, ws, v)
  }

  /** The smallest value that more than half of the weight does not exceed. */
  ghost predicate UpperMedian(ws: seq<Weighted>, v: real) {
    2.0 * Weight(Below, ws, v) <= Total(ws) < 2.0 * Weight(AtMost, ws, v)
  }

  /** Definition of the weighted median that does not mention any order of the input. */
  ghost predicate IsWeightedMedian(ws: seq<Weighted>, m: real) {
    exists lo, hi :: LowerMedian(ws, lo) && UpperMedian(ws, hi) && m == (lo + hi) / 2.0
  }

  // ---------- Consequences of the definition ----------

  lemma {:induction false} WeightMonotone(ws: seq<Weighted>, v: real, v': real)
    requires Positive(ws) && v < v'
    ensures 0.0 <= Weight(AtMost, ws, v) <= Weight(Below, ws, v') <= Weight(AtMost, ws, v') <= Total(ws)
  {
    if ws != [] {
      WeightMonotone(ws[..|ws|-1], v, v');
      TotalIgnoresValue(ws, v, 0.0);
    }
  }

  lemma {:induction false} TotalIgnoresValue(ws: seq<Weighted>, v: real, v': real)
    ensures Weight(Everything, ws, v) == Weight(Everything, ws, v')
  {
    if ws != [] {
      TotalIgnoresValue(ws[..|ws|-1], v, v');
    }
  }

  lemma MedianUnique(ws: seq<Weighted>, m: real, m': real)
    requires Positive(ws) && IsWeightedMedian(ws, m) && IsWeightedMedian(ws, m')
    ensures m == m'
  {
    var lo, hi :| LowerMedian(ws, lo) && UpperMedian(ws, hi) && m == (lo + hi) / 2.0;
    var lo', hi' :| LowerMedian(ws, lo') && UpperMedian(ws, hi') && m' == (lo' + hi') / 2.0;
    if lo < lo' { WeightMonotone(ws, lo, lo'); }
    if lo' < lo { WeightMonotone(ws, lo', lo); }
    if hi < hi' { WeightMonotone(ws, hi, hi'); }
    if hi' < hi { WeightMonotone(ws, hi', hi); }
  }

  /** At most half of the weight lies strictly on either side of the weighted median. */
  lemma MedianBalances(ws: seq<Weighted>, m: real)
    requires Positive(ws) && IsWeightedMedian(ws, m)
    ensures 2.0 * Weight(Below, ws, m) <= Total(ws)
    ensures 2.0 * (Total(ws) - Weight(AtMost, ws, m)) <= Total(ws)
  {
    var lo, hi :| LowerMedian(ws, lo) && UpperMedian(ws, hi) && m == (lo + hi) / 2.0;
    if hi < lo { WeightMonotone(ws, hi, lo); }
    if lo < m { WeightMonotone(ws, lo, m); }
    if m < hi { WeightMonotone(ws, m, hi); }
  }

  lemma {:induction false} WeightConcat(side: Side, a: seq<Weighted>, b: seq<Weighted>, v: real)
    ensures Weight(side, a + b, v) == Weight(side, a, v) + Weight(side, b, v)
  {
    hide Share;
    if b == [] {
      assert a + b == a;
    } else {
      var front := b[..|b|-1];
      WeightConcat(side, a, front, v);
      assert (a + b)[..|a + b|-1] == a + front;
    }
  }

  lemma WeightRemoveAt(side: Side, ws: seq<Weighted>, i: nat, v: real)
    requires i < |ws|
    ensures Weight(side, ws, v) == Weight(side, Sorting.RemoveAt(ws, i), v) + Share(side, ws[i], v)
  {
    hide Share;
    var before, after := ws[..i], ws[i+1..];
    assert ws == before + [ws[i]] + after;
    assert Sorting.RemoveAt(ws, i) == before + after;
    WeightConcat(side, before + [ws[i]], after, v);
    WeightConcat(side, before, after, v);
    assert (before + [ws[i]])[..i] == before;
  }

  lemma {:induction false} WeightRearranged(side: Side, ws: seq<Weighted>, other: seq<Weighted>, v: real)
    requires multiset(ws) == multiset(other)
    ensures Weight(side, ws, v) == Weight(side, other, v)
    decreases |ws|
  {
    Sorting.SameElements(ws, other);
    if ws != [] {
      assert ws[0] in ws;
      var i := Sorting.IndexOf(other, ws[0]);
      WeightRemoveAt(side, ws, 0, v);
      WeightRemoveAt(side, other, i, v);
      WeightRearranged(side, Sorting.RemoveAt(ws, 0), Sorting.RemoveAt(other, i), v);
    }
  }

  /** The weighted median does not depend on the order of the input. */
  lemma MedianRearranged(ws: seq<Weighted>, other: seq<Weighted>, m: real)
    requires multiset(ws) == multiset(other)
    ensures IsWeightedMedian(ws, m) <==> IsWeightedMedian(other, m)
  {
    hide Weight;
    forall v, side ensures Weight(side, ws, v) == Weight(side, other, v) {
      WeightRearranged(side, ws, other, v);
    }
    if IsWeightedMedian(ws, m) {
      var lo, hi :| LowerMedian(ws, lo) && UpperMedian(ws, hi) && m == (lo + hi) / 2.0;
      assert LowerMedian(other, lo) && UpperMedian(other, hi);
    }
    if IsWeightedMedian(other, m) {
      var lo, hi :| LowerMedian(other, lo) && UpperMedian(other, hi) && m == (lo + hi) / 2.0;
      assert LowerMedian(ws, lo) && UpperMedian(ws, hi);
    }
  }

  /** Every weight multiplied by the same factor. */
  function Scaled(ws: seq<Weighted>, c: real): (r: seq<Weighted>)
    ensures |r| == |ws|
    ensures forall i :: 0 <= i < |ws| ==> r[i] == ScaledBy(ws[i], c)
  {
    seq(|ws|, i requires 0 <= i < |ws| => ScaledBy(ws[i], c))
  }

  function ScaledBy(w: Weighted, c: real): Weighted {
    Weighted(w.value, w.weight * c)
  }

  lemma {:induction false} WeightScales(side: Side, ws: seq<Weighted>, c: real, v: real)
    ensures Weight(side, Scaled(ws, c), v) == Weight(side, ws, v) * c
  {
    hide Share, ScaledBy;
    if ws != [] {
      var n := |ws| - 1;
      WeightScales(side, ws[..n], c, v);
      ScaledFront(ws, c, n);
      Distribute(Weight(side, ws[..n], v), Share(side, ws[n], v), c);
      ShareScales(side, ws[n], c, v);
    }
  }

  lemma Distribute(a: real, b: real, c: real)
    ensures (a + b) * c == a * c + b * c
  {
  }

  lemma ShareScales(side: Side, w: Weighted, c: real, v: real)
    ensures Share(side, ScaledBy(w, c), v) == Share(side, w, v) * c
  {
  }

  lemma ScaledFront(ws: seq<Weighted>, c: real, n: nat)
    requires n <= |ws|
    ensures Scaled(ws, c)[..n] == Scaled(ws[..n], c)
  {
  }

  /** Nor does it depend on the scale of the weights. */
  lemma MedianScales(ws: seq<Weighted>, c: real, m: real)
    requires c > 0.0
    ensures IsWeightedMedian(ws, m) <==> IsWeightedMedian(Scaled(ws, c), m)
  {
    hide Weight;
    forall v ensures (LowerMedian(ws, v) <==> LowerMedian(Scaled(ws, c), v))
                  && (UpperMedian(ws, v) <==> UpperMedian(Scaled(ws, c), v))
    {
      WeightScales(Below, ws, c, v);
      WeightScales(AtMost, ws, c, v);
      WeightScales(Everything, ws, c, 0.0);
      OrderScales(2.0 * Weight(Below, ws, v), Total(ws), c);
      OrderScales(Total(ws), 2.0 * Weight(AtMost, ws, v), c);
    }
  }

  lemma OrderScales(a: real, b: real, c: real)
    requires c > 0.0
    ensures a < b <==> a * c < b * c
    ensures a <= b <==> a * c <= b * c
  {
  }

  // ---------- The weighted median ----------

  /** In value order, what lies below an entry comes before it, and what comes up to it lies at most at it. */
  lemma {:induction false} PrefixBounds(sorted: seq<Weighted>, i: nat, n: nat)
    requires Positive(sorted) && i < |sorted| && n <= |sorted|
    requires forall p, q :: 0 <= p < q < |sorted| ==> sorted[p].value <= sorted[q].value
    ensures Weight(Below, sorted[..n], sorted[i].value) <= Total(sorted[..if n < i then n else i])
    ensures Weight(AtMost, sorted[..n], sorted[i].value) >= Total(sorted[..if n < i + 1 then n else i + 1])
  {
    if n > 0 {
      PrefixBounds(sorted, i, n - 1);
      assert sorted[..n][..n-1] == sorted[..n-1];
    }
  }

  method GetWeightedMedian(weightedValues: seq<Weighted>) returns (r: Result<real>)
    requires Positive(weightedValues)
    ensures r.Ok? <==> weightedValues != []
    ensures r.Ok? ==> IsWeightedMedian(weightedValues, r.value)
  {
    if |weightedValues| == 0 {
      return Err("Cannot get weighted median value of an empty array");
    }
    var sorted := SortByValue(weightedValues);
    var n := |sorted|;
    var halfTotalWeight := Total(sorted) / 2.0;
    assert sorted[..n] == sorted;
    TotalPositive(sorted);
    var cumulativeWeight := 0.0;
    var i := 0;
    while i < n
      invariant 0 <= i <= n
      invariant cumulativeWeight == Total(sorted[..i]) < halfTotalWeight
    {
      var weightedValue := sorted[i];
      cumulativeWeight := cumulativeWeight + weightedValue.weight;
      assert sorted[..i+1][..i] == sorted[..i];
      PrefixBounds(sorted, i, n);
      if cumulativeWeight > halfTotalWeight {
        var v := weightedValue.value;
        assert LowerMedian(sorted, v) && UpperMedian(sorted, v) && v == (v + v) / 2.0;
        MedianRearranged(sorted, weightedValues, v);
        return Ok(v);
      } else if cumulativeWeight == halfTotalWeight {
        assert i + 1 < n;
        PrefixBounds(sorted, i + 1, n);
        assert sorted[..i+2][..i+1] == sorted[..i+1];
        assert LowerMedian(sorted, weightedValue.value) && UpperMedian(sorted, sorted[i+1].value);
        var m := (weightedValue.value + sorted[i+1].value) / 2.0;
        MedianRearranged(sorted, weightedValues, m);
        return Ok(m);
      }
      i := i + 1;
    }
    assert false;
  }

  method SortByValue(ws: seq<Weighted>) returns (sorted: seq<Weighted>)
    requires Positive(ws)
    ensures multiset(sorted) == multiset(ws) && |sorted| == |ws| && Positive(sorted)
    ensures forall p, q :: 0 <= p < q < |sorted| ==> sorted[p].value <= sorted[q].value
  {
    var key := (w: Weighted) => w.value;
    sorted := Sorting.SortBy(ws, key);
    Sorting.SameElements(sorted, ws);
    assert forall i :: 0 <= i < |sorted| ==> sorted[i] in sorted;
    forall p, q | 0 <= p < q < |sorted| ensures sorted[p].value <= sorted[q].value {
      assert key(sorted[p]) <= key(sorted[q]);
    }
  }

  lemma TotalPositive(ws: seq<Weighted>)
    requires Positive(ws)
    ensures Total(ws) >= 0.0 && (ws != [] ==> Total(ws) > 0.0)
  {
    if ws != [] {
      TotalPositive(ws[..|ws|-1]);
    }
  }

  method NormalizeWeightedValues(weightedValues: seq<Weighted>) returns (r: seq<Weighted>)
    requires Positive(weightedValues)
    ensures |r| == |weightedValues|
    ensures forall i :: 0 <= i < |r| ==> r[i].value == weightedValues[i].value
    ensures Positive(r) && (r != [] ==> Total(r) == 1.0)
    ensures forall m :: IsWeightedMedian(r, m) <==> IsWeightedMedian(weightedValues, m)
  {
    if weightedValues == [] {
      return [];
    }
    var sum := Total(weightedValues);
    TotalPositive(weightedValues);
    r := Scaled(weightedValues, 1.0 / sum);
    WeightScales(Everything, weightedValues, 1.0 / sum, 0.0);
    forall m ensures IsWeightedMedian(r, m) <==> IsWeightedMedian(weightedValues, m) {
      MedianScales(weightedValues, 1.0 / sum, m);
    }
  }

  // ---------- The plain median ----------

  function UnitWeights(numbers: seq<real>): (r: seq<Weighted>)
    ensures |r| == |numbers|
    ensures forall i :: 0 <= i < |numbers| ==> r[i] == Weighted(numbers[i], 1.0)
  {
    Sorting.Map((x: real) => Weighted(x, 1.0), numbers)
  }

  lemma {:induction false} UnitPrefix(ws: seq<Weighted>, n: nat)
    requires n <= |ws| && forall i :: 0 <= i < |ws| ==> ws[i].weight == 1.0
    ensures Total(ws[..n]) == n as real
  {
    if n > 0 {
      UnitPrefix(ws, n - 1);
      assert ws[..n][..n-1] == ws[..n-1];
    }
  }

  /** The middle of the sorted numbers, or the mean of the two middle ones. */
  function MiddleOf(sorted: seq<real>): real
    requires sorted != []
  {
    var middle := |sorted| / 2;
    if |sorted| % 2 == 0 then (sorted[middle] + sorted[middle-1]) / 2.0 else sorted[middle]
  }

  function MedianOf(numbers: seq<real>): real
    requires numbers != []
  {
    MiddleOf(Sorting.SortBy(numbers, x => x))
  }

  /** The median, after sorting the caller's own array in place. */
  method GetMedian(numbers: array<real>) returns (r: Result<real>)
    modifies numbers
    ensures multiset(numbers[..]) == multiset(old(numbers[..]))
    ensures Sorting.SortedBy(numbers[..], x => x)
    ensures r.Ok? <==> numbers.Length != 0
    ensures r.Ok? ==> r.value == MedianOf(old(numbers[..]))
  {
    if numbers.Length == 0 {
      return Err("Cannot get median value of an empty array");
    }
    var sorted := Sorting.SortBy(numbers[..], x => x);
    forall i | 0 <= i < numbers.Length {
      numbers[i] := sorted[i];
    }
    assert numbers[..] == sorted;
    var middle := numbers.Length / 2;
    if numbers.Length % 2 == 0 {
      return Ok((numbers[middle] + numbers[middle-1]) / 2.0);
    } else {
      return Ok(numbers[middle]);
    }
  }

  /** The plain median is the weighted median of unit weights, whatever the order of the numbers. */
  lemma MedianIsUnitWeighted(numbers: seq<real>)
    requires numbers != []
    ensures IsWeightedMedian(UnitWeights(numbers), MedianOf(numbers))
  {
    var sorted := Sorting.SortBy(numbers, x => x);
    MiddleIsMedian(sorted);
    Sorting.MapPreservesMultiset((x: real) => Weighted(x, 1.0), sorted, numbers);
    MedianRearranged(UnitWeights(sorted), UnitWeights(numbers), MedianOf(numbers));
  }

  lemma MiddleIsMedian(sorted: seq<real>)
    requires sorted != [] && Sorting.SortedBy(sorted, x => x)
    ensures IsWeightedMedian(UnitWeights(sorted), MiddleOf(sorted))
  {
    var ws, n, middle := UnitWeights(sorted), |sorted|, |sorted| / 2;
    var lower := if n % 2 == 0 then middle - 1 else middle;
    var key := (x: real) => x;
    forall p, q | 0 <= p < q < n ensures ws[p].value <= ws[q].value {
      assert key(sorted[p]) <= key(sorted[q]);
    }
    assert ws[..n] == ws;
    UnitPrefix(ws, n);
    UnitPrefix(ws, lower);
    UnitPrefix(ws, lower + 1);
    UnitPrefix(ws, middle);
    UnitPrefix(ws, middle + 1);
    PrefixBounds(ws, lower, n);
    PrefixBounds(ws, middle, n);
    assert LowerMedian(ws, sorted[lower]) && UpperMedian(ws, sorted[middle]);
  }

  /** With equal weights the weighted median is the plain median. */
  lemma EqualWeightsGivePlainMedian(numbers: seq<real>, ws: seq<Weighted>, weight: real, m: real)
    requires weight > 0.0 && numbers != [] && |ws| == |numbers|
    requires forall i :: 0 <= i < |ws| ==> ws[i] == Weighted(numbers[i], weight)
    requires IsWeightedMedian(ws, m)
    ensures m == MedianOf(numbers)
  {
    assert ws == Scaled(UnitWeights(numbers), weight);
    MedianScales(UnitWeights(numbers), weight, m);
    MedianIsUnitWeighted(numbers);
    MedianUnique(UnitWeights(numbers), m, MedianOf(numbers));
  }
}
