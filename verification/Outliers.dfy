/** Filtering of outliers: the largest group of numbers whose spread stays below a limit. */
module Outliers {
  import Sorting

  /** Any two members differ by less than `maxDiscrepancy`. */
  ghost predicate Tight(group: multiset<real>, maxDiscrepancy: real) {
    forall x, y :: x in group && y in group ==> y - x < maxDiscrepancy
  }

  ghost predicate Ascending(s: seq<real>) {
    forall i, j :: 0 <= i < j < |s| ==> s[i] <= s[j]
  }

  /** The window from `start` to `end` of a sorted sequence spreads less than the limit. */
  predicate TightWindow(s: seq<real>, start: nat, end: nat, maxDiscrepancy: real)
    requires start < end <= |s|
  {
    s[end-1] - s[start] < maxDiscrepancy
  }

  /** The group is what `sorted` holds from `start` on, and no stretch of its length that begins before is tight. */
  ghost predicate IsFirstOfItsLength(
    sorted: seq<real>, start: nat, group: seq<real>, outliers: seq<real>, limit: real)
  {
    && start + |group| <= |sorted| && Ascending(sorted) && (start > 0 ==> group != [])
    && group == sorted[start..start+|group|] && outliers == sorted[..start] + sorted[start+|group|..]
    && forall i :: 0 <= i < start ==> sorted[i+|group|-1] - sorted[i] >= limit
  }

  ghost predicate SplitsLowest(numbers: seq<real>, group: seq<real>, outliers: seq<real>, limit: real) {
    exists sorted, start ::
      multiset(sorted) == multiset(numbers) && IsFirstOfItsLength(sorted, start, group, outliers, limit)
  }

  /**
   Splits three or more numbers into the representative group and the outliers; two numbers or fewer come back as
   they are, in the order given, which is the one case in which the documented ascending order can fail.
   */
  method FilterOutliers(numbers: seq<real>, maxDiscrepancy: real)
    returns (representativeGroup: seq<real>, outliers: seq<real>)
    ensures |numbers| <= 2 ==> representativeGroup == numbers && outliers == []
    ensures multiset(representativeGroup) + multiset(outliers) == multiset(numbers)
    ensures Ascending(representativeGroup) <==> |numbers| > 2 || Ascending(numbers)
    ensures Ascending(outliers)
    ensures |numbers| > 2 ==> Tight(multiset(representativeGroup), maxDiscrepancy)
    ensures |numbers| > 2 ==> forall group: multiset<real> ::
      group <= multiset(numbers) && Tight(group, maxDiscrepancy) ==> |group| <= |representativeGroup|
    ensures |numbers| > 2 ==> SplitsLowest(numbers, representativeGroup, outliers, maxDiscrepancy)
  {
    if |numbers| <= 2 {
      return numbers, [];
    }
    var sorted := Sorting.SortBy(numbers, x => x);
    assert Ascending(sorted) by { SortedIsAscending(sorted); }
    var bestStart, bestEnd := BestWindow(sorted, maxDiscrepancy);
    representativeGroup := sorted[bestStart..bestEnd];
    outliers := sorted[..bestStart] + sorted[bestEnd..];
    hide TightWindow, Sorting.SortBy, Tight, Ascending, SplitsLowest;
    LowestSplit(numbers, sorted, bestStart, bestEnd, maxDiscrepancy);
    TakenOut(sorted, bestStart, bestEnd);
    WindowIsTight(sorted, bestStart, bestEnd, maxDiscrepancy);
    NoLargerGroup(sorted, maxDiscrepancy, bestEnd - bestStart);
  }

  lemma LowestSplit(numbers: seq<real>, s: seq<real>, start: nat, end: nat, maxDiscrepancy: real)
    requires start <= end <= |s| && (start > 0 ==> start < end)
    requires Ascending(s) && multiset(s) == multiset(numbers)
    requires forall i, j ::
      0 <= i < start && i < j <= |s| && TightWindow(s, i, j, maxDiscrepancy) ==> j - i < end - start
    ensures SplitsLowest(numbers, s[start..end], s[..start] + s[end..], maxDiscrepancy)
  {
    var group, outliers := s[start..end], s[..start] + s[end..];
    forall i | 0 <= i < start ensures s[i+|group|-1] - s[i] >= maxDiscrepancy {
      assert !TightWindow(s, i, i + |group|, maxDiscrepancy);
    }
    assert IsFirstOfItsLength(s, start, group, outliers, maxDiscrepancy);
  }

  lemma TakenOut(s: seq<real>, start: nat, end: nat)
    requires start <= end <= |s|
    ensures multiset(s[start..end]) + multiset(s[..start] + s[end..]) == multiset(s)
  {
    assert s == s[..start] + s[start..end] + s[end..];
  }

  lemma NoLargerGroup(s: seq<real>, maxDiscrepancy: real, best: nat)
    requires Ascending(s)
    requires forall i, j :: 0 <= i < j <= |s| && TightWindow(s, i, j, maxDiscrepancy) ==> j - i <= best
    ensures forall group: multiset<real> ::
      group <= multiset(s) && Tight(group, maxDiscrepancy) ==> |group| <= best
  {
    forall group: multiset<real> | group <= multiset(s) && Tight(group, maxDiscrepancy) ensures |group| <= best {
      GroupFitsWindow(s, group, maxDiscrepancy, best);
    }
  }

  lemma SortedIsAscending(s: seq<real>)
    requires Sorting.SortedBy(s, x => x)
    ensures Ascending(s)
  {
  }

  /** The two nested loops over all windows, longest first for each start. */
  method BestWindow(s: seq<real>, maxDiscrepancy: real) returns (bestStart: nat, bestEnd: nat)
    ensures bestStart <= bestEnd <= |s| && (bestStart > 0 ==> bestStart < bestEnd)
    ensures bestStart < bestEnd ==> TightWindow(s, bestStart, bestEnd, maxDiscrepancy)
    ensures forall i, j :: 0 <= i < j <= |s| && TightWindow(s, i, j, maxDiscrepancy) ==> j - i <= bestEnd - bestStart
    ensures forall i, j ::
      0 <= i < bestStart && i < j <= |s| && TightWindow(s, i, j, maxDiscrepancy) ==> j - i < bestEnd - bestStart
  {
    bestStart, bestEnd := 0, 0;
    var start := 0;
    while start < |s|
      invariant 0 <= start <= |s|
      invariant bestStart <= bestEnd <= |s| && (bestStart > 0 ==> bestStart < bestEnd)
      invariant bestStart < bestEnd ==> TightWindow(s, bestStart, bestEnd, maxDiscrepancy)
      invariant forall i, j ::
        0 <= i < start && i < j <= |s| && TightWindow(s, i, j, maxDiscrepancy) ==> j - i <= bestEnd - bestStart
      invariant bestStart <= start && forall i, j ::
        0 <= i < bestStart && i < j <= |s| && TightWindow(s, i, j, maxDiscrepancy) ==> j - i < bestEnd - bestStart
    {
      var end := |s|;
      while start < end
        invariant start <= end <= |s|
        invariant bestStart <= bestEnd <= |s| && (bestStart > 0 ==> bestStart < bestEnd)
        invariant bestStart < bestEnd ==> TightWindow(s, bestStart, bestEnd, maxDiscrepancy)
        invariant forall i, j ::
          0 <= i < start && i < j <= |s| && TightWindow(s, i, j, maxDiscrepancy) ==> j - i <= bestEnd - bestStart
        invariant forall j ::
          end < j <= |s| && TightWindow(s, start, j, maxDiscrepancy) ==> j - start <= bestEnd - bestStart
        invariant bestStart <= start && forall i, j ::
          0 <= i < bestStart && i < j <= |s| && TightWindow(s, i, j, maxDiscrepancy) ==> j - i < bestEnd - bestStart
      {
        if s[end-1] - s[start] < maxDiscrepancy {
          if end - start > bestEnd - bestStart {
            bestStart, bestEnd := start, end;
          }
        }
        end := end - 1;
      }
      start := start + 1;
    }
  }

  lemma WindowIsTight(s: seq<real>, start: nat, end: nat, maxDiscrepancy: real)
    requires Ascending(s) && start <= end <= |s|
    requires start < end ==> TightWindow(s, start, end, maxDiscrepancy)
    ensures Tight(multiset(s[start..end]), maxDiscrepancy)
    ensures Ascending(s[start..end]) && Ascending(s[..start] + s[end..])
  {
  }

  /** A tight group lies in the window between the outermost positions of its values, so it is no larger than that. */
  lemma GroupFitsWindow(s: seq<real>, group: multiset<real>, maxDiscrepancy: real, best: nat)
    requires Ascending(s) && group <= multiset(s) && Tight(group, maxDiscrepancy)
    requires forall i, j :: 0 <= i < j <= |s| && TightWindow(s, i, j, maxDiscrepancy) ==> j - i <= best
    ensures |group| <= best
  {
    if group != multiset{} {
      var x :| x in group;
      var i, j := OutermostPositions(s, group, x);
      assert s[j-1] - s[i] < maxDiscrepancy;
      assert TightWindow(s, i, j, maxDiscrepancy);
      InsideWindow(s, group, i, j);
    }
  }

  lemma OutermostPositions(s: seq<real>, group: multiset<real>, x: real) returns (i: nat, j: nat)
    requires group <= multiset(s) && x in group
    ensures i < j <= |s| && s[i] in group && s[j-1] in group
    ensures forall p :: (0 <= p < i || j <= p < |s|) ==> s[p] !in group
  {
    var k := Sorting.IndexOf(s, x);
    i := 0;
    while s[i] !in group
      invariant 0 <= i <= k
      invariant forall p :: 0 <= p < i ==> s[p] !in group
      decreases k - i
    {
      i := i + 1;
    }
    j := |s|;
    while s[j-1] !in group
      invariant i < j <= |s| && k < j
      invariant forall p :: j <= p < |s| ==> s[p] !in group
      decreases j
    {
      j := j - 1;
    }
  }

  lemma InsideWindow(s: seq<real>, group: multiset<real>, i: nat, j: nat)
    requires group <= multiset(s) && i <= j <= |s|
    requires forall p :: (0 <= p < i || j <= p < |s|) ==> s[p] !in group
    ensures |group| <= j - i
  {
    var window := multiset(s[i..j]);
    assert s == s[..i] + s[i..j] + s[j..];
    forall x | x in group ensures group[x] <= window[x] {
      assert x !in s[..i] && x !in s[j..];
    }
    assert window == group + (window - group);
  }
}
