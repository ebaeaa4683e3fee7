/**
 Data points and data packages: their canonical bytes, and the object whose serialisation sorts its points in place.
 */
module DataPackages {
  import opened Outcomes
  import opened Bytes
  import Sorting

  type Digest = d: seq<byte> | |d| == DATA_FEED_ID_BS witness Zeros(DATA_FEED_ID_BS)

  /** A feed id given by its UTF-8 text, or, for ids over 31 characters, by the hash that stands for it. */
  datatype FeedId = Text(utf8: seq<byte>) | Hashed(digest: Digest)

  datatype DataPoint = DataPoint(feedId: FeedId, value: seq<byte>)

  predicate Serializable(id: FeedId) {
    id.Text? ==> |id.utf8| <= 31
  }

  function FeedIdBytes(id: FeedId): (b: seq<byte>)
    requires Serializable(id)
    ensures |b| == DATA_FEED_ID_BS
  {
    match id
    case Text(utf8) => utf8 + Zeros(DATA_FEED_ID_BS - |utf8|)
    case Hashed(digest) => digest
  }

  function PointBytes(p: DataPoint): (b: seq<byte>)
    requires Serializable(p.feedId)
    ensures |b| == DATA_FEED_ID_BS + |p.value|
  {
    FeedIdBytes(p.feedId) + p.value
  }

  predicate AllSerializable(points: seq<DataPoint>) {
    forall i :: 0 <= i < |points| ==> Serializable(points[i].feedId)
  }

  // ---------- Sorting with duplicate rejection ----------

  /** Sort key; ids that cannot be serialised are rejected before they matter. */
  function Key(p: DataPoint): real {
    if Serializable(p.feedId) then ToNat(FeedIdBytes(p.feedId)) as real else 0.0
  }

  lemma KeyIsFeedIdBytes(p: DataPoint, q: DataPoint)
    requires Serializable(p.feedId) && Serializable(q.feedId)
    ensures Key(p) == Key(q) <==> FeedIdBytes(p.feedId) == FeedIdBytes(q.feedId)
    ensures Key(p) < Key(q) <==> LexLess(FeedIdBytes(p.feedId), FeedIdBytes(q.feedId))
  {
    if Key(p) == Key(q) {
      ToNatInjective(FeedIdBytes(p.feedId), FeedIdBytes(q.feedId));
    }
    LexIsNumeric(FeedIdBytes(p.feedId), FeedIdBytes(q.feedId));
  }

  /** One pass of the comparator over an already sorted part; comparing equal ids aborts. */
  function InsertPoint(p: DataPoint, sorted: seq<DataPoint>): (r: Result<seq<DataPoint>>)
    requires Serializable(p.feedId) && AllSerializable(sorted)
    ensures r.Ok? ==> AllSerializable(r.value) && multiset(r.value) == multiset(sorted) + multiset{p}
  {
    if sorted == [] then Ok([p])
    else
      var a, b := FeedIdBytes(p.feedId), FeedIdBytes(sorted[0].feedId);
      if a == b then Err("Duplicated dataFeedId found")
      else if LexLess(a, b) then Ok([p] + sorted)
      else
        var rest :- InsertPoint(p, sorted[1..]);
        assert sorted == [sorted[0]] + sorted[1..];
        Ok([sorted[0]] + rest)
  }

  function SortPoints(points: seq<DataPoint>): (r: Result<seq<DataPoint>>)
    requires AllSerializable(points)
    ensures r.Ok? ==> AllSerializable(r.value) && multiset(r.value) == multiset(points)
  {
    if points == [] then Ok([])
    else
      var front :- SortPoints(points[..|points|-1]);
      assert points == points[..|points|-1] + [points[|points|-1]];
      InsertPoint(points[|points|-1], front)
  }

  ghost predicate SharedId(points: seq<DataPoint>) {
    exists i, j :: 0 <= i < j < |points| && Key(points[i]) == Key(points[j])
  }

  lemma PrependStrict(x: DataPoint, rest: seq<DataPoint>)
    requires Sorting.StrictlySortedBy(rest, Key)
    requires forall y :: y in multiset(rest) ==> Key(x) < Key(y)
    ensures Sorting.StrictlySortedBy([x] + rest, Key)
  {
  }

  lemma {:induction false} InsertPointOrder(p: DataPoint, sorted: seq<DataPoint>)
    requires Serializable(p.feedId) && AllSerializable(sorted)
    requires Sorting.StrictlySortedBy(sorted, Key)
    ensures InsertPoint(p, sorted).Ok? <==> forall q :: q in multiset(sorted) ==> Key(q) != Key(p)
    ensures InsertPoint(p, sorted).Ok? ==> Sorting.StrictlySortedBy(InsertPoint(p, sorted).value, Key)
  {
    hide FeedIdBytes, LexLess, Key;
    if sorted != [] {
      var x, tail := sorted[0], sorted[1..];
      KeyIsFeedIdBytes(p, x);
      Sorting.TailStaysSorted(sorted, Key);
      HeadIsLeast(sorted);
      assert x in multiset(sorted);
      if Key(p) > Key(x) {
        InsertPointOrder(p, tail);
        if InsertPoint(p, tail).Ok? {
          PrependStrict(x, InsertPoint(p, tail).value);
        }
      } else if Key(p) < Key(x) {
        PrependStrict(p, sorted);
      }
    }
  }

  lemma HeadIsLeast(sorted: seq<DataPoint>)
    requires sorted != [] && Sorting.StrictlySortedBy(sorted, Key)
    ensures forall y :: y in multiset(sorted[1..]) ==> Key(sorted[0]) < Key(y)
    ensures forall y :: y in multiset(sorted) ==> y == sorted[0] || y in multiset(sorted[1..])
  {
  }

  /** Sorting is strict when it succeeds, and it fails exactly when two points share a bytes32 id. */
  lemma {:induction false} SortPointsSpec(points: seq<DataPoint>)
    requires AllSerializable(points)
    ensures SortPoints(points).Err? <==> SharedId(points)
    ensures SortPoints(points).Ok? ==> Sorting.StrictlySortedBy(SortPoints(points).value, Key)
  {
    if points != [] {
      var n := |points| - 1;
      var init, last := points[..n], points[n];
      SortPointsSpec(init);
      if SortPoints(init).Ok? {
        var front := SortPoints(init).value;
        InsertPointOrder(last, front);
        Sorting.SameElements(init, front);
        if InsertPoint(last, front).Err? {
          var q :| q in multiset(front) && Key(q) == Key(last);
          var j := Sorting.IndexOf(init, q);
          assert points[j] == init[j] && j < n;
        } else {
          forall i, j | 0 <= i < j < |points| ensures Key(points[i]) != Key(points[j]) {
            if j == n {
              assert init[i] in multiset(init) && init[i] in multiset(front);
            } else {
              assert points[i] == init[i] && points[j] == init[j];
            }
          }
        }
      } else {
        var i, j :| 0 <= i < j < |init| && Key(init[i]) == Key(init[j]);
        assert points[i] == init[i] && points[j] == init[j];
      }
    }
  }

  /** The sorted order depends on the set of points only, so sorting again changes nothing. */
  lemma SortPointsCanonical(points: seq<DataPoint>, other: seq<DataPoint>)
    requires AllSerializable(points) && multiset(points) == multiset(other)
    ensures AllSerializable(other)
    ensures SortPoints(points).Ok? <==> SortPoints(other).Ok?
    ensures SortPoints(points).Ok? ==> SortPoints(points).value == SortPoints(other).value
  {
    Sorting.SameElements(points, other);
    assert forall i :: 0 <= i < |other| ==> other[i] in other;
    SortPointsSpec(points);
    SortPointsSpec(other);
    if SharedId(points) {
      var i, j :| 0 <= i < j < |points| && Key(points[i]) == Key(points[j]);
      Sorting.ClashCarriesOver(other, points, Key, i, j);
    } else if SharedId(other) {
      var i, j :| 0 <= i < j < |other| && Key(other[i]) == Key(other[j]);
      Sorting.ClashCarriesOver(points, other, Key, i, j);
    } else {
      Sorting.StrictOrderUnique(SortPoints(points).value, SortPoints(other).value, Key);
    }
  }

  // ---------- Packages ----------

  datatype Package = Package(points: seq<DataPoint>, timestamp: nat, dataPackageId: seq<byte>)

  /** What the constructor of a data package insists on. */
  predicate Constructible(points: seq<DataPoint>) {
    points != [] && forall i :: 0 <= i < |points| ==> |points[i].value| == |points[0].value|
  }

  function ConcatPoints(points: seq<DataPoint>): (b: seq<byte>)
    requires AllSerializable(points)
  {
    if points == [] then [] else ConcatPoints(points[..|points|-1]) + PointBytes(points[|points|-1])
  }

  /** Points after sorting, or the error of serialising an unsuitable id or a duplicate. */
  function SortedPoints(points: seq<DataPoint>): (r: Result<seq<DataPoint>>)
    ensures r.Ok? ==> AllSerializable(points) && AllSerializable(r.value)
    ensures r.Ok? ==> multiset(r.value) == multiset(points)
  {
    if AllSerializable(points) then SortPoints(points) else Err("bytes32 string must be less than 32 bytes")
  }

  function SerializePoints(points: seq<DataPoint>): Result<seq<byte>> {
    var sorted :- SortedPoints(points);
    Ok(ConcatPoints(sorted))
  }

  /** Serialised points followed by timestamp, value size and number of points. */
  function WithFooter(points: Result<seq<byte>>, timestamp: nat, valueSize: nat, count: nat): Result<seq<byte>> {
    var pointBytes :- points;
    var timestampBytes :- ConvertIntegerNumberToBytes(timestamp, TIMESTAMP_BS);
    var sizeBytes :- ConvertIntegerNumberToBytes(valueSize, DATA_POINT_VALUE_BYTE_SIZE_BS);
    var countBytes :- ConvertIntegerNumberToBytes(count, DATA_POINTS_COUNT_BS);
    Ok(pointBytes + timestampBytes + sizeBytes + countBytes)
  }

  /** The bytes that are hashed and signed. */
  function PackageBytes(p: Package): Result<seq<byte>>
    requires Constructible(p.points)
  {
    WithFooter(SerializePoints(p.points), p.timestamp, |p.points[0].value|, |p.points|)
  }

  /** Constructibility survives rearranging, with the same value size. */
  lemma ConstructibleRearranged(points: seq<DataPoint>, other: seq<DataPoint>)
    requires Constructible(points) && multiset(points) == multiset(other)
    ensures Constructible(other) && |other| == |points|
    ensures |other[0].value| == |points[0].value|
  {
    Sorting.SameElements(points, other);
    assert forall i :: 0 <= i < |other| ==> other[i] in other;
  }

  /**
   Serialisation is canonical: two orderings of the same points with the same timestamp give the same bytes or both
   fail; whatever size and timestamp allow, the only package-specific failures are an id that does not fit 31 bytes
   and two points sharing a bytes32 id.
   */
  lemma PackageBytesCanonical(p: Package, q: Package)
    requires Constructible(p.points) && multiset(p.points) == multiset(q.points) && p.timestamp == q.timestamp
    ensures Constructible(q.points)
    ensures PackageBytes(p).Ok? <==> PackageBytes(q).Ok?
    ensures PackageBytes(p).Ok? ==> PackageBytes(p).value == PackageBytes(q).value
    ensures PackageBytes(p).Ok? <==>
      && AllSerializable(p.points) && !SharedId(p.points)
      && p.timestamp < Pow256(TIMESTAMP_BS)
      && |p.points[0].value| < Pow256(DATA_POINT_VALUE_BYTE_SIZE_BS)
      && |p.points| < Pow256(DATA_POINTS_COUNT_BS)
  {
    hide ConvertIntegerNumberToBytes, ConcatPoints, SortPoints, Pow256, Key;
    ConstructibleRearranged(p.points, q.points);
    Sorting.SameElements(p.points, q.points);
    if AllSerializable(p.points) {
      SortPointsCanonical(p.points, q.points);
      SortPointsSpec(p.points);
    } else if AllSerializable(q.points) {
      SortPointsCanonical(q.points, p.points);
    }
  }

  // ---------- Where everything lies ----------

  /** The 32 bytes of an id: its text from the first byte on and zeros behind it, or the hash. */
  ghost predicate HoldsId(field: seq<byte>, id: FeedId) {
    && |field| == 32
    && match id
       case Text(utf8) => utf8 <= field && forall i :: |utf8| <= i < 32 ==> field[i] == 0
       case Hashed(digest) => field == digest
  }

  /** From position `at` on, `b` holds the id of a point and then its value. */
  ghost predicate HoldsPoint(b: seq<byte>, at: int, p: DataPoint) {
    && 0 <= at && at + 32 + |p.value| <= |b|
    && HoldsId(b[at..at+32], p.feedId) && b[at+32..at+32+|p.value|] == p.value
  }

  ghost predicate PointsLaidOut(b: seq<byte>, points: seq<DataPoint>, size: nat) {
    && |b| == |points| * (32 + size)
    && forall i :: 0 <= i < |points| ==> |points[i].value| == size && HoldsPoint(b, i * (32 + size), points[i])
  }

  /** Points one after another, then six bytes of timestamp, four of value size and three of their number. */
  ghost predicate LaidOut(b: seq<byte>, points: seq<DataPoint>, size: nat, timestamp: nat) {
    var end := |b| - 13;
    && end == |points| * (32 + size) && end >= 0 && PointsLaidOut(b[..end], points, size)
    && ToNat(b[end..end+6]) == timestamp && ToNat(b[end+6..end+10]) == size && ToNat(b[end+10..]) == |points|
  }

  /** Dictionary order: smaller at the first byte that differs, or a proper beginning. */
  ghost predicate Precedes(a: seq<byte>, b: seq<byte>) {
    exists k :: 0 <= k < |b| && k <= |a| && a[..k] == b[..k] && (k == |a| || a[k] < b[k])
  }

  ghost predicate PlainText(id: FeedId) {
    id.Text? && 0 !in id.utf8
  }

  /** The 32 bytes of the ids ascend, and so do, as they stand, the texts of ids that hold no zero bytes. */
  ghost predicate InDictionaryOrder(points: seq<DataPoint>) {
    forall i, j :: 0 <= i < j < |points| ==> ComesBefore(points[i].feedId, points[j].feedId)
  }

  ghost predicate ComesBefore(id: FeedId, id': FeedId) {
    && (forall f, g :: HoldsId(f, id) && HoldsId(g, id') ==> Precedes(f, g))
    && (PlainText(id) && PlainText(id') ==> Precedes(id.utf8, id'.utf8))
  }

  lemma FeedIdHolds(id: FeedId)
    requires Serializable(id)
    ensures HoldsId(FeedIdBytes(id), id)
    ensures forall f :: HoldsId(f, id) ==> f == FeedIdBytes(id)
  {
    forall f | HoldsId(f, id) ensures f == FeedIdBytes(id) {
      assert forall i :: 0 <= i < 32 ==> f[i] == FeedIdBytes(id)[i];
    }
  }

  /** Two ids share a key exactly when one field can hold them both. */
  lemma SharedFieldExactly(p: DataPoint, q: DataPoint)
    requires Serializable(p.feedId) && Serializable(q.feedId)
    ensures Key(p) == Key(q) <==> exists f :: HoldsId(f, p.feedId) && HoldsId(f, q.feedId)
  {
    KeyIsFeedIdBytes(p, q);
    FeedIdHolds(p.feedId);
    FeedIdHolds(q.feedId);
  }

  lemma {:induction false} LexLessPrecedes(a: seq<byte>, b: seq<byte>)
    requires LexLess(a, b)
    ensures Precedes(a, b)
  {
    if a == [] || a[0] < b[0] {
      assert a[..0] == b[..0];
    } else {
      LexLessPrecedes(a[1..], b[1..]);
      var s, t := a[1..], b[1..];
      var k :| 0 <= k < |t| && k <= |s| && s[..k] == t[..k] && (k == |s| || s[k] < t[k]);
      assert a[..k+1] == [a[0]] + a[1..][..k] && b[..k+1] == [b[0]] + b[1..][..k];
    }
  }

  /** Behind texts without zeros, padding does not change which comes first. */
  lemma TextsPrecede(f: seq<byte>, g: seq<byte>, a: seq<byte>, b: seq<byte>)
    requires HoldsId(f, Text(a)) && HoldsId(g, Text(b)) && 0 !in b && Precedes(f, g)
    ensures Precedes(a, b)
  {
    var k :| 0 <= k < |g| && k <= |f| && f[..k] == g[..k] && (k == |f| || f[k] < g[k]);
    assert k < |b|;
    assert forall i :: 0 <= i < k ==> f[i] == f[..k][i] == g[i];
    assert forall i :: 0 <= i < |b| ==> g[i] == b[i] && b[i] in b;
    if k > 0 {
      assert f[k-1] != 0;
    }
    assert a[..k] == b[..k];
  }

  lemma KeysOrderIds(p: DataPoint, q: DataPoint)
    requires Serializable(p.feedId) && Serializable(q.feedId) && Key(p) < Key(q)
    ensures ComesBefore(p.feedId, q.feedId)
  {
    KeyIsFeedIdBytes(p, q);
    var f, g := FeedIdBytes(p.feedId), FeedIdBytes(q.feedId);
    LexLessPrecedes(f, g);
    FeedIdHolds(p.feedId);
    FeedIdHolds(q.feedId);
    hide Precedes;
    if PlainText(p.feedId) && PlainText(q.feedId) {
      TextsPrecede(f, g, p.feedId.utf8, q.feedId.utf8);
    }
  }

  lemma SortedInDictionaryOrder(points: seq<DataPoint>)
    requires SortedPoints(points).Ok?
    ensures InDictionaryOrder(SortedPoints(points).value)
  {
    SortPointsSpec(points);
    hide SortPoints, Key, ComesBefore;
    var sorted := SortedPoints(points).value;
    forall i, j | 0 <= i < j < |sorted| ensures ComesBefore(sorted[i].feedId, sorted[j].feedId) {
      KeysOrderIds(sorted[i], sorted[j]);
    }
  }

  lemma {:induction false} ConcatPointsLength(points: seq<DataPoint>, size: nat)
    requires AllSerializable(points) && forall i :: 0 <= i < |points| ==> |points[i].value| == size
    ensures |ConcatPoints(points)| == |points| * (DATA_FEED_ID_BS + size)
  {
    hide PointBytes;
    if points != [] {
      var n, front := |points| - 1, points[..|points|-1];
      ConcatPointsLength(front, size);
      assert (n + 1) * (DATA_FEED_ID_BS + size) == n * (DATA_FEED_ID_BS + size) + (DATA_FEED_ID_BS + size);
    }
  }

  lemma PointBytesHold(before: seq<byte>, p: DataPoint, after: seq<byte>)
    requires Serializable(p.feedId)
    ensures HoldsPoint(before + PointBytes(p) + after, |before|, p)
  {
    FeedIdHolds(p.feedId);
    hide FeedIdBytes;
    var b, at, id := before + PointBytes(p) + after, |before|, FeedIdBytes(p.feedId);
    assert b[at..at+32] == id;
    assert b[at+32..at+32+|p.value|] == p.value;
  }

  lemma {:induction false} ConcatHolds(points: seq<DataPoint>, size: nat, i: nat, after: seq<byte>)
    requires AllSerializable(points) && forall k :: 0 <= k < |points| ==> |points[k].value| == size
    requires i < |points|
    ensures HoldsPoint(ConcatPoints(points) + after, i * (32 + size), points[i])
    decreases |points|
  {
    hide PointBytes, HoldsPoint;
    var n := |points| - 1;
    var front, last := points[..n], points[n];
    if i < n {
      ConcatHolds(front, size, i, PointBytes(last) + after);
      assert ConcatPoints(front) + (PointBytes(last) + after) == ConcatPoints(points) + after;
    } else {
      ConcatPointsLength(front, size);
      PointBytesHold(ConcatPoints(front), last, after);
    }
  }

  lemma ConcatLaidOut(points: seq<DataPoint>, size: nat)
    requires AllSerializable(points) && forall i :: 0 <= i < |points| ==> |points[i].value| == size
    ensures PointsLaidOut(ConcatPoints(points), points, size)
  {
    hide ConcatPoints, HoldsPoint;
    ConcatPointsLength(points, size);
    forall i | 0 <= i < |points| ensures HoldsPoint(ConcatPoints(points), i * (32 + size), points[i]) {
      ConcatHolds(points, size, i, []);
      assert ConcatPoints(points) + [] == ConcatPoints(points);
    }
  }

  /**
   Where everything lies in the bytes that are signed, with the points in dictionary order of their ids; given by the
   bytes themselves, whatever computed them.
   */
  lemma PackageLayout(p: Package)
    requires Constructible(p.points) && PackageBytes(p).Ok?
    ensures var order := SortedPoints(p.points);
      && order.Ok? && multiset(order.value) == multiset(p.points)
      && InDictionaryOrder(order.value)
      && LaidOut(PackageBytes(p).value, order.value, |p.points[0].value|, p.timestamp)
  {
    hide SortPoints, InDictionaryOrder, LaidOut, ConcatPoints, ConvertIntegerNumberToBytes;
    SortedInDictionaryOrder(p.points);
    var order, size := SortedPoints(p.points).value, |p.points[0].value|;
    ConstructibleRearranged(p.points, order);
    FooterLaidOut(order, size, p.timestamp);
  }

  lemma FooterLaidOut(points: seq<DataPoint>, size: nat, timestamp: nat)
    requires AllSerializable(points) && forall i :: 0 <= i < |points| ==> |points[i].value| == size
    ensures var b := WithFooter(Ok(ConcatPoints(points)), timestamp, size, |points|);
      b.Ok? ==> LaidOut(b.value, points, size, timestamp)
  {
    hide ConcatPoints, HoldsPoint;
    var r := WithFooter(Ok(ConcatPoints(points)), timestamp, size, |points|);
    if r.Ok? {
      var t, s, c := ConvertIntegerNumberToBytes(timestamp, 6).value, ConvertIntegerNumberToBytes(size, 4).value,
        ConvertIntegerNumberToBytes(|points|, 3).value;
      hide ConvertIntegerNumberToBytes;
      var front, b := ConcatPoints(points), r.value;
      var end := |front|;
      ConcatPointsLength(points, size);
      ConcatLaidOut(points, size);
      hide PointsLaidOut;
      assert b == front + (t + s + c);
      assert b[..end] == front && b[end..end+6] == t && b[end+6..end+10] == s && b[end+10..] == c;
    }
  }

  /** The TypeScript object: its points are rearranged in place by serialisation. */
  class DataPackage {
    var dataPoints: seq<DataPoint>
    const timestampMilliseconds: nat
    const dataPackageId: seq<byte>

    ghost predicate Valid()
      reads this
    {
      Constructible(dataPoints)
    }

    function Value(): Package
      reads this
    {
      Package(dataPoints, timestampMilliseconds, dataPackageId)
    }

    constructor (points: seq<DataPoint>, timestamp: nat, id: seq<byte>)
      requires Constructible(points)
      ensures Valid() && Value() == Package(points, timestamp, id)
    {
      dataPoints := points;
      timestampMilliseconds := timestamp;
      dataPackageId := id;
    }

    /** Construction as callers meet it: an error for no points or for values of different sizes. */
    static method Create(points: seq<DataPoint>, timestamp: nat, id: seq<byte>) returns (r: Result<DataPackage>)
      ensures r.Ok? <==> Constructible(points)
      ensures r.Ok? ==> fresh(r.value) && r.value.Valid() && r.value.Value() == Package(points, timestamp, id)
    {
      if |points| == 0 {
        return Err("Can not create a data package with no data points");
      }
      for i := 0 to |points|
        invariant forall k :: 0 <= k < i ==> |points[k].value| == |points[0].value|
      {
        if |points[i].value| != |points[0].value| {
          return Err("Values of all data points must have the same number of bytes");
        }
      }
      var p := new DataPackage(points, timestamp, id);
      return Ok(p);
    }

    /** Sorts the points in place; a failing sort leaves them as they were. */
    method SerializeDataPoints() returns (r: Result<seq<byte>>)
      requires Valid()
      modifies this
      ensures Valid() && multiset(dataPoints) == old(multiset(dataPoints))
      ensures r == SerializePoints(old(dataPoints))
      ensures dataPoints == if r.Ok? then SortedPoints(old(dataPoints)).value else old(dataPoints)
      ensures r.Ok? ==> InDictionaryOrder(dataPoints) && PointsLaidOut(r.value, dataPoints, |dataPoints[0].value|)
    {
      hide InDictionaryOrder, PointsLaidOut, SortPoints, ConcatPoints;
      var sorted := SortedPoints(dataPoints);
      if sorted.Err? {
        return Err(sorted.message);
      }
      ConstructibleRearranged(dataPoints, sorted.value);
      SortedInDictionaryOrder(dataPoints);
      dataPoints := sorted.value;
      ConcatLaidOut(dataPoints, |dataPoints[0].value|);
      return Ok(ConcatPoints(dataPoints));
    }

    /** However often it runs, and whatever order earlier runs left behind, it returns the same bytes. */
    method ToBytes() returns (r: Result<seq<byte>>)
      requires Valid()
      modifies this
      ensures Valid() && multiset(dataPoints) == old(multiset(dataPoints))
      ensures r == PackageBytes(old(Value()))
      ensures r.Ok? ==> r == PackageBytes(Value())
      ensures dataPoints == if SortedPoints(old(dataPoints)).Ok? then SortedPoints(old(dataPoints)).value
                            else old(dataPoints)
      ensures r.Ok? ==> InDictionaryOrder(dataPoints)
      ensures r.Ok? ==> LaidOut(r.value, dataPoints, |dataPoints[0].value|, timestampMilliseconds)
    {
      hide WithFooter, SortPoints, ConcatPoints, InDictionaryOrder, LaidOut, PointsLaidOut;
      ghost var before := Value();
      var points := SerializeDataPoints();
      ConstructibleRearranged(before.points, dataPoints);
      PackageBytesCanonical(before, Value());
      if PackageBytes(before).Ok? {
        PackageLayout(before);
      }
      r := WithFooter(points, timestampMilliseconds, |dataPoints[0].value|, |dataPoints|);
    }
  }
}
