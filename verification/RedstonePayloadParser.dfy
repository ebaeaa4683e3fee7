/**
 Parsing of a payload from the end of a byte string, and the proof that it undoes printing.

 The parser walks backwards with a running offset from the end; after each package it advances by the length of that
 package printed again.
 */
module RedstonePayloadParser {
  import opened Outcomes
  import opened Bytes
  import opened DataPackages
  import opened RedstonePayload

  datatype Parsed = Parsed(packages: seq<SignedPackage>, metadata: seq<byte>, prefix: seq<byte>)

  // ---------- What each reading step returns ----------

  function ExtractNumber(b: seq<byte>, negativeOffset: nat, length: nat): Result<nat> {
    ConvertBytesToNumber(SliceFromEnd(b, negativeOffset, length))
  }

  function StripNul(b: seq<byte>): seq<byte> {
    if b == [] then []
    else StripNul(b[..|b|-1]) + if b[|b|-1] == 0 then [] else [b[|b|-1]]
  }

  /** The point whose value ends `negativeOffset` before the end. */
  function ReadPoint(b: seq<byte>, negativeOffset: nat, size: nat): DataPoint {
    DataPoint(Text(StripNul(SliceFromEnd(b, negativeOffset + size, DATA_FEED_ID_BS))),
      SliceFromEnd(b, negativeOffset, size))
  }

  /** `count` points in wire order, the last of them ending `negativeOffset` before the end. */
  function ReadPoints(b: seq<byte>, negativeOffset: nat, size: nat, count: nat): (points: seq<DataPoint>)
    ensures |points| == count
    decreases count
  {
    if count == 0 then []
    else
      var front := ReadPoints(b, negativeOffset + size + DATA_FEED_ID_BS, size, count - 1);
      front + [ReadPoint(b, negativeOffset, size)]
  }

  const MULTI_POINT: seq<byte> :=
    [0x5f, 0x5f, 0x4d, 0x55, 0x4c, 0x54, 0x49, 0x5f, 0x50, 0x4f, 0x49, 0x4e, 0x54, 0x5f, 0x5f]
  const EMPTY_ID: seq<byte> := [0x5f, 0x5f, 0x45, 0x4d, 0x50, 0x54, 0x59, 0x5f, 0x5f]

  /** The package id is not on the wire; an empty or undefined id is falsy and is replaced by the next feed id. */
  function NextPackageId(id: seq<byte>, feed: seq<byte>): seq<byte> {
    if id == [] then feed else if id != feed then MULTI_POINT else id
  }

  function FeedText(p: DataPoint): seq<byte> {
    if p.feedId.Text? then p.feedId.utf8 else []
  }

  /** Package id after going through `points` from the last to the first. */
  function PackageIdFrom(points: seq<DataPoint>, id: seq<byte>): seq<byte> {
    if points == [] then id
    else PackageIdFrom(points[..|points|-1], NextPackageId(id, FeedText(points[|points|-1])))
  }

  function DerivedPackageId(points: seq<DataPoint>): seq<byte> {
    var id := PackageIdFrom(points, []);
    if id == [] then EMPTY_ID else id
  }

  function ReadSignedPackage(b: seq<byte>, negativeOffset: nat): (r: Result<SignedPackage>)
    ensures r.Ok? ==> Constructible(r.value.package.points)
  {
    var signature := SliceFromEnd(b, negativeOffset, SIGNATURE_BS);
    var afterCount := negativeOffset + SIGNATURE_BS;
    var count :- ExtractNumber(b, afterCount, DATA_POINTS_COUNT_BS);
    var afterSize := afterCount + DATA_POINTS_COUNT_BS;
    var size :- ExtractNumber(b, afterSize, DATA_POINT_VALUE_BYTE_SIZE_BS);
    var afterTimestamp := afterSize + DATA_POINT_VALUE_BYTE_SIZE_BS;
    var timestamp :- ExtractNumber(b, afterTimestamp, TIMESTAMP_BS);
    var points := ReadPoints(b, afterTimestamp + TIMESTAMP_BS, size, count);
    if !Constructible(points) then Err("Can not create a data package")
    else if |signature| != SIGNATURE_BS then Err("invalid signature")
    else Ok(SignedPackage(Package(points, timestamp, DerivedPackageId(points)), signature))
  }

  /** The state of a package object after its points were sorted by serialisation. */
  function Resorted(p: SignedPackage): SignedPackage
    requires SortedPoints(p.package.points).Ok?
  {
    p.(package := p.package.(points := SortedPoints(p.package.points).value))
  }

  /** `count` packages in wire order, and the offset reached after the first of them. */
  function ReadPackages(b: seq<byte>, negativeOffset: nat, count: nat): Result<(seq<SignedPackage>, nat)>
    decreases count
  {
    if count == 0 then Ok(([], negativeOffset))
    else
      var last :- ReadSignedPackage(b, negativeOffset);
      var bytes :- SignedBytes(last);
      Append(ReadPackages(b, negativeOffset + |bytes|, count - 1), [Resorted(last)])
  }

  function Append(read: Result<(seq<SignedPackage>, nat)>, more: seq<SignedPackage>)
    : Result<(seq<SignedPackage>, nat)>
  {
    match read
    case Ok((packages, end)) => Ok((packages + more, end))
    case Err(message) => Err(message)
  }

  function Parse(b: seq<byte>): Result<Parsed> {
    if SliceFromEnd(b, 0, REDSTONE_MARKER_BS) != REDSTONE_MARKER then Err("Received invalid redstone marker")
    else
      var size :- ExtractNumber(b, REDSTONE_MARKER_BS, UNSIGNED_METADATA_BYTE_SIZE_BS);
      var metadata := SliceFromEnd(b, REDSTONE_MARKER_BS + UNSIGNED_METADATA_BYTE_SIZE_BS, size);
      var afterCount := |metadata| + UNSIGNED_METADATA_BYTE_SIZE_BS + REDSTONE_MARKER_BS;
      var count :- ExtractNumber(b, afterCount, DATA_PACKAGES_COUNT_BS);
      var packages :- ReadPackages(b, afterCount + DATA_PACKAGES_COUNT_BS, count);
      var end := |b| - packages.1;
      Ok(Parsed(packages.0, metadata, JsSlice(b, end - (|b| - packages.1), end)))
  }

  // ---------- Printing then parsing ----------

  /** A package whose feed ids are at most 31 bytes of text without zero bytes, so that they survive zero padding. */
  predicate WireReady(p: SignedPackage) {
    Constructible(p.package.points) && PlainIds(p.package.points)
  }

  predicate PlainIds(points: seq<DataPoint>) {
    forall i :: 0 <= i < |points| ==>
      points[i].feedId.Text? && |points[i].feedId.utf8| <= 31 && 0 !in points[i].feedId.utf8
  }

  lemma {:induction false} StripPadding(text: seq<byte>, n: nat)
    requires 0 !in text
    ensures StripNul(text + Zeros(n)) == text
    decreases |text|, n
  {
    var b := text + Zeros(n);
    if n > 0 {
      assert b[..|b|-1] == text + Zeros(n - 1);
      StripPadding(text, n - 1);
    } else if text != [] {
      assert b == text && b[..|b|-1] == text[..|text|-1] + Zeros(0);
      StripPadding(text[..|text|-1], 0);
      assert text == text[..|text|-1] + [text[|text|-1]];
    }
  }

  lemma ReadsField(b: seq<byte>, before: seq<byte>, field: seq<byte>, after: seq<byte>)
    requires b == before + field + after
    ensures SliceFromEnd(b, |after|, |field|) == field
  {
  }

  lemma ReadsNumber(b: seq<byte>, before: seq<byte>, v: nat, size: nat, after: seq<byte>)
    requires size <= 6 && ConvertIntegerNumberToBytes(v, size).Ok?
    requires b == before + ConvertIntegerNumberToBytes(v, size).value + after
    ensures ExtractNumber(b, |after|, size) == Ok(v)
  {
    hide ConvertIntegerNumberToBytes, SliceFromEnd;
    ReadsField(b, before, ConvertIntegerNumberToBytes(v, size).value, after);
    FieldReadsBack(v, size);
  }

  lemma ReadsPoint(b: seq<byte>, before: seq<byte>, p: DataPoint, after: seq<byte>)
    requires PlainIds([p]) && Serializable(p.feedId)
    requires b == before + PointBytes(p) + after
    ensures ReadPoint(b, |after|, |p.value|) == p
  {
    hide SliceFromEnd, StripNul;
    assert [p][0] == p;
    var id := FeedIdBytes(p.feedId);
    assert b == (before + id) + p.value + after;
    ReadsField(b, before + id, p.value, after);
    assert b == before + id + (p.value + after);
    ReadsField(b, before, id, p.value + after);
    StripPadding(p.feedId.utf8, DATA_FEED_ID_BS - |p.feedId.utf8|);
  }

  lemma {:induction false} ReadsPoints(
    b: seq<byte>, before: seq<byte>, points: seq<DataPoint>, size: nat, after: seq<byte>)
    requires PlainIds(points) && forall i :: 0 <= i < |points| ==> |points[i].value| == size
    requires AllSerializable(points) && b == before + ConcatPoints(points) + after
    ensures ReadPoints(b, |after|, size, |points|) == points
    decreases |points|
  {
    hide ReadPoint, PointBytes;
    if points != [] {
      var front, last := points[..|points|-1], points[|points|-1];
      assert [last][0] == points[|points|-1];
      assert b == (before + ConcatPoints(front)) + PointBytes(last) + after;
      ReadsPoint(b, before + ConcatPoints(front), last, after);
      assert b == before + ConcatPoints(front) + (PointBytes(last) + after);
      ReadsPoints(b, before, front, size, PointBytes(last) + after);
      assert points == front + [last];
    }
  }

  /** What parsing gives back for a printed package: its points in sorted order, and the derived package id. */
  function AsParsed(p: SignedPackage): SignedPackage
    requires SortedPoints(p.package.points).Ok?
  {
    var sorted := SortedPoints(p.package.points).value;
    SignedPackage(Package(sorted, p.package.timestamp, DerivedPackageId(sorted)), p.signature)
  }

  lemma PlainIdsRearranged(points: seq<DataPoint>, other: seq<DataPoint>)
    requires PlainIds(points) && multiset(points) == multiset(other)
    ensures PlainIds(other)
  {
    Sorting.SameElements(points, other);
    assert forall i :: 0 <= i < |other| ==> other[i] in other;
  }

  lemma ReadsSignedPackage(b: seq<byte>, before: seq<byte>, p: SignedPackage, after: seq<byte>)
    requires WireReady(p) && SignedBytes(p).Ok?
    requires b == before + SignedBytes(p).value + after
    ensures ReadSignedPackage(b, |after|) == Ok(AsParsed(p))
  {
    hide SortPoints, ConvertIntegerNumberToBytes, ConcatPoints, DerivedPackageId;
    hide ReadPoints, ExtractNumber, SliceFromEnd;
    var sorted := SortedPoints(p.package.points).value;
    ConstructibleRearranged(p.package.points, sorted);
    PlainIdsRearranged(p.package.points, sorted);
    var valueSize, n := |p.package.points[0].value|, |p.package.points|;
    var points := ConcatPoints(sorted);
    var timestamp := ConvertIntegerNumberToBytes(p.package.timestamp, TIMESTAMP_BS).value;
    var size := ConvertIntegerNumberToBytes(valueSize, DATA_POINT_VALUE_BYTE_SIZE_BS).value;
    var count := ConvertIntegerNumberToBytes(n, DATA_POINTS_COUNT_BS).value;
    var a1 := p.signature + after;
    var a2 := count + a1;
    var a3 := size + a2;
    var a4 := timestamp + a3;
    assert b == (before + points + timestamp + size + count) + p.signature + after;
    ReadsField(b, before + points + timestamp + size + count, p.signature, after);
    assert b == (before + points + timestamp + size) + count + a1;
    ReadsNumber(b, before + points + timestamp + size, n, DATA_POINTS_COUNT_BS, a1);
    assert b == (before + points + timestamp) + size + a2;
    ReadsNumber(b, before + points + timestamp, valueSize, DATA_POINT_VALUE_BYTE_SIZE_BS, a2);
    assert b == (before + points) + timestamp + a3;
    ReadsNumber(b, before + points, p.package.timestamp, TIMESTAMP_BS, a3);
    assert b == before + points + a4;
    ReadsPoints(b, before, sorted, valueSize, a4);
  }

  /** A package that was sorted before prints as the original did and is left alone by sorting again. */
  lemma AsParsedPrintsTheSame(p: SignedPackage)
    requires Constructible(p.package.points) && SortedPoints(p.package.points).Ok?
    ensures Constructible(AsParsed(p).package.points)
    ensures SignedBytes(AsParsed(p)) == SignedBytes(p)
    ensures SortedPoints(AsParsed(p).package.points) == SortedPoints(p.package.points)
  {
    hide SortPoints, ConvertIntegerNumberToBytes, ConcatPoints, DerivedPackageId;
    var sorted := SortedPoints(p.package.points).value;
    ConstructibleRearranged(p.package.points, sorted);
    SortPointsCanonical(p.package.points, sorted);
  }

  predicate AllWireReady(packages: seq<SignedPackage>) {
    forall i :: 0 <= i < |packages| ==> WireReady(packages[i])
  }

  lemma {:induction false} PackagesPrintOneByOne(packages: seq<SignedPackage>)
    requires AllConstructible(packages) && PackagesBytes(packages).Ok?
    ensures forall i :: 0 <= i < |packages| ==>
      SignedBytes(packages[i]).Ok? && SortedPoints(packages[i].package.points).Ok?
  {
    hide SortPoints, WithFooter;
    if packages != [] {
      var front := packages[..|packages|-1];
      PackagesPrintOneByOne(front);
      PrintedWasSorted(packages[|packages|-1]);
      assert forall i :: 0 <= i < |packages| - 1 ==> packages[i] == front[i];
    }
  }

  function AllAsParsed(packages: seq<SignedPackage>): (r: seq<SignedPackage>)
    requires forall i :: 0 <= i < |packages| ==> SortedPoints(packages[i].package.points).Ok?
    ensures |r| == |packages|
  {
    seq(|packages|, i requires 0 <= i < |packages| => AsParsed(packages[i]))
  }

  lemma {:induction false} ReadsPackages(
    b: seq<byte>, before: seq<byte>, packages: seq<SignedPackage>, after: seq<byte>)
    requires AllWireReady(packages) && PackagesBytes(packages).Ok?
    requires b == before + PackagesBytes(packages).value + after
    ensures forall i :: 0 <= i < |packages| ==> SortedPoints(packages[i].package.points).Ok?
    ensures ReadPackages(b, |after|, |packages|) == Ok((AllAsParsed(packages), |b| - |before|))
    decreases |packages|
  {
    hide SignedBytes, SortedPoints, ReadSignedPackage, AsParsed;
    PackagesPrintOneByOne(packages);
    if packages != [] {
      var front, last := packages[..|packages|-1], packages[|packages|-1];
      var frontBytes, lastBytes := PackagesBytes(front).value, SignedBytes(last).value;
      assert b == (before + frontBytes) + lastBytes + after;
      ReadsSignedPackage(b, before + frontBytes, last, after);
      AsParsedPrintsTheSame(last);
      SortingTwice(last);
      assert b == before + frontBytes + (lastBytes + after);
      ReadsPackages(b, before, front, lastBytes + after);
      assert AllAsParsed(packages) == AllAsParsed(front) + [AsParsed(last)];
    } else {
      assert AllAsParsed(packages) == [];
    }
  }

  lemma SortingTwice(p: SignedPackage)
    requires Constructible(p.package.points) && SortedPoints(p.package.points).Ok?
    ensures SortedPoints(AsParsed(p).package.points).Ok? && Resorted(AsParsed(p)) == AsParsed(p)
  {
    hide SortPoints;
    AsParsedPrintsTheSame(p);
  }

  /**
   Round trip: whatever precedes a printed payload, parsing finds exactly its packages in order with their points
   sorted, its metadata, and that prefix.
   */
  lemma ParseUndoesPrint(prefix: seq<byte>, packages: seq<SignedPackage>, metadata: seq<byte>)
    requires AllWireReady(packages) && PayloadBytes(packages, metadata).Ok?
    ensures forall i :: 0 <= i < |packages| ==> SortedPoints(packages[i].package.points).Ok?
    ensures Parse(prefix + PayloadBytes(packages, metadata).value)
      == Ok(Parsed(AllAsParsed(packages), metadata, prefix))
  {
    hide ConvertIntegerNumberToBytes, PackagesBytes, ReadPackages, AllAsParsed, ExtractNumber, SliceFromEnd;
    var b := prefix + PayloadBytes(packages, metadata).value;
    var packageBytes := PackagesBytes(packages).value;
    var count := ConvertIntegerNumberToBytes(|packages|, DATA_PACKAGES_COUNT_BS).value;
    var size := ConvertIntegerNumberToBytes(|metadata|, UNSIGNED_METADATA_BYTE_SIZE_BS).value;
    var a1 := size + REDSTONE_MARKER;
    var a2 := metadata + a1;
    var a3 := count + a2;
    assert b == (prefix + packageBytes + count + metadata + size) + REDSTONE_MARKER + [];
    ReadsField(b, prefix + packageBytes + count + metadata + size, REDSTONE_MARKER, []);
    assert b == (prefix + packageBytes + count + metadata) + size + REDSTONE_MARKER;
    ReadsNumber(b, prefix + packageBytes + count + metadata, |metadata|, UNSIGNED_METADATA_BYTE_SIZE_BS,
                REDSTONE_MARKER);
    assert b == (prefix + packageBytes + count) + metadata + a1;
    ReadsField(b, prefix + packageBytes + count, metadata, a1);
    assert b == (prefix + packageBytes) + count + a2;
    ReadsNumber(b, prefix + packageBytes, |packages|, DATA_PACKAGES_COUNT_BS, a2);
    assert b == prefix + packageBytes + a3;
    ReadsPackages(b, prefix, packages, a3);
    assert JsSlice(b, 0, |prefix|) == prefix by {
      assert b[..|prefix|] == prefix;
    }
  }

  lemma {:induction false} StrippedHasNoNul(b: seq<byte>)
    ensures 0 !in StripNul(b)
  {
    if b != [] {
      StrippedHasNoNul(b[..|b|-1]);
    }
  }

  /** Whatever bytes are read, the points that come out have text ids without zero bytes. */
  lemma {:induction false} ReadPointsHaveText(b: seq<byte>, negativeOffset: nat, size: nat, count: nat)
    ensures forall p :: p in ReadPoints(b, negativeOffset, size, count) ==> p.feedId.Text? && 0 !in p.feedId.utf8
    decreases count
  {
    hide SliceFromEnd, StripNul;
    if count > 0 {
      ReadPointsHaveText(b, negativeOffset + size + DATA_FEED_ID_BS, size, count - 1);
      StrippedHasNoNul(SliceFromEnd(b, negativeOffset + size, DATA_FEED_ID_BS));
    }
  }

  lemma ReadPackageIsPlain(b: seq<byte>, negativeOffset: nat)
    requires var r := ReadSignedPackage(b, negativeOffset);
      r.Ok? && SortedPoints(r.value.package.points).Ok?
    ensures PlainIds(Resorted(ReadSignedPackage(b, negativeOffset).value).package.points)
  {
    hide SortPoints, ExtractNumber, SliceFromEnd, ReadPoints;
    var points := ReadSignedPackage(b, negativeOffset).value.package.points;
    var sorted := SortedPoints(points).value;
    var size := ExtractNumber(b, negativeOffset + 68, DATA_POINT_VALUE_BYTE_SIZE_BS).value;
    ReadPointsHaveText(b, negativeOffset + 78, size, |points|);
    Sorting.SameElements(points, sorted);
    assert forall i :: 0 <= i < |sorted| ==> sorted[i] in sorted && Serializable(sorted[i].feedId);
  }

  lemma {:induction false} ReadPackagesArePlain(b: seq<byte>, negativeOffset: nat, count: nat)
    requires ReadPackages(b, negativeOffset, count).Ok?
    ensures forall p :: p in ReadPackages(b, negativeOffset, count).value.0 ==> PlainIds(p.package.points)
    decreases count
  {
    hide SignedBytes, SortedPoints, ReadSignedPackage, PlainIds;
    if count > 0 {
      var last := ReadSignedPackage(b, negativeOffset).value;
      var bytes := SignedBytes(last).value;
      PrintedWasSorted(last);
      ReadPackageIsPlain(b, negativeOffset);
      ReadPackagesArePlain(b, negativeOffset + |bytes|, count - 1);
    }
  }

  /**
   The round trip holds for exactly the payloads whose feed ids are plain text of at most 31 bytes: hashed ids and
   ids with zero bytes never come back.
   */
  lemma RoundTripExactly(prefix: seq<byte>, packages: seq<SignedPackage>, metadata: seq<byte>)
    requires AllConstructible(packages) && PayloadBytes(packages, metadata).Ok?
    ensures forall i :: 0 <= i < |packages| ==> SortedPoints(packages[i].package.points).Ok?
    ensures AllWireReady(packages) <==>
      Parse(prefix + PayloadBytes(packages, metadata).value) == Ok(Parsed(AllAsParsed(packages), metadata, prefix))
  {
    hide PayloadBytes, ReadPackages, SortedPoints, ExtractNumber, PlainIds, SliceFromEnd;
    PayloadPrintsPackages(packages, metadata);
    if AllWireReady(packages) {
      ParseUndoesPrint(prefix, packages, metadata);
    }
    var b := prefix + PayloadBytes(packages, metadata).value;
    if Parse(b) == Ok(Parsed(AllAsParsed(packages), metadata, prefix)) {
      var size := ExtractNumber(b, REDSTONE_MARKER_BS, UNSIGNED_METADATA_BYTE_SIZE_BS).value;
      var read := |SliceFromEnd(b, REDSTONE_MARKER_BS + UNSIGNED_METADATA_BYTE_SIZE_BS, size)| + 12;
      var count := ExtractNumber(b, read, DATA_PACKAGES_COUNT_BS).value;
      ReadPackagesArePlain(b, read + DATA_PACKAGES_COUNT_BS, count);
      forall i | 0 <= i < |packages| ensures WireReady(packages[i]) {
        assert AllAsParsed(packages)[i] == AsParsed(packages[i]);
        assert AsParsed(packages[i]) in AllAsParsed(packages);
        PlainIdsRearranged(AsParsed(packages[i]).package.points, packages[i].package.points);
      }
    }
  }

  lemma PayloadPrintsPackages(packages: seq<SignedPackage>, metadata: seq<byte>)
    requires AllConstructible(packages) && PayloadBytes(packages, metadata).Ok?
    ensures PackagesBytes(packages).Ok?
    ensures forall i :: 0 <= i < |packages| ==> SortedPoints(packages[i].package.points).Ok?
  {
    hide PackagesBytes, SortedPoints;
    PackagesPrintOneByOne(packages);
  }

  /** The encoding is unambiguous from the right: equal bytes mean equal prefix, metadata and packages. */
  lemma Unambiguous(prefix: seq<byte>, packages: seq<SignedPackage>, metadata: seq<byte>,
                    prefix': seq<byte>, packages': seq<SignedPackage>, metadata': seq<byte>)
    requires AllWireReady(packages) && PayloadBytes(packages, metadata).Ok?
    requires AllWireReady(packages') && PayloadBytes(packages', metadata').Ok?
    requires prefix + PayloadBytes(packages, metadata).value == prefix' + PayloadBytes(packages', metadata').value
    ensures prefix == prefix' && metadata == metadata' && |packages| == |packages'|
    ensures forall i :: 0 <= i < |packages| ==>
      && packages[i].signature == packages'[i].signature
      && packages[i].package.timestamp == packages'[i].package.timestamp
      && multiset(packages[i].package.points) == multiset(packages'[i].package.points)
  {
    hide Parse, PayloadBytes, SortedPoints;
    ParseUndoesPrint(prefix, packages, metadata);
    ParseUndoesPrint(prefix', packages', metadata');
    forall i | 0 <= i < |packages|
      ensures packages[i].signature == packages'[i].signature
        && packages[i].package.timestamp == packages'[i].package.timestamp
        && multiset(packages[i].package.points) == multiset(packages'[i].package.points)
    {
      assert AllAsParsed(packages)[i] == AsParsed(packages[i]);
      assert AllAsParsed(packages')[i] == AsParsed(packages'[i]);
    }
  }

  /** A single-point package gets its feed id back; any other gets the multi-point id. */
  lemma {:induction false} DerivedIdMeaning(points: seq<DataPoint>)
    requires points != [] && PlainIds(points) && forall i :: 0 <= i < |points| ==> points[i].feedId.utf8 != []
    requires forall i, j :: 0 <= i < j < |points| ==> points[i].feedId != points[j].feedId
    ensures DerivedPackageId(points) == if |points| == 1 then points[0].feedId.utf8
      else [0x5f, 0x5f, 0x4d, 0x55, 0x4c, 0x54, 0x49, 0x5f, 0x50, 0x4f, 0x49, 0x4e, 0x54, 0x5f, 0x5f]
  {
    var n := |points|;
    var front, id := points[..n-1], points[n-1].feedId.utf8;
    assert PackageIdFrom(points, []) == PackageIdFrom(front, id);
    if n > 1 {
      assert front[n-2] == points[n-2];
      assert points[n-2].feedId != points[n-1].feedId;
      assert PackageIdFrom(front, id) == PackageIdFrom(front[..n-2], MULTI_POINT);
      StaysMultiPoint(front[..n-2]);
    }
  }

  lemma {:induction false} StaysMultiPoint(points: seq<DataPoint>)
    ensures PackageIdFrom(points, MULTI_POINT) == MULTI_POINT
  {
    if points != [] {
      StaysMultiPoint(points[..|points|-1]);
    }
  }

  // ---------- The parser object ----------

  class Parser {
    const bytesData: seq<byte>

    constructor (bytesData: seq<byte>)
      ensures this.bytesData == bytesData
    {
      this.bytesData := bytesData;
    }

    /** Points are met from the last to the first, so each goes to the front. */
    method ExtractDataPoints(initialNegativeOffset: nat, valueSize: nat, dataPointsCount: nat)
      returns (dataPoints: seq<DataPoint>, dataPackageId: seq<byte>)
      ensures dataPoints == ReadPoints(bytesData, initialNegativeOffset, valueSize, dataPointsCount)
      ensures dataPackageId == DerivedPackageId(dataPoints)
    {
      hide ReadPoint, ReadPoints, PackageIdFrom, NextPackageId;
      var negativeOffset: nat := initialNegativeOffset;
      dataPoints, dataPackageId := [], [];
      ghost var all := ReadPoints(bytesData, negativeOffset, valueSize, dataPointsCount);
      assert all + [] == all;
      for i := 0 to dataPointsCount
        invariant |dataPoints| == i
        invariant all == ReadPoints(bytesData, negativeOffset, valueSize, dataPointsCount - i) + dataPoints
        invariant PackageIdFrom(all, [])
          == PackageIdFrom(ReadPoints(bytesData, negativeOffset, valueSize, dataPointsCount - i), dataPackageId)
      {
        var point := ReadPoint(bytesData, negativeOffset, valueSize);
        negativeOffset := negativeOffset + valueSize + DATA_FEED_ID_BS;
        ghost var front := ReadPoints(bytesData, negativeOffset, valueSize, dataPointsCount - i - 1);
        LastPointRead(bytesData, negativeOffset - valueSize - DATA_FEED_ID_BS, valueSize, dataPointsCount - i);
        LastPointNamed(front, point, dataPackageId);
        if dataPackageId == [] {
          dataPackageId := FeedText(point);
        } else if dataPackageId != FeedText(point) {
          dataPackageId := MULTI_POINT;
        }
        assert front + ([point] + dataPoints) == front + [point] + dataPoints;
        dataPoints := [point] + dataPoints;
      }
      NoPointsLeft(bytesData, negativeOffset, valueSize, dataPointsCount, dataPackageId);
      assert [] + dataPoints == dataPoints;
      if dataPackageId == [] {
        dataPackageId := EMPTY_ID;
      }
    }

    method ExtractSignedDataPackage(initialNegativeOffset: nat) returns (r: Result<SignedPackage>)
      ensures r == ReadSignedPackage(bytesData, initialNegativeOffset)
    {
      hide SliceFromEnd, ExtractNumber, ReadPoints, DerivedPackageId;
      var negativeOffset: nat := initialNegativeOffset;
      var signature := SliceFromEnd(bytesData, negativeOffset, SIGNATURE_BS);
      negativeOffset := negativeOffset + SIGNATURE_BS;
      var dataPointsCount :- ExtractNumber(bytesData, negativeOffset, DATA_POINTS_COUNT_BS);
      negativeOffset := negativeOffset + DATA_POINTS_COUNT_BS;
      var valueSize :- ExtractNumber(bytesData, negativeOffset, DATA_POINT_VALUE_BYTE_SIZE_BS);
      negativeOffset := negativeOffset + DATA_POINT_VALUE_BYTE_SIZE_BS;
      var timestamp :- ExtractNumber(bytesData, negativeOffset, TIMESTAMP_BS);
      negativeOffset := negativeOffset + TIMESTAMP_BS;
      var dataPoints, dataPackageId := ExtractDataPoints(negativeOffset, valueSize, dataPointsCount);
      if !Constructible(dataPoints) {
        return Err("Can not create a data package");
      }
      if |signature| != SIGNATURE_BS {
        return Err("invalid signature");
      }
      return Ok(SignedPackage(Package(dataPoints, timestamp, dataPackageId), signature));
    }

    method ParsePayload() returns (r: Result<Parsed>)
      ensures r == Parse(bytesData)
    {
      hide SliceFromEnd, ExtractNumber, ReadSignedPackage, SignedBytes, SortedPoints;
      if SliceFromEnd(bytesData, 0, REDSTONE_MARKER_BS) != REDSTONE_MARKER {
        return Err("Received invalid redstone marker");
      }
      var size :- ExtractNumber(bytesData, REDSTONE_MARKER_BS, UNSIGNED_METADATA_BYTE_SIZE_BS);
      var metadata := SliceFromEnd(bytesData, REDSTONE_MARKER_BS + UNSIGNED_METADATA_BYTE_SIZE_BS, size);
      var negativeOffset: nat := |metadata| + UNSIGNED_METADATA_BYTE_SIZE_BS + REDSTONE_MARKER_BS;
      var count :- ExtractNumber(bytesData, negativeOffset, DATA_PACKAGES_COUNT_BS);
      negativeOffset := negativeOffset + DATA_PACKAGES_COUNT_BS;
      var packages: seq<SignedPackage> := [];
      ghost var all := ReadPackages(bytesData, negativeOffset, count);
      AppendNothing(all);
      for i := 0 to count
        invariant |packages| == i
        invariant all == Append(ReadPackages(bytesData, negativeOffset, count - i), Reversed(packages))
      {
        var extracted := ExtractSignedDataPackage(negativeOffset);
        if extracted.Err? {
          return Err(extracted.message);
        }
        var bytes := SignedBytes(extracted.value);
        if bytes.Err? {
          return Err(bytes.message);
        }
        PrintedWasSorted(extracted.value);
        AppendTwice(ReadPackages(bytesData, negativeOffset + |bytes.value|, count - i - 1),
          [Resorted(extracted.value)], Reversed(packages));
        ReversedAppend(packages, Resorted(extracted.value));
        packages := packages + [Resorted(extracted.value)];
        negativeOffset := negativeOffset + |bytes.value|;
      }
      var end := |bytesData| - negativeOffset;
      var remainderPrefix := JsSlice(bytesData, end - (|bytesData| - negativeOffset), end);
      var reversed := Reversed(packages);
      assert [] + reversed == reversed;
      return Ok(Parsed(reversed, metadata, remainderPrefix));
    }
  }

  lemma LastPointRead(b: seq<byte>, negativeOffset: nat, size: nat, count: nat)
    requires count > 0
    ensures ReadPoints(b, negativeOffset, size, count)
      == ReadPoints(b, negativeOffset + size + DATA_FEED_ID_BS, size, count - 1) + [ReadPoint(b, negativeOffset, size)]
  {
  }

  lemma LastPointNamed(front: seq<DataPoint>, p: DataPoint, id: seq<byte>)
    ensures PackageIdFrom(front + [p], id)
      == PackageIdFrom(front, if id == [] then FeedText(p) else if id != FeedText(p) then MULTI_POINT else id)
  {
    assert (front + [p])[..|front|] == front;
  }

  lemma NoPointsLeft(b: seq<byte>, negativeOffset: nat, size: nat, count: nat, id: seq<byte>)
    ensures ReadPoints(b, negativeOffset, size, count - count) == [] && PackageIdFrom([], id) == id
  {
  }

  function Reversed<T>(s: seq<T>): seq<T> {
    if s == [] then [] else [s[|s|-1]] + Reversed(s[..|s|-1])
  }

  lemma ReversedAppend<T>(s: seq<T>, x: T)
    ensures Reversed(s + [x]) == [x] + Reversed(s)
  {
  }

  lemma AppendTwice(read: Result<(seq<SignedPackage>, nat)>, more: seq<SignedPackage>, rest: seq<SignedPackage>)
    ensures Append(Append(read, more), rest) == Append(read, more + rest)
  {
    if read.Ok? {
      assert read.value.0 + more + rest == read.value.0 + (more + rest);
    }
  }

  lemma AppendNothing(read: Result<(seq<SignedPackage>, nat)>)
    ensures Append(read, []) == read
  {
    if read.Ok? {
      assert read.value.0 + [] == read.value.0;
    }
  }

  lemma PrintedWasSorted(p: SignedPackage)
    requires Constructible(p.package.points) && SignedBytes(p).Ok?
    ensures SortedPoints(p.package.points).Ok?
  {
  }
}
