/** Signed data packages and the payload that is appended to a transaction: the printing side. */
module RedstonePayload {
  import opened Outcomes
  import opened Bytes
  import opened DataPackages
  import Sorting

  type Signature = s: seq<byte> | |s| == SIGNATURE_BS witness Zeros(SIGNATURE_BS)

  datatype SignedPackage = SignedPackage(package: Package, signature: Signature)

  predicate AllConstructible(packages: seq<SignedPackage>) {
    forall i :: 0 <= i < |packages| ==> Constructible(packages[i].package.points)
  }

  function SignedBytes(p: SignedPackage): Result<seq<byte>>
    requires Constructible(p.package.points)
  {
    var bytes :- PackageBytes(p.package);
    Ok(bytes + p.signature)
  }

  /** All packages one after another. */
  function PackagesBytes(packages: seq<SignedPackage>): Result<seq<byte>>
    requires AllConstructible(packages)
  {
    if packages == [] then Ok([])
    else
      var front :- PackagesBytes(packages[..|packages|-1]);
      var last :- SignedBytes(packages[|packages|-1]);
      Ok(front + last)
  }

  /** Packages, their count, the metadata, its size and the marker. */
  function PayloadBytes(packages: seq<SignedPackage>, metadata: seq<byte>): Result<seq<byte>>
    requires AllConstructible(packages)
  {
    var packageBytes :- PackagesBytes(packages);
    var count :- ConvertIntegerNumberToBytes(|packages|, DATA_PACKAGES_COUNT_BS);
    var size :- ConvertIntegerNumberToBytes(|metadata|, UNSIGNED_METADATA_BYTE_SIZE_BS);
    Ok(packageBytes + count + metadata + size + REDSTONE_MARKER)
  }

  /** Length of one package on the wire. */
  function SignedLength(p: SignedPackage): nat
    requires Constructible(p.package.points)
  {
    |p.package.points| * (DATA_FEED_ID_BS + |p.package.points[0].value|)
      + TIMESTAMP_BS + DATA_POINT_VALUE_BYTE_SIZE_BS + DATA_POINTS_COUNT_BS + SIGNATURE_BS
  }

  lemma SignedBytesLength(p: SignedPackage)
    requires Constructible(p.package.points) && SignedBytes(p).Ok?
    ensures |SignedBytes(p).value| == SignedLength(p)
  {
    hide SortPoints, ConvertIntegerNumberToBytes, ConcatPoints;
    var sorted := SortedPoints(p.package.points).value;
    ConstructibleRearranged(p.package.points, sorted);
    ConcatPointsLength(sorted, |p.package.points[0].value|);
  }

  // ---------- Where everything lies ----------

  /** Bytes of one signed package: its points, 13 bytes of numbers and 65 of signature. */
  function WireLength(p: SignedPackage): nat
    requires Constructible(p.package.points)
  {
    |p.package.points| * (32 + |p.package.points[0].value|) + 78
  }

  /** Where the i-th package begins. */
  function StartOf(packages: seq<SignedPackage>, i: nat): nat
    requires AllConstructible(packages) && i <= |packages|
  {
    if i == 0 then 0 else StartOf(packages, i - 1) + WireLength(packages[i-1])
  }

  /** `b` is a package, with its points in dictionary order of their ids, and the signature behind it. */
  ghost predicate IsSignedPackage(b: seq<byte>, p: SignedPackage) {
    exists order :: IsSignedInOrder(b, p, order)
  }

  ghost predicate IsSignedInOrder(b: seq<byte>, p: SignedPackage, order: seq<DataPoint>) {
    && Constructible(p.package.points) && |b| == WireLength(p)
    && multiset(order) == multiset(p.package.points) && InDictionaryOrder(order)
    && LaidOut(b[..|b|-65], order, |p.package.points[0].value|, p.package.timestamp)
    && b[|b|-65..] == p.signature
  }

  ghost predicate HoldsPackage(b: seq<byte>, at: nat, p: SignedPackage) {
    Constructible(p.package.points) && at + WireLength(p) <= |b| && IsSignedPackage(b[at..at+WireLength(p)], p)
  }

  lemma SignedBytesHold(p: SignedPackage)
    requires Constructible(p.package.points) && SignedBytes(p).Ok?
    ensures IsSignedPackage(SignedBytes(p).value, p)
  {
    PackageLayout(p.package);
    hide InDictionaryOrder, PackageBytes, SortedPoints;
    var b, order := SignedBytes(p).value, SortedPoints(p.package.points).value;
    assert |order| == |p.package.points| by { Sorting.SameElements(p.package.points, order); }
    assert b[..|b|-65] == PackageBytes(p.package).value && b[|b|-65..] == p.signature;
    assert IsSignedInOrder(b, p, order);
  }

  lemma HoldsThere(before: seq<byte>, b: seq<byte>, after: seq<byte>, p: SignedPackage)
    requires IsSignedPackage(b, p) && |b| == WireLength(p) && Constructible(p.package.points)
    ensures HoldsPackage(before + b + after, |before|, p)
  {
    hide IsSignedPackage, WireLength;
    assert (before + b + after)[|before|..|before|+|b|] == b;
  }

  lemma {:induction false} StartOfFront(packages: seq<SignedPackage>, n: nat, i: nat)
    requires AllConstructible(packages) && i <= n <= |packages|
    ensures AllConstructible(packages[..n]) && StartOf(packages[..n], i) == StartOf(packages, i)
  {
    if i > 0 {
      StartOfFront(packages, n, i - 1);
    }
  }

  lemma {:induction false} PackagesHold(packages: seq<SignedPackage>, i: nat, after: seq<byte>)
    requires AllConstructible(packages) && PackagesBytes(packages).Ok? && i <= |packages|
    ensures |PackagesBytes(packages).value| == StartOf(packages, |packages|)
    ensures i < |packages| ==> HoldsPackage(PackagesBytes(packages).value + after, StartOf(packages, i), packages[i])
    decreases |packages|
  {
    hide SignedBytes, HoldsPackage, WireLength, IsSignedPackage;
    if packages != [] {
      var n := |packages| - 1;
      var front, last := packages[..n], packages[n];
      var bytes := SignedBytes(last).value;
      StartOfFront(packages, n, n);
      SignedBytesHold(last);
      SignedIsWireLength(last, bytes);
      if i < n {
        StartOfFront(packages, n, i);
        PackagesHold(front, i, bytes + after);
        assert PackagesBytes(front).value + (bytes + after) == PackagesBytes(packages).value + after;
      } else {
        PackagesHold(front, n, []);
        HoldsThere(PackagesBytes(front).value, bytes, after, last);
      }
    }
  }

  lemma SignedIsWireLength(p: SignedPackage, b: seq<byte>)
    requires IsSignedPackage(b, p)
    ensures Constructible(p.package.points) && |b| == WireLength(p)
  {
  }

  /** From `end` on: two bytes of count, the metadata, three bytes with its length, and the marker. */
  ghost predicate HoldsTail(b: seq<byte>, end: nat, count: nat, metadata: seq<byte>) {
    && |b| == end + |metadata| + 14
    && ToNat(b[end..end+2]) == count && b[end+2..end+2+|metadata|] == metadata
    && ToNat(b[|b|-12..|b|-9]) == |metadata|
    && b[|b|-9..] == [0x00, 0x00, 0x02, 0xed, 0x57, 0x01, 0x1e, 0x00, 0x00]
  }

  /** Where everything lies in a payload: the signed packages one after another, and behind the last one the tail. */
  lemma PayloadLayout(packages: seq<SignedPackage>, metadata: seq<byte>)
    requires AllConstructible(packages) && PayloadBytes(packages, metadata).Ok?
    ensures var b := PayloadBytes(packages, metadata).value;
      && (forall i :: 0 <= i < |packages| ==> HoldsPackage(b, StartOf(packages, i), packages[i]))
      && HoldsTail(b, StartOf(packages, |packages|), |packages|, metadata)
  {
    hide *;
    var count, size := PayloadParts(packages, metadata);
    var front, b := PackagesBytes(packages).value, PayloadBytes(packages, metadata).value;
    var tail := count + metadata + size + REDSTONE_MARKER;
    TailHolds(front, count, metadata, size, |packages|);
    PackagesHold(packages, |packages|, []);
    forall i | 0 <= i < |packages| ensures HoldsPackage(b, StartOf(packages, i), packages[i]) {
      PackagesHold(packages, i, tail);
    }
  }

  lemma PayloadParts(packages: seq<SignedPackage>, metadata: seq<byte>) returns (count: seq<byte>, size: seq<byte>)
    requires AllConstructible(packages) && PayloadBytes(packages, metadata).Ok?
    ensures PackagesBytes(packages).Ok? && |count| == 2 && |size| == 3
    ensures ToNat(count) == |packages| && ToNat(size) == |metadata|
    ensures PayloadBytes(packages, metadata).value
      == PackagesBytes(packages).value + (count + metadata + size + REDSTONE_MARKER)
  {
    hide PackagesBytes;
    count := ConvertIntegerNumberToBytes(|packages|, 2).value;
    size := ConvertIntegerNumberToBytes(|metadata|, 3).value;
  }

  lemma TailFields(front: seq<byte>, count: seq<byte>, metadata: seq<byte>, size: seq<byte>)
    requires |count| == 2 && |size| == 3
    ensures var b, end := front + (count + metadata + size + REDSTONE_MARKER), |front|;
      && |b| == end + |metadata| + 14
      && b[end..end+2] == count && b[end+2..end+2+|metadata|] == metadata
      && b[|b|-12..|b|-9] == size && b[|b|-9..] == REDSTONE_MARKER
  {
  }

  lemma TailHolds(front: seq<byte>, count: seq<byte>, metadata: seq<byte>, size: seq<byte>, n: nat)
    requires |count| == 2 && |size| == 3 && ToNat(count) == n && ToNat(size) == |metadata|
    ensures HoldsTail(front + (count + metadata + size + REDSTONE_MARKER), |front|, n, metadata)
  {
    TailFields(front, count, metadata, size);
    var b := front + (count + metadata + size + REDSTONE_MARKER);
    SameNumber(b[|front|..|front|+2], count, n);
    SameNumber(b[|b|-12..|b|-9], size, |metadata|);
  }

  lemma SameNumber(a: seq<byte>, b: seq<byte>, n: nat)
    requires a == b && ToNat(b) == n
    ensures ToNat(a) == n
  {
  }
}
