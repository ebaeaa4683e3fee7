/** What parsing arbitrary bytes can return: something that prints, and that parses to itself again. */
module PayloadNormalForm {
  import opened Outcomes
  import opened Bytes
  import opened DataPackages
  import opened RedstonePayload
  import opened RedstonePayloadParser

  /** A slice is never longer than asked for, also where negative positions wrap around. */
  lemma SliceAtMost(b: seq<byte>, negativeOffset: nat, length: nat)
    ensures |SliceFromEnd(b, negativeOffset, length)| <= length
  {
  }

  lemma NumberFits(b: seq<byte>, negativeOffset: nat, length: nat)
    requires ExtractNumber(b, negativeOffset, length).Ok?
    ensures ExtractNumber(b, negativeOffset, length).value < Pow256(length)
  {
    hide SliceFromEnd, ToNat;
    var field := SliceFromEnd(b, negativeOffset, length);
    SliceAtMost(b, negativeOffset, length);
    ToNatBound(field);
    Pow256Monotone(|field|, length);
  }

  /** A package as parsing leaves it: its ids are plain text, its points sorted, and it prints. */
  ghost predicate IsNormal(p: SignedPackage) {
    && WireReady(p) && SortedPoints(p.package.points) == Ok(p.package.points)
    && SignedBytes(p).Ok?
  }

  lemma ReadIsNormal(b: seq<byte>, negativeOffset: nat)
    requires ReadSignedPackage(b, negativeOffset).Ok? && SignedBytes(ReadSignedPackage(b, negativeOffset).value).Ok?
    ensures var p := ReadSignedPackage(b, negativeOffset).value;
      SortedPoints(p.package.points).Ok? && IsNormal(Resorted(p))
  {
    hide ReadSignedPackage, SortPoints, WithFooter, PlainIds;
    var p := ReadSignedPackage(b, negativeOffset).value;
    PrintedWasSorted(p);
    ReadPackageIsPlain(b, negativeOffset);
    ConstructibleRearranged(p.package.points, SortedPoints(p.package.points).value);
    AsParsedPrintsTheSame(p);
    SortPointsCanonical(p.package.points, SortedPoints(p.package.points).value);
  }

  lemma {:induction false} ReadAreNormal(b: seq<byte>, negativeOffset: nat, count: nat)
    requires ReadPackages(b, negativeOffset, count).Ok?
    ensures var packages := ReadPackages(b, negativeOffset, count).value.0;
      |packages| == count && forall i :: 0 <= i < |packages| ==> IsNormal(packages[i])
    decreases count
  {
    hide SignedBytes, SortedPoints, ReadSignedPackage, IsNormal;
    if count > 0 {
      var last := ReadSignedPackage(b, negativeOffset).value;
      ReadIsNormal(b, negativeOffset);
      ReadAreNormal(b, negativeOffset + |SignedBytes(last).value|, count - 1);
    }
  }

  lemma {:induction false} NormalPackagesPrint(packages: seq<SignedPackage>)
    requires forall i :: 0 <= i < |packages| ==> IsNormal(packages[i])
    ensures AllConstructible(packages) && AllWireReady(packages) && PackagesBytes(packages).Ok?
  {
    hide SignedBytes, PlainIds, SortedPoints;
    if packages != [] {
      NormalPackagesPrint(packages[..|packages|-1]);
    }
  }

  /** Two packages that differ in nothing but, perhaps, the package id, which is not on the wire. */
  predicate SameOnTheWire(p: SignedPackage, q: SignedPackage) {
    p.signature == q.signature && p.package.points == q.package.points && p.package.timestamp == q.package.timestamp
  }

  /**
   Whatever bytes are parsed, the result can be printed, and parsing that print behind the same prefix gives it back:
   the same points in the same order, timestamps, signatures, metadata and prefix.
   */
  lemma ParsedIsStable(b: seq<byte>)
    requires Parse(b).Ok?
    ensures var r := Parse(b).value;
      && AllConstructible(r.packages) && PayloadBytes(r.packages, r.metadata).Ok?
      && var again := Parse(r.prefix + PayloadBytes(r.packages, r.metadata).value);
        && again.Ok? && again.value.prefix == r.prefix && again.value.metadata == r.metadata
        && |again.value.packages| == |r.packages|
        && forall i :: 0 <= i < |r.packages| ==> SameOnTheWire(again.value.packages[i], r.packages[i])
  {
    var r := Parse(b).value;
    ParsedPrints(b);
    hide Parse, PayloadBytes, IsNormal;
    ParseUndoesPrint(r.prefix, r.packages, r.metadata);
    forall i | 0 <= i < |r.packages| ensures SameOnTheWire(AllAsParsed(r.packages)[i], r.packages[i]) {
      NormalIsKept(r.packages[i]);
    }
  }

  lemma NormalIsKept(p: SignedPackage)
    requires IsNormal(p)
    ensures SortedPoints(p.package.points).Ok? && SameOnTheWire(AsParsed(p), p)
  {
  }

  lemma ParsedPrints(b: seq<byte>)
    requires Parse(b).Ok?
    ensures var r := Parse(b).value;
      && (forall i :: 0 <= i < |r.packages| ==> IsNormal(r.packages[i]))
      && AllConstructible(r.packages) && AllWireReady(r.packages) && PayloadBytes(r.packages, r.metadata).Ok?
  {
    hide ReadPackages, IsNormal, ExtractNumber, SliceFromEnd, PackagesBytes;
    var r := Parse(b).value;
    var size := ExtractNumber(b, REDSTONE_MARKER_BS, UNSIGNED_METADATA_BYTE_SIZE_BS).value;
    NumberFits(b, REDSTONE_MARKER_BS, UNSIGNED_METADATA_BYTE_SIZE_BS);
    SliceAtMost(b, REDSTONE_MARKER_BS + UNSIGNED_METADATA_BYTE_SIZE_BS, size);
    var afterCount := |r.metadata| + 12;
    NumberFits(b, afterCount, DATA_PACKAGES_COUNT_BS);
    var count := ExtractNumber(b, afterCount, DATA_PACKAGES_COUNT_BS).value;
    ReadAreNormal(b, afterCount + DATA_PACKAGES_COUNT_BS, count);
    NormalPackagesPrint(r.packages);
  }

  /** Nothing is parsed that does not end in the marker. */
  lemma ParsedEndsInMarker(b: seq<byte>)
    requires Parse(b).Ok?
    ensures |b| >= 14 && b[|b|-9..] == [0x00, 0x00, 0x02, 0xed, 0x57, 0x01, 0x1e, 0x00, 0x00]
  {
    hide ReadPackages, ToNat;
  }
}
