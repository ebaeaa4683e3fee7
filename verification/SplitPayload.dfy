/**
 Consumers of the payload layout: the splitter that cuts a hexadecimal payload into one chunk per package, and the
 padding that makes a payload a multiple of 32 bytes.
 */
module SplitPayload {
  import opened Outcomes
  import opened Bytes
  import opened DataPackages
  import opened RedstonePayload
  import opened RedstonePayloadParser

  // ---------- Hexadecimal strings ----------

  type HexDigit = x: int | 0 <= x < 16

  function Hex(b: seq<byte>): (h: seq<HexDigit>)
    ensures |h| == 2 * |b|
  {
    if b == [] then [] else Hex(b[..|b|-1]) + [b[|b|-1] / 16, b[|b|-1] % 16]
  }

  /** Value of a hexadecimal string; no digits at all are not a number. */
  function HexToNat(h: seq<HexDigit>): nat {
    if h == [] then 0 else HexToNat(h[..|h|-1]) * 16 + h[|h|-1]
  }

  function ParseHex(h: seq<HexDigit>): Result<nat> {
    if h == [] then Err("invalid BigNumber string")
    else if HexToNat(h) > MAX_SAFE_INTEGER then Err("overflow")
    else Ok(HexToNat(h))
  }

  /** `substring(start, end)`: positions are clamped to the string and swapped when out of order. */
  function Substring(h: seq<HexDigit>, start: int, end: int): seq<HexDigit> {
    var clamp := (i: int) => if i < 0 then 0 else if i > |h| then |h| else i;
    var lo, hi := clamp(start), clamp(end);
    if lo <= hi then h[lo..hi] else h[hi..lo]
  }

  lemma {:induction false} HexConcat(a: seq<byte>, b: seq<byte>)
    ensures Hex(a + b) == Hex(a) + Hex(b)
  {
    if b == [] {
      assert a + b == a;
    } else {
      var init := b[..|b|-1];
      HexConcat(a, init);
      assert (a + b)[..|a + b|-1] == a + init;
    }
  }

  lemma {:induction false} HexToNatOfHex(b: seq<byte>)
    ensures HexToNat(Hex(b)) == ToNat(b)
  {
    if b != [] {
      var h, last := Hex(b[..|b|-1]), b[|b|-1];
      HexToNatOfHex(b[..|b|-1]);
      assert Hex(b)[..|Hex(b)|-1] == h + [last / 16];
      assert (h + [last / 16])[..|h|] == h;
    }
  }

  lemma HexField(h: seq<HexDigit>, before: seq<byte>, field: seq<byte>, after: seq<byte>)
    requires h == Hex(before + field + after)
    ensures Substring(h, 2 * |before|, 2 * (|before| + |field|)) == Hex(field)
  {
    HexConcat(before + field, after);
    HexConcat(before, field);
    assert h[2 * |before|..2 * (|before| + |field|)] == Hex(field);
  }

  // ---------- The splitter ----------

  const SPLIT_PACKAGE_BS := 142

  datatype Split = Split(dataPackageChunks: seq<seq<HexDigit>>, metadata: seq<HexDigit>)

  function ChunkAt(h: seq<HexDigit>, i: nat): seq<HexDigit> {
    Substring(h, i * 2 * SPLIT_PACKAGE_BS, (i + 1) * 2 * SPLIT_PACKAGE_BS)
  }

  function SplitMetadataSize(h: seq<HexDigit>): Result<nat> {
    ParseHex(Substring(h, |h| - 2 * (REDSTONE_MARKER_BS + UNSIGNED_METADATA_BYTE_SIZE_BS),
                       |h| - 2 * REDSTONE_MARKER_BS))
  }

  function Chunks(h: seq<HexDigit>, count: nat): (chunks: seq<seq<HexDigit>>)
    ensures |chunks| == count
  {
    if count == 0 then [] else Chunks(h, count - 1) + [ChunkAt(h, count - 1)]
  }

  function SplitOf(h: seq<HexDigit>): Result<Split> {
    var size :- SplitMetadataSize(h);
    var metadataBS := REDSTONE_MARKER_BS + UNSIGNED_METADATA_BYTE_SIZE_BS + size + DATA_PACKAGES_COUNT_BS;
    var metadata := Substring(h, |h| - 2 * metadataBS, |h|);
    var count :- ParseHex(Substring(metadata, 0, DATA_PACKAGES_COUNT_BS * 2));
    if |h| - 2 * metadataBS != 2 * SPLIT_PACKAGE_BS * count then Err("Must be implemented for multi-datapoint packages")
    else Ok(Split(Chunks(h, count), metadata))
  }

  method SplitPayloadHex(payloadHex: seq<HexDigit>) returns (r: Result<Split>)
    ensures r == SplitOf(payloadHex)
  {
    hide Substring, ParseHex;
    var size :- SplitMetadataSize(payloadHex);
    var metadataBS := REDSTONE_MARKER_BS + UNSIGNED_METADATA_BYTE_SIZE_BS + size + DATA_PACKAGES_COUNT_BS;
    var metadata := Substring(payloadHex, |payloadHex| - 2 * metadataBS, |payloadHex|);
    var dataPackageCount :- ParseHex(Substring(metadata, 0, DATA_PACKAGES_COUNT_BS * 2));
    if |payloadHex| - 2 * metadataBS != 2 * SPLIT_PACKAGE_BS * dataPackageCount {
      return Err("Must be implemented for multi-datapoint packages");
    }
    var dataPackageChunks := [];
    for i := 0 to dataPackageCount
      invariant dataPackageChunks == Chunks(payloadHex, i)
    {
      dataPackageChunks := dataPackageChunks + [ChunkAt(payloadHex, i)];
    }
    return Ok(Split(dataPackageChunks, metadata));
  }

  // ---------- What the splitter does to a printed payload ----------

  /** Everything of a payload after its packages. */
  function FooterBytes(packages: seq<SignedPackage>, metadata: seq<byte>): seq<byte>
    requires AllConstructible(packages) && PayloadBytes(packages, metadata).Ok?
  {
    ConvertIntegerNumberToBytes(|packages|, DATA_PACKAGES_COUNT_BS).value + metadata
      + ConvertIntegerNumberToBytes(|metadata|, UNSIGNED_METADATA_BYTE_SIZE_BS).value + REDSTONE_MARKER
  }

  lemma HexNumber(h: seq<HexDigit>, before: seq<byte>, v: nat, size: nat, after: seq<byte>)
    requires 0 < size <= 6 && ConvertIntegerNumberToBytes(v, size).Ok?
    requires h == Hex(before + ConvertIntegerNumberToBytes(v, size).value + after)
    ensures ParseHex(Substring(h, 2 * |before|, 2 * (|before| + size))) == Ok(v)
  {
    hide ConvertIntegerNumberToBytes, Substring;
    var field := ConvertIntegerNumberToBytes(v, size).value;
    HexField(h, before, field, after);
    HexToNatOfHex(field);
    FieldReadsBack(v, size);
  }

  /** The splitter finds the footer, and then only compares the remaining length with the count. */
  lemma SplitFindsFooter(packages: seq<SignedPackage>, metadata: seq<byte>)
    requires AllConstructible(packages) && PayloadBytes(packages, metadata).Ok?
    ensures PackagesBytes(packages).Ok?
    ensures var h := Hex(PayloadBytes(packages, metadata).value);
      && (SplitOf(h).Ok? <==> |PackagesBytes(packages).value| == SPLIT_PACKAGE_BS * |packages|)
      && (SplitOf(h).Ok? ==>
        SplitOf(h).value == Split(Chunks(h, |packages|), Hex(FooterBytes(packages, metadata))))
  {
    hide ConvertIntegerNumberToBytes, Substring, ParseHex, PackagesBytes, Hex;
    var b := PayloadBytes(packages, metadata).value;
    var h := Hex(b);
    var body := PackagesBytes(packages).value;
    var count := ConvertIntegerNumberToBytes(|packages|, DATA_PACKAGES_COUNT_BS).value;
    var size := ConvertIntegerNumberToBytes(|metadata|, UNSIGNED_METADATA_BYTE_SIZE_BS).value;
    assert b == (body + count + metadata) + size + REDSTONE_MARKER;
    HexNumber(h, body + count + metadata, |metadata|, UNSIGNED_METADATA_BYTE_SIZE_BS, REDSTONE_MARKER);
    var footer := FooterBytes(packages, metadata);
    assert b == body + footer + [];
    HexField(h, body, footer, []);
    assert footer == [] + count + (metadata + size + REDSTONE_MARKER);
    HexNumber(Hex(footer), [], |packages|, DATA_PACKAGES_COUNT_BS, metadata + size + REDSTONE_MARKER);
  }

  /** Chunks laid end to end are the front of the string. */
  function Flatten(chunks: seq<seq<HexDigit>>): seq<HexDigit> {
    if chunks == [] then [] else Flatten(chunks[..|chunks|-1]) + chunks[|chunks|-1]
  }

  lemma ChunkInRange(h: seq<HexDigit>, i: nat)
    requires 2 * SPLIT_PACKAGE_BS * (i + 1) <= |h|
    ensures ChunkAt(h, i) == h[2 * SPLIT_PACKAGE_BS * i..2 * SPLIT_PACKAGE_BS * (i + 1)]
  {
  }

  lemma {:induction false} ChunksTile(h: seq<HexDigit>, count: nat)
    requires 2 * SPLIT_PACKAGE_BS * count <= |h|
    ensures Flatten(Chunks(h, count)) == h[..2 * SPLIT_PACKAGE_BS * count]
    ensures forall i :: 0 <= i < count ==>
      Chunks(h, count)[i] == ChunkAt(h, i) && |ChunkAt(h, i)| == 2 * SPLIT_PACKAGE_BS
  {
    hide ChunkAt;
    if count > 0 {
      ChunksTile(h, count - 1);
      ChunkInRange(h, count - 1);
      var chunks := Chunks(h, count);
      assert chunks[..|chunks|-1] == Chunks(h, count - 1);
    }
  }

  lemma {:induction false} ChunksOfEqualPackages(packages: seq<SignedPackage>, rest: seq<byte>, h: seq<HexDigit>)
    requires AllConstructible(packages) && PackagesBytes(packages).Ok?
    requires h == Hex(PackagesBytes(packages).value + rest)
    requires forall i :: 0 <= i < |packages| ==> SignedLength(packages[i]) == SPLIT_PACKAGE_BS
    ensures |PackagesBytes(packages).value| == SPLIT_PACKAGE_BS * |packages|
    ensures forall i :: 0 <= i < |packages| ==> SignedBytes(packages[i]).Ok?
    ensures forall i :: 0 <= i < |packages| ==> ChunkAt(h, i) == Hex(SignedBytes(packages[i]).value)
    decreases |packages|
  {
    hide SignedBytes, Substring, Hex, SignedLength;
    if packages != [] {
      var front, last := packages[..|packages|-1], packages[|packages|-1];
      assert forall i :: 0 <= i < |front| ==> packages[i] == front[i];
      var frontBytes, lastBytes := PackagesBytes(front).value, SignedBytes(last).value;
      assert frontBytes + (lastBytes + rest) == PackagesBytes(packages).value + rest;
      ChunksOfEqualPackages(front, lastBytes + rest, h);
      SignedBytesLength(last);
      HexField(h, frontBytes, lastBytes, rest);
    }
  }

  /** Hexadecimal form of each package in order. */
  ghost predicate ChunksArePackages(chunks: seq<seq<HexDigit>>, packages: seq<SignedPackage>)
    requires AllConstructible(packages)
  {
    |chunks| == |packages| && forall i :: 0 <= i < |packages| ==>
      SignedBytes(packages[i]).Ok? && chunks[i] == Hex(SignedBytes(packages[i]).value)
  }

  /**
   Splitting succeeds when the packages take 142 bytes each on average, and then chunks and metadata always make up
   the input; the chunks are the packages exactly when every single package takes 142 bytes. The length check alone
   does not tell those cases apart.
   */
  lemma SplitExactly(packages: seq<SignedPackage>, metadata: seq<byte>)
    requires AllConstructible(packages) && PayloadBytes(packages, metadata).Ok?
    ensures var split := SplitOf(Hex(PayloadBytes(packages, metadata).value));
      && (split.Ok? ==>
        Flatten(split.value.dataPackageChunks) + split.value.metadata == Hex(PayloadBytes(packages, metadata).value))
      && (split.Ok? && ChunksArePackages(split.value.dataPackageChunks, packages) <==>
        forall i :: 0 <= i < |packages| ==> SignedLength(packages[i]) == SPLIT_PACKAGE_BS)
  {
    hide SignedBytes, Substring, Hex, SignedLength, SplitOf, PayloadBytes, PackagesBytes, FooterBytes;
    var b := PayloadBytes(packages, metadata).value;
    var h := Hex(b);
    SplitFindsFooter(packages, metadata);
    PayloadIsBodyAndFooter(packages, metadata);
    var body, footer := PackagesBytes(packages).value, FooterBytes(packages, metadata);
    HexConcat(body, footer);
    if SplitOf(h).Ok? {
      ChunksTile(h, |packages|);
      if ChunksArePackages(SplitOf(h).value.dataPackageChunks, packages) {
        forall i | 0 <= i < |packages| ensures SignedLength(packages[i]) == SPLIT_PACKAGE_BS {
          SignedBytesLength(packages[i]);
        }
      }
    }
    if forall i :: 0 <= i < |packages| ==> SignedLength(packages[i]) == SPLIT_PACKAGE_BS {
      ChunksOfEqualPackages(packages, footer, h);
      ChunksTile(h, |packages|);
    }
  }

  lemma PayloadIsBodyAndFooter(packages: seq<SignedPackage>, metadata: seq<byte>)
    requires AllConstructible(packages) && PayloadBytes(packages, metadata).Ok?
    ensures PackagesBytes(packages).Ok?
    ensures PayloadBytes(packages, metadata).value == PackagesBytes(packages).value + FooterBytes(packages, metadata)
  {
  }

  /** Which packages take 142 bytes: one point with a 32-byte value, or two points with empty values. */
  lemma SplittablePackages(p: SignedPackage)
    requires Constructible(p.package.points)
    ensures SignedLength(p) == SPLIT_PACKAGE_BS <==>
      || (|p.package.points| == 1 && |p.package.points[0].value| == 32)
      || (|p.package.points| == 2 && |p.package.points[0].value| == 0)
  {
  }

  // ---------- Padding to a multiple of 32 bytes ----------

  const UNDERSCORE: byte := 0x5f

  /** How many bytes lead to the next multiple of 32, at least one. */
  function Missing(length: nat): (n: nat)
    ensures 1 <= n <= 32 && (length + n) % 32 == 0
  {
    32 - length % 32
  }

  method PrepareRedstonePayload(
    signedDataPackages: seq<SignedPackage>, unsignedMetadata: seq<byte>, shouldBeMultipleOf32: bool)
    returns (r: Result<seq<HexDigit>>)
    requires AllConstructible(signedDataPackages)
    ensures !shouldBeMultipleOf32 ==> r == PrintedHex(signedDataPackages, unsignedMetadata)
    ensures shouldBeMultipleOf32 && r.Ok? ==> |r.value| % 64 == 0
    ensures shouldBeMultipleOf32 && r.Ok? ==>
      && PrintedHex(signedDataPackages, unsignedMetadata).Ok?
      && var n := Missing(|PrintedHex(signedDataPackages, unsignedMetadata).value| / 2);
        r == PrintedHex(signedDataPackages, unsignedMetadata + Underscores(n))
    ensures shouldBeMultipleOf32 ==> (r.Err? <==> match PrintedHex(signedDataPackages, unsignedMetadata)
      case Err(_) => true
      case Ok(h) => |unsignedMetadata| + Missing(|h| / 2) >= Pow256(UNSIGNED_METADATA_BYTE_SIZE_BS))
  {
    hide Hex, PayloadBytes, Pow256;
    var originalPayload :- PrintedHex(signedDataPackages, unsignedMetadata);
    if !shouldBeMultipleOf32 {
      return Ok(originalPayload);
    }
    var originalPayloadLength := |originalPayload| / 2;
    var bytesToAdd := Missing(originalPayloadLength);
    PaddedLength(signedDataPackages, unsignedMetadata, bytesToAdd);
    r := PrintedHex(signedDataPackages, unsignedMetadata + Underscores(bytesToAdd));
  }

  function Underscores(n: nat): (u: seq<byte>)
    ensures |u| == n && forall i :: 0 <= i < n ==> u[i] == 0x5f
  {
    seq(n, i => UNDERSCORE)
  }

  function PrintedHex(packages: seq<SignedPackage>, metadata: seq<byte>): Result<seq<HexDigit>>
    requires AllConstructible(packages)
  {
    var bytes :- PayloadBytes(packages, metadata);
    Ok(Hex(bytes))
  }

  /** Metadata bytes are the only thing that grows, unless the metadata no longer fits its size field. */
  lemma PaddedLength(packages: seq<SignedPackage>, metadata: seq<byte>, n: nat)
    requires AllConstructible(packages) && PayloadBytes(packages, metadata).Ok?
    ensures PayloadBytes(packages, metadata + Underscores(n)).Ok? ==>
      |PayloadBytes(packages, metadata + Underscores(n)).value| == |PayloadBytes(packages, metadata).value| + n
    ensures PayloadBytes(packages, metadata + Underscores(n)).Ok? <==>
      |metadata| + n < Pow256(UNSIGNED_METADATA_BYTE_SIZE_BS)
  {
  }

  /** Padding is harmless: the padded payload parses to the same packages, with underscores after the metadata. */
  lemma PaddingKeepsPackages(prefix: seq<byte>, packages: seq<SignedPackage>, metadata: seq<byte>, n: nat)
    requires AllWireReady(packages) && PayloadBytes(packages, metadata).Ok?
    requires PayloadBytes(packages, metadata + Underscores(n)).Ok?
    ensures var plain := Parse(prefix + PayloadBytes(packages, metadata).value);
      var padded := Parse(prefix + PayloadBytes(packages, metadata + Underscores(n)).value);
      && plain.Ok? && padded.Ok?
      && padded.value == plain.value.(metadata := plain.value.metadata + Underscores(n))
  {
    hide Parse, PayloadBytes, SortedPoints, AllAsParsed;
    ParseUndoesPrint(prefix, packages, metadata);
    ParseUndoesPrint(prefix, packages, metadata + Underscores(n));
  }
}
