/** Bytes, fixed-width big-endian integers and the slicing rule of JavaScript arrays. */
module Bytes {
  import opened Outcomes

  type byte = x: int | 0 <= x < 256

  // ---------- Field widths and marker ----------

  const TIMESTAMP_BS := 6
  const DATA_POINTS_COUNT_BS := 3
  const DATA_POINT_VALUE_BYTE_SIZE_BS := 4
  const DATA_PACKAGES_COUNT_BS := 2
  const UNSIGNED_METADATA_BYTE_SIZE_BS := 3
  const REDSTONE_MARKER: seq<byte> := [0x00, 0x00, 0x02, 0xed, 0x57, 0x01, 0x1e, 0x00, 0x00]
  const REDSTONE_MARKER_BS := 9
  const SIGNATURE_BS := 65
  const DATA_FEED_ID_BS := 32

  const MAX_SAFE_INTEGER := 0x1f_ffff_ffff_ffff

  // ---------- Integers ----------

  function Pow256(n: nat): (p: nat)
    ensures p >= 1
  {
    if n == 0 then 1 else 256 * Pow256(n - 1)
  }

  /** Big-endian value of a byte string. */
  function ToNat(b: seq<byte>): nat {
    if b == [] then 0 else ToNat(b[..|b|-1]) * 256 + b[|b|-1]
  }

  function Zeros(n: nat): (z: seq<byte>)
    ensures |z| == n && forall i :: 0 <= i < n ==> z[i] == 0
  {
    seq(n, i => 0)
  }

  /** Shortest big-endian form, never empty. */
  function MinimalBytes(v: nat): (b: seq<byte>)
    ensures b != [] && ToNat(b) == v
  {
    if v < 256 then
      assert ToNat([v]) == ToNat([v][..0]) * 256 + v;
      [v]
    else
      var b := MinimalBytes(v / 256) + [v % 256];
      assert b[..|b|-1] == MinimalBytes(v / 256);
      b
  }

  /** Fixed-width form: shortest form padded with zeros on the left, an error when it does not fit. */
  function ConvertIntegerNumberToBytes(v: nat, size: nat): (r: Result<seq<byte>>)
    ensures r.Ok? <==> size > 0 && v < Pow256(size)
    ensures r.Ok? ==> |r.value| == size && ToNat(r.value) == v
  {
    var b := MinimalBytes(v);
    MinimalLength(v, size);
    if size < |b| then Err("Overflow")
    else
      LeadingZeros(size - |b|, b);
      Ok(Zeros(size - |b|) + b)
  }

  lemma {:induction false} MinimalLength(v: nat, size: nat)
    ensures |MinimalBytes(v)| <= size <==> size > 0 && v < Pow256(size)
  {
    if size == 0 {
    } else if v < 256 {
      assert Pow256(size) >= 256;
    } else {
      MinimalLength(v / 256, size - 1);
      assert |MinimalBytes(v)| == |MinimalBytes(v / 256)| + 1;
      assert v / 256 < Pow256(size - 1) <==> v < 256 * Pow256(size - 1);
    }
  }

  lemma {:induction false} LeadingZeros(n: nat, b: seq<byte>)
    ensures ToNat(Zeros(n) + b) == ToNat(b)
    decreases |b|, n
  {
    var z := Zeros(n) + b;
    if b != [] {
      assert z[..|z|-1] == Zeros(n) + b[..|b|-1];
      LeadingZeros(n, b[..|b|-1]);
    } else if n > 0 {
      assert z[..|z|-1] == Zeros(n - 1) + [];
      LeadingZeros(n - 1, []);
    }
  }

  /** Reading back fails on no bytes at all and beyond the safe integers of JavaScript. */
  function ConvertBytesToNumber(b: seq<byte>): (r: Result<nat>)
    ensures r.Ok? <==> b != [] && ToNat(b) < 9_007_199_254_740_992
    ensures r.Ok? ==> r.value == ToNat(b)
  {
    if b == [] then Err("invalid BigNumber string")
    else if ToNat(b) > MAX_SAFE_INTEGER then Err("overflow")
    else Ok(ToNat(b))
  }

  lemma {:induction false} ToNatBound(b: seq<byte>)
    ensures ToNat(b) < Pow256(|b|)
  {
    if b != [] {
      ToNatBound(b[..|b|-1]);
    }
  }

  lemma {:induction false} ToNatInjective(a: seq<byte>, b: seq<byte>)
    requires |a| == |b| && ToNat(a) == ToNat(b)
    ensures a == b
  {
    if a != [] {
      ToNatInjective(a[..|a|-1], b[..|b|-1]);
      assert a == a[..|a|-1] + [a[|a|-1]] && b == b[..|b|-1] + [b[|b|-1]];
    }
  }

  /** Fields of up to six bytes always fit a safe integer, so a written field reads back as it was. */
  lemma FieldReadsBack(v: nat, size: nat)
    requires size <= 6 && ConvertIntegerNumberToBytes(v, size).Ok?
    ensures ConvertBytesToNumber(ConvertIntegerNumberToBytes(v, size).value) == Ok(v)
  {
    Pow256Monotone(size, 6);
    assert Pow256(6) == 0x1_0000_0000_0000;
  }

  lemma {:induction false} Pow256Monotone(m: nat, n: nat)
    requires m <= n
    ensures Pow256(m) <= Pow256(n)
  {
    if m < n {
      Pow256Monotone(m, n - 1);
    }
  }

  // ---------- Order ----------

  /** Lexicographic order, which for hexadecimal strings of one length is what `localeCompare` decides. */
  predicate LexLess(a: seq<byte>, b: seq<byte>) {
    b != [] && (a == [] || a[0] < b[0] || (a[0] == b[0] && LexLess(a[1..], b[1..])))
  }

  lemma {:induction false} ToNatPrepend(x: byte, b: seq<byte>)
    ensures ToNat([x] + b) == x * Pow256(|b|) + ToNat(b)
  {
    if b != [] {
      ToNatPrepend(x, b[..|b|-1]);
      assert ([x] + b)[..|b|] == [x] + b[..|b|-1];
      assert x * Pow256(|b|) == x * Pow256(|b| - 1) * 256;
    } else {
      assert [x] + b == [x] && [x][..0] == [];
    }
  }

  /** On equal lengths lexicographic order is numeric order. */
  lemma {:induction false} LexIsNumeric(a: seq<byte>, b: seq<byte>)
    requires |a| == |b|
    ensures LexLess(a, b) <==> ToNat(a) < ToNat(b)
  {
    if a != [] {
      assert a == [a[0]] + a[1..] && b == [b[0]] + b[1..];
      ToNatPrepend(a[0], a[1..]);
      ToNatPrepend(b[0], b[1..]);
      ToNatBound(a[1..]);
      ToNatBound(b[1..]);
      LexIsNumeric(a[1..], b[1..]);
      FirstDigitDecides(a[0], b[0], Pow256(|a| - 1), ToNat(a[1..]), ToNat(b[1..]));
    }
  }

  lemma FirstDigitDecides(x: byte, y: byte, p: nat, r: nat, t: nat)
    requires r < p && t < p
    ensures x < y ==> x * p + r < y * p + t
    ensures x > y ==> x * p + r > y * p + t
  {
    if x < y {
      assert (x + 1) * p <= y * p;
    } else if x > y {
      assert (y + 1) * p <= x * p;
    }
  }

  // ---------- Slices ----------

  function SliceIndex(length: nat, i: int): (k: nat)
    ensures k <= length
  {
    if i < 0 then (if length + i < 0 then 0 else length + i)
    else if i > length then length else i
  }

  /** `slice(start, end)`: negative positions count from the end, an inverted range is empty. */
  function JsSlice<T>(s: seq<T>, start: int, end: int): seq<T> {
    var lo, hi := SliceIndex(|s|, start), SliceIndex(|s|, end);
    if lo < hi then s[lo..hi] else []
  }

  /** The part of length `length` that ends `negativeOffset` before the end, as the parser takes it. */
  function SliceFromEnd(b: seq<byte>, negativeOffset: nat, length: nat): seq<byte> {
    JsSlice(b, |b| - negativeOffset - length, |b| - negativeOffset)
  }

  lemma SliceBetween(before: seq<byte>, field: seq<byte>, after: seq<byte>)
    ensures SliceFromEnd(before + field + after, |after|, |field|) == field
  {
  }
}
