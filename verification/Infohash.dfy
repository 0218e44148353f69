/**
  Identifiers of the Mainline DHT: 160-bit ids, the shared-prefix distance the routing
  table sorts by, and the neighbour ids the crawler claims (models/infohash.go).
 */
module Infohash {
  import opened Bytes
  import opened Results

  const INFOHASH_LENGTH := 20
  const ID_BITS := 160

  ghost predicate IsId(s: seq<Byte>) {
    |s| == INFOHASH_LENGTH
  }

  function Mask(j: nat): (m: Byte)
    requires j < 8
  {
    if j == 0 then 0x80 else if j == 1 then 0x40 else if j == 2 then 0x20
    else if j == 3 then 0x10 else if j == 4 then 0x08 else if j == 5 then 0x04
    else if j == 6 then 0x02 else 0x01
  }

  /** Bit j of a byte, the most significant first. */
  predicate ByteBit(b: Byte, j: nat)
    requires j < 8
  {
    b & Mask(j) != 0
  }

  /** Bit k of a byte string, the most significant bit of the first byte being bit 0. */
  predicate Bit(s: seq<Byte>, k: nat)
    requires k < 8 * |s|
  {
    ByteBit(s[k / 8], k % 8)
  }

  /** The first bit from k on where a and b differ, or 160. */
  ghost function PrefixFrom(a: seq<Byte>, b: seq<Byte>, k: nat): (d: nat)
    requires IsId(a) && IsId(b) && k <= ID_BITS
    decreases ID_BITS - k
  {
    if k < ID_BITS && Bit(a, k) == Bit(b, k) then PrefixFrom(a, b, k + 1) else k
  }

  /** The number of leading bits two ids share. */
  ghost function CommonPrefix(a: seq<Byte>, b: seq<Byte>): (d: nat)
    requires IsId(a) && IsId(b)
  {
    PrefixFrom(a, b, 0)
  }

  ghost predicate SharesExactly(a: seq<Byte>, b: seq<Byte>, d: nat)
    requires IsId(a) && IsId(b)
  {
    && d <= ID_BITS
    && (forall m :: 0 <= m < d ==> Bit(a, m) == Bit(b, m))
    && (d < ID_BITS ==> Bit(a, d) != Bit(b, d))
  }

  lemma {:induction false} PrefixFromSpec(a: seq<Byte>, b: seq<Byte>, k: nat)
    requires IsId(a) && IsId(b) && k <= ID_BITS
    requires forall m :: 0 <= m < k ==> Bit(a, m) == Bit(b, m)
    ensures SharesExactly(a, b, PrefixFrom(a, b, k))
    decreases ID_BITS - k
  {
    if k < ID_BITS && Bit(a, k) == Bit(b, k) {
      PrefixFromSpec(a, b, k + 1);
    }
  }

  /** The ids agree on the common prefix and differ right after it. */
  lemma PrefixSpec(a: seq<Byte>, b: seq<Byte>)
    requires IsId(a) && IsId(b)
    ensures SharesExactly(a, b, CommonPrefix(a, b))
  {
    PrefixFromSpec(a, b, 0);
  }

  /** Agreement below d and a difference at d leave no other value for the common prefix. */
  lemma CommonPrefixUnique(a: seq<Byte>, b: seq<Byte>, d: nat)
    requires IsId(a) && IsId(b) && SharesExactly(a, b, d)
    ensures CommonPrefix(a, b) == d
  {
    PrefixSpec(a, b);
  }

  lemma ByteBitsDetermine(x: Byte, y: Byte)
    requires forall j :: 0 <= j < 8 ==> ByteBit(x, j) == ByteBit(y, j)
    ensures x == y
  {
    assert ByteBit(x, 0) == ByteBit(y, 0) && ByteBit(x, 1) == ByteBit(y, 1);
    assert ByteBit(x, 2) == ByteBit(y, 2) && ByteBit(x, 3) == ByteBit(y, 3);
    assert ByteBit(x, 4) == ByteBit(y, 4) && ByteBit(x, 5) == ByteBit(y, 5);
    assert ByteBit(x, 6) == ByteBit(y, 6) && ByteBit(x, 7) == ByteBit(y, 7);
  }

  /** Byte i agrees as soon as the common prefix reaches past it. */
  lemma PrefixCoversByte(a: seq<Byte>, b: seq<Byte>, i: nat)
    requires IsId(a) && IsId(b) && i < INFOHASH_LENGTH && 8 * i + 8 <= CommonPrefix(a, b)
    ensures a[i] == b[i]
  {
    PrefixSpec(a, b);
    forall j | 0 <= j < 8
      ensures ByteBit(a[i], j) == ByteBit(b[i], j)
    {
      var m := 8 * i + j;
      assert m / 8 == i && m % 8 == j;
      assert Bit(a, m) == Bit(b, m);
    }
    ByteBitsDetermine(a[i], b[i]);
  }

  /** The prefix is all 160 bits exactly for equal ids. */
  lemma FullPrefixIffEqual(a: seq<Byte>, b: seq<Byte>)
    requires IsId(a) && IsId(b)
    ensures CommonPrefix(a, b) == ID_BITS <==> a == b
    ensures CommonPrefix(a, b) <= ID_BITS
  {
    PrefixSpec(a, b);
    if CommonPrefix(a, b) == ID_BITS {
      forall i | 0 <= i < INFOHASH_LENGTH
        ensures a[i] == b[i]
      {
        PrefixCoversByte(a, b, i);
      }
    }
  }

  lemma PrefixSymmetric(a: seq<Byte>, b: seq<Byte>)
    requires IsId(a) && IsId(b)
    ensures CommonPrefix(a, b) == CommonPrefix(b, a)
  {
    PrefixSpec(a, b);
    CommonPrefixUnique(b, a, CommonPrefix(a, b));
  }

  /** The ultrametric law: two ids are at least as alike as the worse of any detour. */
  lemma PrefixUltrametric(a: seq<Byte>, b: seq<Byte>, c: seq<Byte>)
    requires IsId(a) && IsId(b) && IsId(c)
    ensures CommonPrefix(a, c) >= CommonPrefix(a, b) || CommonPrefix(a, c) >= CommonPrefix(b, c)
  {
    PrefixSpec(a, b);
    PrefixSpec(b, c);
    PrefixSpec(a, c);
  }

  // ---------- the XOR metric ----------

  function Xor(a: seq<Byte>, b: seq<Byte>): (x: seq<Byte>)
    requires |a| == |b|
    ensures |x| == |a|
  {
    seq(|a|, i requires 0 <= i < |a| => a[i] ^ b[i])
  }

  /** The Kademlia distance of two ids: their exclusive or read as a number. */
  function XorMetric(a: seq<Byte>, b: seq<Byte>): (x: nat)
    requires |a| == |b|
  {
    BigEndian(Xor(a, b))
  }

  lemma XorBit(x: Byte, y: Byte, j: nat)
    requires j < 8
    ensures ByteBit(x ^ y, j) == (ByteBit(x, j) != ByteBit(y, j))
  {
    XorUnderMask(x, y, Mask(j));
  }

  lemma XorUnderMask(x: Byte, y: Byte, m: Byte)
    requires m & (m - 1) == 0
    ensures ((x ^ y) & m != 0) == ((x & m != 0) != (y & m != 0))
  {
  }

  /** A byte whose first set bit is bit k lies between two consecutive powers of two. */
  lemma ByteMagnitude(x: Byte, k: nat)
    requires k < 8
    requires forall m :: 0 <= m < k ==> !ByteBit(x, m)
    requires ByteBit(x, k)
    ensures Pow2(7 - k) <= x as nat < Pow2(8 - k)
  {
    Pow2Table();
    assert k > 0 ==> !ByteBit(x, 0);
    assert k > 1 ==> !ByteBit(x, 1);
    assert k > 2 ==> !ByteBit(x, 2);
    assert k > 3 ==> !ByteBit(x, 3);
    assert k > 4 ==> !ByteBit(x, 4);
    assert k > 5 ==> !ByteBit(x, 5);
    assert k > 6 ==> !ByteBit(x, 6);
  }

  lemma LeadBounds(b: nat, k: nat, n: nat, rest: nat)
    requires k < 8 && Pow2(7 - k) <= b < Pow2(8 - k) && rest < Pow2(n)
    ensures Pow2(7 - k + n) <= b * Pow2(n) + rest < Pow2(8 - k + n)
  {
    Pow2Add(7 - k, n);
    Pow2Add(8 - k, n);
    Squeeze(Pow2(7 - k), b, Pow2(8 - k), Pow2(n), rest);
  }

  lemma Squeeze(lo: nat, b: nat, hi: nat, p: nat, rest: nat)
    requires lo <= b < hi && rest < p
    ensures lo * p <= b * p + rest < hi * p
  {
    assert lo * p <= b * p;
    assert (b + 1) * p <= hi * p;
  }

  lemma MagnitudeByFirst(xs: seq<Byte>, k: nat)
    requires k < 8 && |xs| > 0
    requires forall m :: 0 <= m < k ==> !ByteBit(xs[0], m)
    requires ByteBit(xs[0], k)
    ensures Pow2(8 * |xs| - 1 - k) <= BigEndian(xs) < Pow2(8 * |xs| - k)
  {
    var rest := xs[1..];
    BigEndianBound(rest);
    ByteMagnitude(xs[0], k);
    LeadBounds(xs[0] as nat, k, 8 * |rest|, BigEndian(rest));
    assert 8 * |xs| - k == 8 - k + 8 * |rest|;
  }

  /** The same for a byte string of any length. */
  lemma {:induction false} Magnitude(xs: seq<Byte>, k: nat)
    requires k < 8 * |xs|
    requires forall m :: 0 <= m < k ==> !Bit(xs, m)
    requires Bit(xs, k)
    ensures Pow2(8 * |xs| - 1 - k) <= BigEndian(xs) < Pow2(8 * |xs| - k)
  {
    hide BigEndian, Pow2;
    var rest := xs[1..];
    if k < 8 {
      forall m | 0 <= m < k
        ensures !ByteBit(xs[0], m)
      {
        assert !Bit(xs, m);
      }
      MagnitudeByFirst(xs, k);
    } else {
      FirstByteZero(xs);
      LeadingZeroIsIdle(xs);
      forall m | 0 <= m < k - 8
        ensures !Bit(rest, m)
      {
        assert !Bit(xs, m + 8);
      }
      Magnitude(rest, k - 8);
    }
  }

  lemma LeadingZeroIsIdle(xs: seq<Byte>)
    requires |xs| > 0 && xs[0] == 0
    ensures BigEndian(xs) == BigEndian(xs[1..])
  {
  }

  lemma FirstByteZero(xs: seq<Byte>)
    requires |xs| > 0 && forall m :: 0 <= m < 8 ==> !Bit(xs, m)
    ensures xs[0] == 0
  {
    forall j | 0 <= j < 8
      ensures ByteBit(xs[0], j) == ByteBit(0, j)
    {
      assert !Bit(xs, j);
    }
    ByteBitsDetermine(xs[0], 0);
  }

  /** The shared prefix is the order of magnitude of the XOR metric. */
  lemma PrefixBoundsXor(a: seq<Byte>, b: seq<Byte>)
    requires IsId(a) && IsId(b) && a != b
    ensures CommonPrefix(a, b) < ID_BITS
    ensures Pow2(159 - CommonPrefix(a, b)) <= XorMetric(a, b) < Pow2(160 - CommonPrefix(a, b))
  {
    FullPrefixIffEqual(a, b);
    PrefixSpec(a, b);
    hide BigEndian, Pow2, CommonPrefix;
    var d := CommonPrefix(a, b);
    var x := Xor(a, b);
    forall m | 0 <= m < ID_BITS
      ensures Bit(x, m) == (Bit(a, m) != Bit(b, m))
    {
      XorBit(a[m / 8], b[m / 8], m % 8);
    }
    assert Bit(x, d);
    Magnitude(x, d);
  }

  lemma {:induction false} ZeroesDenoteZero(xs: seq<Byte>)
    requires forall i :: 0 <= i < |xs| ==> xs[i] == 0
    ensures BigEndian(xs) == 0
  {
    if |xs| > 0 {
      ZeroesDenoteZero(xs[1..]);
    }
  }

  lemma MagnitudesDecide(x: nat, y: nat, m: nat, n: nat)
    requires n < m <= 160
    requires x < Pow2(160 - m) && Pow2(159 - n) <= y
    ensures x < y
  {
    Pow2Monotone(160 - m, 159 - n);
  }

  /** A strictly longer shared prefix means strictly closer under the XOR metric. */
  lemma LongerPrefixIsCloser(target: seq<Byte>, a: seq<Byte>, b: seq<Byte>)
    requires IsId(target) && IsId(a) && IsId(b)
    requires CommonPrefix(target, a) > CommonPrefix(target, b)
    ensures XorMetric(target, a) < XorMetric(target, b)
  {
    hide BigEndian, Pow2, CommonPrefix;
    FullPrefixIffEqual(target, a);
    FullPrefixIffEqual(target, b);
    PrefixBoundsXor(target, b);
    if target == a {
      ZeroesDenoteZero(Xor(target, a));
    } else {
      PrefixBoundsXor(target, a);
      MagnitudesDecide(XorMetric(target, a), XorMetric(target, b),
                       CommonPrefix(target, a), CommonPrefix(target, b));
    }
  }

  // ---------- the code ----------

  /** Compares two ids byte by byte; ids of different length differ. */
  method Equal(ih: array<Byte>, other: array<Byte>) returns (r: bool)
    ensures r <==> ih[..] == other[..]
  {
    if ih.Length != other.Length {
      return false;
    }
    var i := 0;
    while i < ih.Length
      invariant 0 <= i <= ih.Length
      invariant ih[..i] == other[..i]
    {
      if ih[i] != other[i] {
        assert ih[..][i] != other[..][i];
        return false;
      }
      i := i + 1;
    }
    assert ih[..] == ih[..i] && other[..] == other[..i];
    return true;
  }

  /** Skips the equal bytes, then shifts the first difference until its top bit is set. */
  method Distance(ih: array<Byte>, other: array<Byte>) returns (d: nat)
    requires ih.Length == INFOHASH_LENGTH && other.Length == INFOHASH_LENGTH
    ensures d == CommonPrefix(ih[..], other[..])
  {
    var i := 0;
    while i < 20
      invariant 0 <= i <= 20
      invariant forall k :: 0 <= k < i ==> ih[k] == other[k]
    {
      if ih[i] != other[i] {
        break;
      }
      i := i + 1;
    }
    ghost var a, b := ih[..], other[..];
    if i == 20 {
      assert a == b;
      FullPrefixIffEqual(a, b);
      return 160;
    }
    var xor := ih[i] ^ other[i];
    var j := TopBit(xor);
    d := 8 * i + j;
    PrefixFound(a, b, i, j);
  }

  /** The shift loop of Distance: at most seven shifts bring up the first set bit. */
  method TopBit(x: Byte) returns (j: nat)
    requires x != 0
    ensures j <= 7 && ByteBit(x, j) && forall m :: 0 <= m < j ==> !ByteBit(x, m)
  {
    var xor := x;
    j := 0;
    while xor & 0x80 == 0
      invariant 0 <= j <= 7
      invariant xor == Shifted(x, j)
      invariant forall m :: 0 <= m < j ==> !ByteBit(x, m)
      decreases 7 - j
    {
      TopBitOfShift(x, j);
      SomeBitLeft(x, j);
      xor := xor << 1;
      j := j + 1;
    }
    TopBitOfShift(x, j);
  }

  lemma SomeBitLeft(x: Byte, j: nat)
    requires x != 0 && j < 8 && forall m :: 0 <= m <= j ==> !ByteBit(x, m)
    ensures j < 7
  {
    if j == 7 {
      ByteBitsDetermine(x, 0);
    }
  }

  /** A byte shifted left j times, one bit at a time. */
  function Shifted(b: Byte, j: nat): (r: Byte) {
    if j == 0 then b else Shifted(b, j - 1) << 1
  }

  lemma TopBitOfShift(b: Byte, j: nat)
    requires j < 8
    ensures Shifted(b, j) & 0x80 != 0 <==> ByteBit(b, j)
  {
    var b1 := b << 1; var b2 := b1 << 1; var b3 := b2 << 1; var b4 := b3 << 1;
    var b5 := b4 << 1; var b6 := b5 << 1; var b7 := b6 << 1;
    assert Shifted(b, 1) == b1; assert Shifted(b, 2) == b2; assert Shifted(b, 3) == b3;
    assert Shifted(b, 4) == b4; assert Shifted(b, 5) == b5; assert Shifted(b, 6) == b6;
    assert Shifted(b, 7) == b7;
  }

  /** Equal bytes below i and j leading zero bits in the difference of byte i. */
  lemma PrefixFound(a: seq<Byte>, b: seq<Byte>, i: nat, j: nat)
    requires IsId(a) && IsId(b) && i < 20 && j < 8
    requires forall k :: 0 <= k < i ==> a[k] == b[k]
    requires var x := a[i] ^ b[i]; ByteBit(x, j) && forall m :: 0 <= m < j ==> !ByteBit(x, m)
    ensures CommonPrefix(a, b) == 8 * i + j
  {
    var d := 8 * i + j;
    forall m | 0 <= m < d
      ensures Bit(a, m) == Bit(b, m)
    {
      if m / 8 == i {
        XorBit(a[i], b[i], m % 8);
      }
    }
    assert d / 8 == i && d % 8 == j;
    XorBit(a[i], b[i], j);
    CommonPrefixUnique(a, b, d);
  }

  // ---------- neighbour ids ----------

  /** The id made of the first half of `second` and the second half of `first`. */
  function NeighbourOf(first: seq<Byte>, second: seq<Byte>): (s: seq<Byte>)
    requires IsId(first) && IsId(second)
    ensures IsId(s)
  {
    second[..10] + first[10..]
  }

  /**
    The append onto `second[:10]` has room in the array of `second`, so the ten bytes of
    `first` land on top of it: the result is `second` itself, overwritten.
   */
  method GenerateNeighbour(first: array<Byte>, second: array<Byte>) returns (s: array<Byte>)
    requires first.Length == INFOHASH_LENGTH && second.Length == INFOHASH_LENGTH
    modifies second
    ensures s == second
    ensures second[..] == NeighbourOf(old(first[..]), old(second[..]))
  {
    forall i | 10 <= i < 20 {
      second[i] := first[i];
    }
    return second;
  }

  lemma BitsOfHalf(a: seq<Byte>, b: seq<Byte>)
    requires IsId(a) && IsId(b)
    ensures a[..10] == b[..10] <==> CommonPrefix(a, b) >= 80
  {
    var d := CommonPrefix(a, b);
    PrefixSpec(a, b);
    if d >= 80 {
      forall i | 0 <= i < 10
        ensures a[i] == b[i]
      {
        PrefixCoversByte(a, b, i);
      }
    } else {
      assert a[..10][d / 8] == a[d / 8] && b[..10][d / 8] == b[d / 8];
    }
  }

  /**
    A neighbour shares 80 bits with `second`. It is as far from `first` as `second` was
    when that is below 80 bits, and is `first` itself otherwise.
   */
  lemma NeighbourDistance(first: seq<Byte>, second: seq<Byte>)
    requires IsId(first) && IsId(second)
    ensures var n := NeighbourOf(first, second);
            && CommonPrefix(second, n) >= 80
            && (CommonPrefix(first, second) < 80 ==> CommonPrefix(first, n) == CommonPrefix(first, second))
            && (CommonPrefix(first, second) >= 80 <==> n == first)
  {
    var n := NeighbourOf(first, second);
    var d := CommonPrefix(first, second);
    BitsOfHalf(second, n);
    BitsOfHalf(first, second);
    PrefixSpec(first, second);
    if d < 80 {
      forall m | 0 <= m <= d
        ensures Bit(n, m) == Bit(second, m)
      {
        assert n[m / 8] == second[m / 8];
      }
      CommonPrefixUnique(first, n, d);
    } else {
      assert n == first[..10] + first[10..] == first;
    }
  }

  /** Overwriting an id keeps its cached distance right exactly below 80 and at 160. */
  lemma OverwriteKeepsDistance(first: seq<Byte>, second: seq<Byte>)
    requires IsId(first) && IsId(second)
    ensures CommonPrefix(first, NeighbourOf(first, second)) == CommonPrefix(first, second)
            <==> CommonPrefix(first, second) < 80 || CommonPrefix(first, second) == ID_BITS
  {
    NeighbourDistance(first, second);
    FullPrefixIffEqual(first, first);
  }

  /** Overwriting twice changes nothing more, so ids that share an array do no harm. */
  lemma NeighbourIdempotent(first: seq<Byte>, second: seq<Byte>)
    requires IsId(first) && IsId(second)
    ensures NeighbourOf(first, NeighbourOf(first, second)) == NeighbourOf(first, second)
  {
  }

  // ---------- ids as text ----------

  function HexDigit(n: Byte): (c: Byte) {
    if n < 10 then n + 0x30 else n - 10 + 0x61
  }

  /** The value of a hexadecimal digit of either case. */
  function HexValue(c: Byte): (r: Result<Byte>) {
    if 0x30 <= c <= 0x39 then Ok(c - 0x30)
    else if 0x61 <= c <= 0x66 then Ok(c - 0x61 + 10)
    else if 0x41 <= c <= 0x46 then Ok(c - 0x41 + 10)
    else Err
  }

  function HexPair(b: Byte): (t: seq<Byte>)
    ensures |t| == 2
  {
    [HexDigit(b >> 4), HexDigit(b & 0x0f)]
  }

  function PairValue(t: seq<Byte>): (r: Result<Byte>)
    requires |t| == 2
  {
    var hi :- HexValue(t[0]);
    var lo :- HexValue(t[1]);
    Ok((hi << 4) | lo)
  }

  /** hex.EncodeToString. */
  function HexString(s: seq<Byte>): (t: seq<Byte>)
    ensures |t| == 2 * |s|
  {
    if |s| == 0 then [] else HexPair(s[0]) + HexString(s[1..])
  }

  /** hex.DecodeString. */
  function HexDecode(t: seq<Byte>): (r: Result<seq<Byte>>)
    ensures r.Ok? ==> 2 * |r.value| == |t|
  {
    if |t| == 0 then Ok([]) else if |t| == 1 then Err else
      var b :- PairValue(t[..2]);
      var rest :- HexDecode(t[2..]);
      Ok([b] + rest)
  }

  /** Twenty raw bytes, or forty hexadecimal digits; anything else is an error. */
  function FromString(s: seq<Byte>): (r: Result<seq<Byte>>)
    ensures r.Ok? ==> IsId(r.value)
  {
    if |s| == 20 then Ok(s) else if |s| == 40 then HexDecode(s) else Err
  }

  lemma HexByte(b: Byte)
    ensures PairValue(HexPair(b)) == Ok(b)
  {
  }

  lemma {:induction false} HexRoundTrip(s: seq<Byte>)
    ensures HexDecode(HexString(s)) == Ok(s)
  {
    hide HexPair, PairValue;
    if |s| > 0 {
      HexByte(s[0]);
      HexRoundTrip(s[1..]);
      var t := HexString(s);
      assert t[..2] == HexPair(s[0]) && t[2..] == HexString(s[1..]);
      assert s == [s[0]] + s[1..];
    }
  }

  predicate IsHexDigit(c: Byte) {
    0x30 <= c <= 0x39 || 0x41 <= c <= 0x46 || 0x61 <= c <= 0x66
  }

  /** The number a hexadecimal digit stands for: from '0', 'A' or 'a' on. */
  function Nibble(c: Byte): (n: Byte)
    requires IsHexDigit(c)
  {
    if c <= 0x39 then c - 0x30 else if c <= 0x46 then c - 0x37 else c - 0x57
  }

  lemma PairValueIff(t: seq<Byte>)
    requires |t| == 2
    ensures PairValue(t).Ok? <==> IsHexDigit(t[0]) && IsHexDigit(t[1])
    ensures PairValue(t).Ok? ==> PairValue(t).value == 16 * Nibble(t[0]) + Nibble(t[1])
  {
  }

  lemma {:induction false} HexDecodeIff(t: seq<Byte>)
    ensures HexDecode(t).Ok? <==> |t| % 2 == 0 && forall i :: 0 <= i < |t| ==> IsHexDigit(t[i])
    ensures HexDecode(t).Ok? ==>
              forall i :: 0 <= i < |HexDecode(t).value| ==>
                HexDecode(t).value[i] == 16 * Nibble(t[2 * i]) + Nibble(t[2 * i + 1])
  {
    hide PairValue, IsHexDigit, Nibble;
    if |t| >= 2 {
      var rest := t[2..];
      PairValueIff(t[..2]);
      HexDecodeIff(rest);
      assert forall i :: 0 <= i < |rest| ==> rest[i] == t[i + 2];
      if forall i :: 0 <= i < |t| ==> IsHexDigit(t[i]) {
        assert IsHexDigit(t[0]) && IsHexDigit(t[1]);
      }
    }
  }

  /**
    Exactly 20 raw bytes and 40 hexadecimal digits of either case are ids; two digits make a
    byte, the high one first.
   */
  lemma FromStringIff(s: seq<Byte>)
    ensures FromString(s).Ok? <==> |s| == 20 || (|s| == 40 && forall i :: 0 <= i < 40 ==> IsHexDigit(s[i]))
    ensures |s| == 20 ==> FromString(s) == Ok(s)
    ensures |s| == 40 && FromString(s).Ok? ==>
              forall i :: 0 <= i < 20 ==> FromString(s).value[i] == 16 * Nibble(s[2 * i]) + Nibble(s[2 * i + 1])
  {
    HexDecodeIff(s);
  }

  /** Both texts of an id, its bytes and its hexadecimal form, read back to it. */
  lemma IdTextRoundTrip(id: seq<Byte>)
    requires IsId(id)
    ensures FromString(id) == Ok(id) && FromString(HexString(id)) == Ok(id)
  {
    HexRoundTrip(id);
  }
}
