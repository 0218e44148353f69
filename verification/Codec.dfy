/**
  The integer codecs: `bytes2int` of bt/worker.go reads big-endian byte strings into a Go
  int, `int2bytes` of krpc/krpc.go writes an int64 without its leading zero bytes.
 */
module Codec {
  import opened Bytes
  import opened Results

  const TWO_63: int := 0x8000_0000_0000_0000
  const TWO_64: int := 0x1_0000_0000_0000_0000

  lemma Pow2Of64()
    ensures Pow2(32) == 0x1_0000_0000 && Pow2(64) == TWO_64
  {
    Pow2Table();
    Pow2Add(8, 8);
    Pow2Add(16, 16);
    Pow2Add(32, 32);
  }

  /** The 64-bit pattern of an int64, as an unsigned number. */
  function Unsigned64(v: int): (u: nat)
    requires -TWO_63 <= v < TWO_63
    ensures u < TWO_64
  {
    if v < 0 then v + TWO_64 else v
  }

  /** Conversion of a uint64 to a Go int. */
  function Signed64(u: nat): (v: int)
    requires u < TWO_64
    ensures -TWO_63 <= v < TWO_63 && Unsigned64(v) == u
  {
    if u >= TWO_63 then u - TWO_64 else u
  }

  /** A byte moved k bytes to the left. */
  function Shifted(b: Byte, k: nat): (v: nat) {
    b as nat * Pow2(8 * k)
  }

  method Bytes2Int(data: seq<Byte>) returns (r: Result<int>)
    ensures |data| > 8 ==> r.Err?
    ensures |data| <= 8 ==> BigEndian(data) < TWO_64 && r == Ok(Signed64(BigEndian(data)))
  {
    var n := |data|;
    if n > 8 {
      return Err;
    }
    var val: nat := 0;
    var i := 0;
    FitsIn64(data);
    hide BigEndian, Shifted;
    assert data[0..] == data && data[n..] == [];
    NoBytes();
    while i < n
      invariant 0 <= i <= n
      invariant val + BigEndian(data[i..]) == BigEndian(data)
    {
      Unread(data, i);
      val := (val + Shifted(data[i], n - i - 1)) % TWO_64;
      i := i + 1;
    }
    return Ok(Signed64(val));
  }

  lemma NoBytes()
    ensures BigEndian([]) == 0
  {
  }

  lemma FitsIn64(data: seq<Byte>)
    requires |data| <= 8
    ensures BigEndian(data) < TWO_64
  {
    BigEndianBound(data);
    Pow2Of64();
    Pow2Monotone(8 * |data|, 64);
  }

  lemma Unread(data: seq<Byte>, i: nat)
    requires i < |data|
    ensures BigEndian(data[i..])
            == Shifted(data[i], |data| - i - 1) + BigEndian(data[i + 1..])
  {
    assert data[i..][1..] == data[i + 1..];
  }

  /** A byte string without its leading zeros, but never empty if it was not. */
  function StripZeros(xs: seq<Byte>): (r: seq<Byte>)
  {
    if |xs| <= 1 || xs[0] != 0 then xs else StripZeros(xs[1..])
  }

  /** What `int2bytes` writes for a value. */
  function IntBytes(v: int): (r: seq<Byte>)
    requires -TWO_63 <= v < TWO_63
  {
    StripZeros(ToBytes(Unsigned64(v), 8))
  }

  /** Byte i of the two's complement form, for values of either sign. */
  lemma SignedByte(v: int, i: nat)
    requires -TWO_63 <= v < TWO_63 && i < 8
    ensures LowByte(v / Pow2(8 * (7 - i))) == ToBytes(Unsigned64(v), 8)[i]
  {
    hide LowByte, Pow2;
    ToBytesAt(Unsigned64(v), 8, i);
    if v < 0 {
      Pow2Add(8 * (i + 1), 8 * (7 - i));
      Pow2Add(8, 8 * i);
      Pow2Table();
      Pow2Of64();
      var p, q := Pow2(8 * (7 - i)), Pow2(8 * i);
      FloorShift(v, p, 256 * q);
      SameLowByte(v / p, q);
    }
  }

  lemma FloorShift(v: int, p: nat, q: nat)
    requires p > 0
    ensures (v + q * p) / p == v / p + q
  {
    var d, r := v / p, v % p;
    assert v == d * p + r;
    assert v + q * p == (d + q) * p + r;
    FloorUnique(v + q * p, p, d + q, r);
  }

  lemma FloorUnique(v: int, m: int, q: int, r: int)
    requires 0 <= r < m && v == q * m + r
    ensures v / m == q
  {
    var d, e := q - v / m, v % m - r;
    assert d * m == e by { assert v == (v / m) * m + v % m; }
    SmallMultiple(d, m);
  }

  lemma SameLowByte(v: int, q: nat)
    ensures LowByte(v + 256 * q) == LowByte(v)
  {
    assert (v + 256 * q) % 256 == v % 256;
  }

  /** Writes the eight bytes of a value and returns them from the first non-zero one on. */
  method Int2Bytes(val: int) returns (r: seq<Byte>)
    requires -TWO_63 <= val < TWO_63
    ensures r == IntBytes(val)
  {
    hide LowByte, Pow2;
    ghost var all := ToBytes(Unsigned64(val), 8);
    var data := new Byte[8];
    var j := -1;
    var i := 0;
    while i < 8
      invariant 0 <= i <= 8 && -1 <= j < i
      invariant forall k :: 0 <= k < i ==> data[k] == all[k]
      invariant j == -1 ==> forall k :: 0 <= k < i ==> all[k] == 0
      invariant j != -1 ==> all[j] != 0 && forall k :: 0 <= k < j ==> all[k] == 0
    {
      SignedByte(val, i);
      data[i] := LowByte(val / Pow2(8 * (7 - i)));
      if j == -1 && data[i] != 0 {
        j := i;
      }
      i := i + 1;
    }
    assert data[..] == all;
    if j != -1 {
      StripsTo(all, j);
      return data[j..];
    }
    StripsTo(all, 7);
    assert data[..1] == all[7..];
    return data[..1];
  }

  lemma {:induction false} StripsTo(xs: seq<Byte>, j: nat)
    requires j < |xs| && (forall k :: 0 <= k < j ==> xs[k] == 0)
    requires xs[j] != 0 || j == |xs| - 1
    ensures StripZeros(xs) == xs[j..]
  {
    if j > 0 {
      StripsTo(xs[1..], j - 1);
      assert xs[1..][j - 1..] == xs[j..];
    }
  }

  // ---------- round trips ----------

  /** Stripping keeps the number and leaves no leading zero, except of a lone byte. */
  lemma {:induction false} StripKeepsNumber(xs: seq<Byte>)
    ensures BigEndian(StripZeros(xs)) == BigEndian(xs)
    ensures |StripZeros(xs)| <= |xs| && (|xs| >= 1 ==> |StripZeros(xs)| >= 1)
    ensures |StripZeros(xs)| > 1 ==> StripZeros(xs)[0] != 0
  {
    if |xs| > 1 && xs[0] == 0 {
      StripKeepsNumber(xs[1..]);
    }
  }

  /** `bytes2int` undoes `int2bytes` on every int64. */
  lemma IntRoundTrip(v: int)
    requires -TWO_63 <= v < TWO_63
    ensures 1 <= |IntBytes(v)| <= 8
    ensures BigEndian(IntBytes(v)) < TWO_64 && Signed64(BigEndian(IntBytes(v))) == v
  {
    hide BigEndian, ToBytes, StripZeros, Pow2;
    var u := Unsigned64(v);
    StripKeepsNumber(ToBytes(u, 8));
    ReadToBytes(u, 8);
    Pow2Of64();
    assert 8 * 8 == 64;
  }

  lemma FirstByteWeighs(xs: seq<Byte>)
    requires |xs| > 0 && xs[0] != 0
    ensures BigEndian(xs) >= Pow2(8 * (|xs| - 1))
  {
    AtLeastOne(xs[0] as nat, Pow2(8 * (|xs| - 1)));
  }

  lemma AtLeastOne(b: nat, p: nat)
    requires b >= 1
    ensures b * p >= p
  {
  }

  /** No byte string shorter than a stripped one denotes the same number. */
  lemma StrippedIsShortest(r: seq<Byte>, xs: seq<Byte>)
    requires |r| >= 1 && (|r| > 1 ==> r[0] != 0)
    requires |xs| >= 1 && BigEndian(xs) == BigEndian(r)
    ensures |r| <= |xs|
  {
    if |xs| < |r| {
      FirstByteWeighs(r);
      BigEndianBound(xs);
      Pow2Monotone(8 * |xs|, 8 * (|r| - 1));
    }
  }

  /** `int2bytes` writes the shortest big-endian form. */
  lemma IntBytesShortest(v: int, xs: seq<Byte>)
    requires -TWO_63 <= v < TWO_63
    requires |xs| >= 1 && BigEndian(xs) == Unsigned64(v)
    ensures |IntBytes(v)| <= |xs|
  {
    IntRoundTrip(v);
    StripKeepsNumber(ToBytes(Unsigned64(v), 8));
    StrippedIsShortest(IntBytes(v), xs);
  }

  /** `int2bytes` after `bytes2int` strips exactly the leading zeros. */
  lemma BytesRoundTrip(xs: seq<Byte>)
    requires 1 <= |xs| <= 8
    ensures BigEndian(xs) < TWO_64 && IntBytes(Signed64(BigEndian(xs))) == StripZeros(xs)
  {
    FitsIn64(xs);
    var v := Signed64(BigEndian(xs));
    var r, s := IntBytes(v), StripZeros(xs);
    IntRoundTrip(v);
    StripKeepsNumber(ToBytes(Unsigned64(v), 8));
    StripKeepsNumber(xs);
    assert BigEndian(r) == BigEndian(s);
    StrippedIsShortest(r, s);
    StrippedIsShortest(s, r);
    BigEndianInjective(r, s);
  }
}
