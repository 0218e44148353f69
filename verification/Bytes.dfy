/** Bytes, powers of two and the big-endian reading of a byte string. */
module Bytes {

  type Byte = bv8

  /** 2 to the power n. */
  function Pow2(n: nat): (p: nat)
    ensures p > 0
  {
    if n == 0 then 1 else 2 * Pow2(n - 1)
  }

  lemma {:induction false} Pow2Add(m: nat, n: nat)
    ensures Pow2(m + n) == Pow2(m) * Pow2(n)
  {
    if m == 0 {
    } else {
      Pow2Add(m - 1, n);
      assert m + n - 1 == (m - 1) + n;
      assert 2 * (Pow2(m - 1) * Pow2(n)) == (2 * Pow2(m - 1)) * Pow2(n);
    }
  }

  lemma {:induction false} Pow2Monotone(m: nat, n: nat)
    requires m <= n
    ensures Pow2(m) <= Pow2(n)
    decreases n
  {
    if m < n {
      Pow2Monotone(m, n - 1);
    }
  }

  /** The first powers as literals, so that byte arithmetic is decided by value. */
  lemma Pow2Table()
    ensures Pow2(0) == 1 && Pow2(1) == 2 && Pow2(2) == 4 && Pow2(3) == 8 && Pow2(4) == 16
    ensures Pow2(5) == 32 && Pow2(6) == 64 && Pow2(7) == 128 && Pow2(8) == 256
  {
    assert Pow2(4) == 16;
    assert Pow2(6) == 64;
  }

  /** The number a byte string denotes, most significant byte first. */
  function BigEndian(xs: seq<Byte>): (v: nat)
  {
    if |xs| == 0 then 0 else xs[0] as nat * Pow2(8 * (|xs| - 1)) + BigEndian(xs[1..])
  }

  lemma AppendBound(b: nat, p: nat, rest: nat)
    requires b < 256 && rest < p
    ensures b * p + rest < 256 * p
  {
    assert b * p <= 255 * p;
  }

  lemma {:induction false} BigEndianBound(xs: seq<Byte>)
    ensures BigEndian(xs) < Pow2(8 * |xs|)
  {
    if |xs| > 0 {
      BigEndianBound(xs[1..]);
      Pow2Add(8, 8 * (|xs| - 1));
      Pow2Table();
      AppendBound(xs[0] as nat, Pow2(8 * (|xs| - 1)), BigEndian(xs[1..]));
    }
  }

  lemma Regroup(b: nat, p: nat, q: nat, u: nat, v: nat)
    ensures b * (p * q) + (u * q + v) == (b * p + u) * q + v
  {
  }

  lemma {:induction false} BigEndianConcat(xs: seq<Byte>, ys: seq<Byte>)
    ensures BigEndian(xs + ys) == BigEndian(xs) * Pow2(8 * |ys|) + BigEndian(ys)
  {
    if |xs| == 0 {
      assert xs + ys == ys;
    } else {
      assert (xs + ys)[1..] == xs[1..] + ys;
      BigEndianConcat(xs[1..], ys);
      var m, n := 8 * (|xs| - 1), 8 * |ys|;
      Pow2Add(m, n);
      assert 8 * (|xs + ys| - 1) == m + n;
      Regroup(xs[0] as nat, Pow2(m), Pow2(n), BigEndian(xs[1..]), BigEndian(ys));
    }
  }

  /** The last n bytes of a number, most significant first. */
  function ToBytes(v: nat, n: nat): (xs: seq<Byte>)
    ensures |xs| == n
  {
    if n == 0 then [] else ToBytes(v / 256, n - 1) + [LowByte(v)]
  }

  /** Conversion of a number to a byte, which truncates. */
  function LowByte(v: int): (b: Byte) {
    (v % 256) as Byte
  }

  lemma NextByte(b: Byte)
    requires b as int < 255
    ensures (b + 1) as int == b as int + 1
  {
    assert b != 255;
  }

  /** Every number below 256 is the value of a byte, found by counting. */
  lemma {:induction false} SomeByte(x: nat) returns (b: Byte)
    requires x < 256
    ensures b as int == x
  {
    if x == 0 {
      b := 0;
    } else {
      b := SomeByte(x - 1);
      NextByte(b);
      b := b + 1;
    }
  }

  lemma ValueBack(b: Byte)
    ensures (b as int) as Byte == b
  {
  }

  lemma CastBack(x: int)
    requires 0 <= x < 256
    ensures (x as Byte) as int == x
  {
    var b := SomeByte(x);
    ValueBack(b);
  }

  lemma LowByteValue(v: int)
    ensures LowByte(v) as int == v % 256
  {
    CastBack(v % 256);
  }

  lemma DivModStep(v: nat, p: nat)
    requires p > 0
    ensures (v / 256) % p * 256 + v % 256 == v % (256 * p)
    ensures (v / 256) / p == v / (256 * p)
  {
    var q, r := (v / 256) / p, (v / 256) % p;
    assert v / 256 == q * p + r;
    var low := r * 256 + v % 256;
    assert v == (q * p + r) * 256 + v % 256 == q * (256 * p) + low;
    assert low < 256 * p by { assert r <= p - 1; assert r * 256 <= (p - 1) * 256; }
    ModUnique(v, 256 * p, q, low);
  }

  lemma ModUnique(v: nat, m: nat, q: nat, r: nat)
    requires v == q * m + r && r < m
    ensures v % m == r && v / m == q
  {
    var d, e := q - v / m, v % m - r;
    assert d * m == e by { assert v == (v / m) * m + v % m; }
    SmallMultiple(d, m);
  }

  lemma SmallMultiple(d: int, m: int)
    requires -m < d * m < m
    ensures d == 0
  {
  }

  lemma AppendByte(xs: seq<Byte>, b: Byte)
    ensures BigEndian(xs + [b]) == BigEndian(xs) * 256 + b as nat
  {
    BigEndianConcat(xs, [b]);
    SingleByte(b);
    Pow2Table();
    hide BigEndian, Pow2;
    assert 8 * |[b]| == 8;
  }

  lemma SingleByte(b: Byte)
    ensures BigEndian([b]) == b as nat
  {
    assert BigEndian([b][1..]) == 0;
  }

  /** A number modulo 2 to the 8n: what n bytes can hold of it. */
  function Low(v: nat, n: nat): (r: nat) {
    v % Pow2(8 * n)
  }

  lemma LowStep(v: nat, n: nat)
    ensures Low(v, n + 1) == Low(v / 256, n) * 256 + v % 256
    ensures Low(v, 0) == 0
  {
    Pow2Table();
    Pow2Add(8, 8 * n);
    DivModStep(v, Pow2(8 * n));
  }

  /** Reading back n bytes of a number gives what they can hold of it. */
  lemma {:induction false} ReadToBytes(v: nat, n: nat)
    ensures BigEndian(ToBytes(v, n)) == Low(v, n)
  {
    hide Low, LowByte;
    if n == 0 {
      LowStep(v, 0);
    } else {
      ReadToBytes(v / 256, n - 1);
      LowStep(v, n - 1);
      AppendByte(ToBytes(v / 256, n - 1), LowByte(v));
      LowByteValue(v);
    }
  }

  /** Byte strings of one length that denote the same number are the same. */
  lemma {:induction false} BigEndianInjective(xs: seq<Byte>, ys: seq<Byte>)
    requires |xs| == |ys| && BigEndian(xs) == BigEndian(ys)
    ensures xs == ys
  {
    if |xs| > 0 {
      BigEndianBound(xs[1..]);
      BigEndianBound(ys[1..]);
      LeadUnique(xs[0] as nat, ys[0] as nat, Pow2(8 * (|xs| - 1)), BigEndian(xs[1..]), BigEndian(ys[1..]));
      BigEndianInjective(xs[1..], ys[1..]);
      assert xs == [xs[0]] + xs[1..] && ys == [ys[0]] + ys[1..];
    }
  }

  lemma LeadUnique(a: nat, b: nat, p: nat, x: nat, y: nat)
    requires x < p && y < p && a * p + x == b * p + y
    ensures a == b && x == y
  {
    ModUnique(a * p + x, p, a, x);
    ModUnique(a * p + x, p, b, y);
  }

  lemma {:induction false} ToBytesAt(v: nat, n: nat, i: nat)
    requires i < n
    ensures ToBytes(v, n)[i] == LowByte(v / Pow2(8 * (n - 1 - i)))
  {
    hide LowByte;
    if i == n - 1 {
      Pow2Table();
    } else {
      ToBytesAt(v / 256, n - 1, i);
      DivByBytes(v, n - 2 - i);
    }
  }

  lemma DivByBytes(v: nat, k: nat)
    ensures (v / 256) / Pow2(8 * k) == v / Pow2(8 * (k + 1))
  {
    Pow2Table();
    Pow2Add(8, 8 * k);
    DivModStep(v, Pow2(8 * k));
  }
}
