/**
  Length-prefixed peer messages (bt/worker.go, BEP 3): `sendMessage` writes a 32-bit length
  and the body, `readMessage` reads one such frame into a buffer.
 */
module Framing {
  import opened Bytes
  import opened Codec

  const TWO_31: int := 0x8000_0000
  const TWO_32: int := 0x1_0000_0000

  /** Go's conversion of a length to int32, which wraps. */
  function Int32(n: nat): (v: int)
    ensures -TWO_31 <= v < TWO_31
  {
    var m := n % TWO_32;
    if m >= TWO_31 then m - TWO_32 else m
  }

  /** binary.Write of an int32, big-endian. */
  function Int32Bytes(v: int): (xs: seq<Byte>)
    requires -TWO_31 <= v < TWO_31
    ensures |xs| == 4
  {
    ToBytes(if v < 0 then v + TWO_32 else v, 4)
  }

  /** The bytes `sendMessage` puts on the wire. */
  function Frame(body: seq<Byte>): (f: seq<Byte>)
    ensures |f| == 4 + |body|
  {
    Int32Bytes(Int32(|body|)) + body
  }

  function Stream(bodies: seq<seq<Byte>>): (s: seq<Byte>) {
    if |bodies| == 0 then [] else Frame(bodies[0]) + Stream(bodies[1..])
  }

  /** Whether a whole frame is at the front of the input. */
  predicate HasFrame(input: seq<Byte>) {
    |input| >= 4 && |input| - 4 >= BigEndian(input[..4])
  }

  function FirstBody(input: seq<Byte>): (body: seq<Byte>)
    requires HasFrame(input)
    ensures |body| == BigEndian(input[..4])
  {
    input[4..4 + BigEndian(input[..4])]
  }

  function AfterFrame(input: seq<Byte>): (rest: seq<Byte>)
    requires HasFrame(input)
    ensures |rest| < |input|
  {
    input[4 + BigEndian(input[..4])..]
  }

  /** The bodies of the frames at the front of the input, in order. */
  function Bodies(input: seq<Byte>): (bodies: seq<seq<Byte>>)
    decreases |input|
  {
    if HasFrame(input) then [FirstBody(input)] + Bodies(AfterFrame(input)) else []
  }

  /** What is left of the input after them. */
  function Leftover(input: seq<Byte>): (rest: seq<Byte>)
    decreases |input|
  {
    if HasFrame(input) then Leftover(AfterFrame(input)) else input
  }

  /** The header holds the length modulo 2 to the 32; int32 wrapping does not show. */
  lemma HeaderIsLength(body: seq<Byte>, tail: seq<Byte>)
    ensures BigEndian((Frame(body) + tail)[..4]) == |body| % TWO_32
  {
    hide BigEndian, ToBytes;
    assert (Frame(body) + tail)[..4] == Int32Bytes(Int32(|body|));
    HoldsFourBytes(|body| % TWO_32);
  }

  /** The header is the length in four bytes, the most significant first. */
  lemma FrameHeader(body: seq<Byte>)
    ensures var n, f := |body|, Frame(body);
            && f[0] as int == n / 0x100_0000 % 256 && f[1] as int == n / 0x1_0000 % 256
            && f[2] as int == n / 0x100 % 256 && f[3] as int == n % 256
            && f[4..] == body
  {
    hide ToBytes;
    FourDigits(|body| % TWO_32);
    LengthDigits(|body|);
  }

  lemma FourDigits(m: nat)
    ensures var h := ToBytes(m, 4);
            && h[0] as int == m / 0x100_0000 % 256 && h[1] as int == m / 0x1_0000 % 256
            && h[2] as int == m / 0x100 % 256 && h[3] as int == m % 256
  {
    SmallPowers();
    hide ToBytes, LowByte, Pow2;
    Digit(m, 0);
    Digit(m, 1);
    Digit(m, 2);
    Digit(m, 3);
  }

  lemma Digit(m: nat, i: nat)
    requires i < 4
    ensures ToBytes(m, 4)[i] as int == m / Pow2(8 * (3 - i)) % 256
  {
    hide ToBytes, LowByte, Pow2;
    ToBytesAt(m, 4, i);
    LowByteValue(m / Pow2(8 * (3 - i)));
  }

  lemma SmallPowers()
    ensures Pow2(0) == 1 && Pow2(8) == 0x100 && Pow2(16) == 0x1_0000 && Pow2(24) == 0x100_0000
  {
    Pow2Table();
    Pow2Add(8, 8);
    Pow2Add(8, 16);
  }

  lemma LengthDigits(n: nat)
    ensures var m := n % TWO_32;
            && m / 0x100_0000 % 256 == n / 0x100_0000 % 256 && m / 0x1_0000 % 256 == n / 0x1_0000 % 256
            && m / 0x100 % 256 == n / 0x100 % 256 && m % 256 == n % 256
  {
    DigitKept(n, 0x100_0000, 1);
    DigitKept(n, 0x1_0000, 0x100);
    DigitKept(n, 0x100, 0x1_0000);
    DigitKept(n, 1, 0x100_0000);
  }

  lemma DigitKept(n: nat, d: nat, c: nat)
    requires d > 0 && d * (256 * c) == TWO_32
    ensures n % TWO_32 / d % 256 == n / d % 256
  {
    var q, m := n / TWO_32, n % TWO_32;
    var u, v := m / d, m % d;
    assert n == d * (256 * c) * q + (d * u + v);
    assert n == (256 * c * q + u) * d + v by { Factor(d, 256 * c, q, u, v); }
    ModUnique(n, d, 256 * c * q + u, v);
    assert 256 * c * q + u == (c * q) * 256 + u by { Factor(256, c, q, 0, u); }
    SameRemainder(u, c * q);
  }

  lemma Factor(d: nat, k: nat, q: nat, u: nat, v: nat)
    ensures d * k * q + (d * u + v) == (k * q + u) * d + v
    ensures d * k * q == (k * q) * d
  {
  }

  lemma SameRemainder(u: nat, k: nat)
    ensures (k * 256 + u) % 256 == u % 256
  {
  }

  lemma HoldsFourBytes(m: nat)
    requires m < TWO_32
    ensures BigEndian(ToBytes(m, 4)) == m
  {
    hide BigEndian, ToBytes, Pow2;
    ReadToBytes(m, 4);
    Pow2Of64();
    assert 8 * 4 == 32;
  }

  lemma ReadOneFrame(body: seq<Byte>, tail: seq<Byte>)
    requires |body| < TWO_32
    ensures var s := Frame(body) + tail; HasFrame(s) && FirstBody(s) == body && AfterFrame(s) == tail
  {
    hide BigEndian;
    HeaderIsLength(body, tail);
  }

  /** Reading back any sequence of frames, whatever follows them. */
  lemma {:induction false} ReadFrames(bodies: seq<seq<Byte>>, tail: seq<Byte>)
    requires forall i :: 0 <= i < |bodies| ==> |bodies[i]| < TWO_32
    ensures Bodies(Stream(bodies) + tail) == bodies + Bodies(tail)
    ensures Leftover(Stream(bodies) + tail) == Leftover(tail)
  {
    hide BigEndian, Frame, FirstBody, AfterFrame, HasFrame;
    if |bodies| == 0 {
      assert Stream(bodies) + tail == tail;
    } else {
      var rest := Stream(bodies[1..]) + tail;
      assert Stream(bodies) + tail == Frame(bodies[0]) + rest;
      ReadOneFrame(bodies[0], rest);
      ReadFrames(bodies[1..], tail);
      assert bodies == [bodies[0]] + bodies[1..];
    }
  }

  /** The frames read back are the messages sent, zero-length ones included, and no byte is left. */
  lemma FramingRoundTrip(bodies: seq<seq<Byte>>)
    requires forall i :: 0 <= i < |bodies| ==> |bodies[i]| < TWO_32
    ensures Bodies(Stream(bodies)) == bodies && Leftover(Stream(bodies)) == []
  {
    ReadFrames(bodies, []);
    assert Stream(bodies) + [] == Stream(bodies);
    assert Bodies([]) == [];
  }

  /** The bound is exact: the length of a longer body does not fit its header. */
  lemma FrameReadsBackIffShort(body: seq<Byte>)
    ensures Bodies(Frame(body)) == [body] <==> |body| < TWO_32
  {
    hide BigEndian;
    HeaderIsLength(body, []);
    assert Frame(body) + [] == Frame(body);
    var f := Frame(body);
    if |body| < TWO_32 {
      ReadOneFrame(body, []);
      assert Bodies(AfterFrame(f)) == [];
    } else if HasFrame(f) {
      assert Bodies(f)[0] == FirstBody(f);
      assert |FirstBody(f)| < |body|;
    }
  }
}
