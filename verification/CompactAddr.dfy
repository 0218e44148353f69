/**
  Compact node addresses (krpc/krpc.go, BEP 5): four octets and a 16-bit port printed as
  text, and that text parsed back by the address parsers of Go's net and strconv packages.
  The text form of 16-byte addresses is a parameter.
 */
module CompactAddr {
  import opened Bytes
  import opened Results

  // ---------- decimal numbers ----------

  function Digit(d: nat): (c: char)
    requires d < 10
  {
    '0' + d as char
  }

  predicate IsDigit(c: char) {
    '0' <= c <= '9'
  }

  /** The %d form of a number. */
  function Decimal(n: nat): (s: string)
    ensures |s| >= 1 && forall i :: 0 <= i < |s| ==> IsDigit(s[i])
  {
    if n < 10 then [Digit(n)] else Decimal(n / 10) + [Digit(n % 10)]
  }

  function DigitValue(c: char): (d: nat)
    requires IsDigit(c)
  {
    (c - '0') as nat
  }

  /** The number a string of digits denotes. */
  function Number(s: string): (n: nat)
    requires forall i :: 0 <= i < |s| ==> IsDigit(s[i])
  {
    if |s| == 0 then 0 else Number(s[..|s| - 1]) * 10 + DigitValue(s[|s| - 1])
  }

  lemma {:induction false} DecimalRoundTrip(n: nat)
    ensures Number(Decimal(n)) == n
  {
    if n < 10 {
      assert Decimal(n)[..0] == [];
    } else {
      DecimalRoundTrip(n / 10);
      var s := Decimal(n);
      assert s[..|s| - 1] == Decimal(n / 10);
    }
  }

  /** How many digits a text starts with. */
  function Digits(s: string): (k: nat)
    ensures k <= |s| && forall i :: 0 <= i < k ==> IsDigit(s[i])
  {
    if |s| == 0 || !IsDigit(s[0]) then 0 else 1 + Digits(s[1..])
  }

  lemma {:induction false} DigitsStop(s: string, rest: string)
    requires forall i :: 0 <= i < |s| ==> IsDigit(s[i])
    requires |rest| == 0 || !IsDigit(rest[0])
    ensures Digits(s + rest) == |s|
  {
    if |s| == 0 {
      assert s + rest == rest;
    } else {
      assert (s + rest)[1..] == s[1..] + rest;
      DigitsStop(s[1..], rest);
    }
  }

  // ---------- the library parsers ----------

  /** The octets of a dotted quad from the i-th on; net.parseIPv4. */
  function ParseOctets(s: string, i: nat): (r: Result<seq<Byte>>)
    ensures r.Ok? ==> |r.value| == if i < 4 then 4 - i else 0
    decreases 4 - i
  {
    if i >= 4 then (if |s| == 0 then Ok([]) else Err)
    else if |s| == 0 || (i > 0 && s[0] != '.') then Err
    else
      var t := if i > 0 then s[1..] else s;
      var k := Digits(t);
      var n := Number(t[..k]);
      if k == 0 || n > 255 then Err else
        var rest :- ParseOctets(t[k..], i + 1);
        Ok([n as Byte] + rest)
  }

  function LastColon(s: string): (k: int)
    ensures -1 <= k < |s| && (k >= 0 ==> s[k] == ':')
    ensures forall i :: k < i < |s| ==> s[i] != ':'
  {
    if |s| == 0 then -1 else if s[|s| - 1] == ':' then |s| - 1 else LastColon(s[..|s| - 1])
  }

  /** net.SplitHostPort, with empty strings on an error, which the caller drops. */
  function SplitHostPort(s: string): (r: (string, string)) {
    var k := LastColon(s);
    if k < 0 then ("", "")
    else if s[0] == '[' then
      (if k >= 2 && s[k - 1] == ']' && '[' !in s[1..] && ']' !in s[1..k - 1] && ']' !in s[k..]
       then (s[1..k - 1], s[k + 1..]) else ("", ""))
    else if ':' in s[..k] || '[' in s || ']' in s then ("", "")
    else (s[..k], s[k + 1..])
  }

  /** net.ParseIP: the first dot or colon decides the form; the colon form is a parameter. */
  function ParseIP(host: string, parse6: string -> Result<seq<Byte>>): (r: Result<seq<Byte>>) {
    var k := Separator(host);
    if k == |host| then Err
    else if host[k] == '.' then ParseOctets(host, 0)
    else parse6(host)
  }

  function Separator(s: string): (k: nat)
    ensures k <= |s| && (k < |s| ==> s[k] == '.' || s[k] == ':')
    ensures forall i :: 0 <= i < k ==> s[i] != '.' && s[i] != ':'
  {
    if |s| == 0 || s[0] == '.' || s[0] == ':' then 0 else 1 + Separator(s[1..])
  }

  /** strconv.ParseUint(port, 10, 16): 0 for what is no number, the limit for what is too large. */
  function ParsePort(s: string): (p: nat)
    ensures p < 65536
  {
    if |s| == 0 || Digits(s) != |s| then 0
    else if Number(s) > 65535 then 65535 else Number(s)
  }

  // ---------- the codec ----------

  function Port(hi: Byte, lo: Byte): (p: nat)
    ensures p < 65536
  {
    hi as nat * 256 + lo as nat
  }

  /** The text of octets i to 3, each after its dot except the very first. */
  function OctetText(c: seq<Byte>, i: nat): (s: string)
    requires |c| >= 4 && i <= 4
    decreases 4 - i
  {
    if i == 4 then "" else (if i > 0 then "." else "") + (Decimal(c[i] as nat) + OctetText(c, i + 1))
  }

  /** The %d.%d.%d.%d form of four octets. */
  function DottedQuad(c: seq<Byte>): (s: string)
    requires |c| >= 4
  {
    OctetText(c, 0)
  }

  function DecodeCompactNodeAddr(c: seq<Byte>, print6: seq<Byte> -> string): (s: string) {
    if |c| == 6 then DottedQuad(c) + ":" + Decimal(Port(c[4], c[5]))
    else if |c| == 18 then "[" + print6(c[..16]) + "]:" + Decimal(Port(c[16], c[17]))
    else ""
  }

  /** net.IP.To4 on a parsed address: a 4-byte one, or a 16-byte one that maps one. */
  function To4(ip: seq<Byte>): (r: Result<seq<Byte>>) {
    if |ip| == 4 then Ok(ip)
    else if |ip| == 16 && ip[..12] == [0, 0, 0, 0, 0, 0, 0, 0, 0, 0, 0xff, 0xff] then Ok(ip[12..])
    else Err
  }

  /** Parses the text and fills a buffer with the address and the port, high byte first. */
  method EncodeCompactNodeAddr(addr: string, parse6: string -> Result<seq<Byte>>) returns (r: seq<Byte>)
    ensures r == Encoded(addr, parse6)
  {
    var (host, port) := SplitHostPort(addr);
    var ip := ParseIP(host, parse6);
    if ip.Err? {
      return [];
    }
    var c := ParsePort(port);
    var ip4 := To4(ip.value);
    r := Filled(if ip4.Ok? then ip4.value else ip.value, LowByte(c / 256), LowByte(c));
  }

  /** The buffer: an address with the two bytes of a port after it. */
  method Filled(ip: seq<Byte>, hi: Byte, lo: Byte) returns (r: seq<Byte>)
    ensures r == ip + [hi, lo]
  {
    var n := |ip|;
    var a := new Byte[n + 2](_ => 0);
    forall i | 0 <= i < n { a[i] := ip[i]; }
    a[n] := hi;
    a[n + 1] := lo;
    assert a[..] == ip + [hi, lo];
    return a[..];
  }

  function Encoded(addr: string, parse6: string -> Result<seq<Byte>>): (r: seq<Byte>) {
    var (host, port) := SplitHostPort(addr);
    var ip := ParseIP(host, parse6);
    if ip.Err? then [] else
      var c := ParsePort(port);
      (if To4(ip.value).Ok? then To4(ip.value).value else ip.value) + [LowByte(c / 256), LowByte(c)]
  }

  // ---------- round trip ----------

  lemma LowByteBack(b: Byte)
    ensures LowByte(b as int) == b
  {
    ValueBack(b);
    LowByteOfSmall(b as int);
  }

  lemma LowByteOfSmall(x: int)
    requires 0 <= x < 256
    ensures LowByte(x) == x as Byte
  {
    assert x % 256 == x;
  }

  lemma PortBytes(hi: Byte, lo: Byte)
    ensures LowByte(Port(hi, lo) / 256) == hi && LowByte(Port(hi, lo)) == lo
  {
    LowByteBack(hi);
    LowByteBack(lo);
    SplitPort(hi as int, lo as int);
  }

  lemma SplitPort(h: int, l: int)
    requires 0 <= l < 256
    ensures (h * 256 + l) / 256 == h && LowByte(h * 256 + l) == LowByte(l)
  {
    assert (h * 256 + l) % 256 == l % 256;
  }

  /** Parsing an octet that starts a text gives it back and goes on after it. */
  lemma OctetFirst(b: Byte, rest: string)
    requires |rest| == 0 || !IsDigit(rest[0])
    ensures var t := Decimal(b as nat) + rest;
            var k := Digits(t);
            k > 0 && Number(t[..k]) as int == b as int && t[k..] == rest
  {
    var d := Decimal(b as nat);
    DigitsStop(d, rest);
    DecimalRoundTrip(b as nat);
    assert (d + rest)[..|d|] == d;
  }

  lemma {:induction false} OctetsRoundTrip(c: seq<Byte>, i: nat)
    requires |c| >= 4 && i <= 4
    ensures ParseOctets(OctetText(c, i), i) == Ok(c[i..4])
    decreases 4 - i
  {
    hide Digits, Number, Decimal, ParseOctets, OctetText;
    if i == 4 {
      NoOctetsLeft();
      NoMoreOctets(c);
      assert c[i..4] == [];
    } else {
      var rest := OctetText(c, i + 1);
      OctetStart(c, i + 1);
      OctetFirst(c[i], rest);
      OctetIs(c, i, c[i] as nat, rest);
      OctetsRoundTrip(c, i + 1);
      ParseOneOctet(OctetText(c, i), i, c[i], rest, c[i + 1..4]);
      assert c[i..4] == [c[i]] + c[i + 1..4];
    }
  }

  lemma OctetStart(c: seq<Byte>, i: nat)
    requires |c| >= 4 && 0 < i <= 4
    ensures |OctetText(c, i)| == 0 || OctetText(c, i)[0] == '.'
  {
  }

  lemma NoOctetsLeft()
    ensures ParseOctets("", 4) == Ok([])
  {
  }

  lemma ParseOneOctet(s: string, i: nat, b: Byte, rest: string, bytes: seq<Byte>)
    requires i < 4 && s == (if i > 0 then "." else "") + (Decimal(b as nat) + rest)
    requires ParseOctets(rest, i + 1) == Ok(bytes)
    requires var t := Decimal(b as nat) + rest;
             var k := Digits(t);
             k > 0 && Number(t[..k]) as int == b as int && t[k..] == rest
    ensures ParseOctets(s, i) == Ok([b] + bytes)
  {
    hide Digits, Number, Decimal;
    var t := Decimal(b as nat) + rest;
    assert i > 0 ==> s[1..] == t && s[0] == '.';
    assert i == 0 ==> s == t;
    ValueBack(b);
  }

  /** Texts made of digits and dots only. */
  ghost predicate Plain(s: string) {
    forall i :: 0 <= i < |s| ==> IsDigit(s[i]) || s[i] == '.'
  }

  lemma SplitPlain(host: string, port: string)
    requires Plain(host) && Plain(port) && |host| > 0
    ensures SplitHostPort(host + ":" + port) == (host, port)
  {
    var s := host + ":" + port;
    assert s[|host|] == ':';
    assert LastColon(s) == |host|;
    assert s[..|host|] == host && s[|host| + 1..] == port;
    assert forall i :: 0 <= i < |s| ==> s[i] == ':' || IsDigit(s[i]) || s[i] == '.';
    assert ':' !in host;
  }

  lemma {:induction false} OctetsArePlain(c: seq<Byte>, i: nat)
    requires |c| >= 4 && i <= 4
    ensures Plain(OctetText(c, i))
    decreases 4 - i
  {
    if i < 4 {
      OctetsArePlain(c, i + 1);
    }
  }

  lemma QuadStartsPlain(c: seq<Byte>)
    requires |c| >= 4
    ensures Plain(DottedQuad(c)) && |DottedQuad(c)| > 0
    ensures Separator(DottedQuad(c)) < |DottedQuad(c)| && DottedQuad(c)[Separator(DottedQuad(c))] == '.'
  {
    OctetsArePlain(c, 0);
    var s := DottedQuad(c);
    var a := Decimal(c[0] as nat);
    assert s == a + OctetText(c, 1);
    assert s[|a|] == '.';
    assert s[Separator(s)] != ':';
  }

  lemma PortRoundTrip(p: nat)
    requires p < 65536
    ensures ParsePort(Decimal(p)) == p && Plain(Decimal(p))
  {
    var port := Decimal(p);
    DigitsStop(port, "");
    assert port + "" == port;
    DecimalRoundTrip(p);
  }

  lemma QuadRoundTrip(c: seq<Byte>, parse6: string -> Result<seq<Byte>>)
    requires |c| >= 4
    ensures ParseIP(DottedQuad(c), parse6) == Ok(c[..4])
  {
    QuadStartsPlain(c);
    OctetsRoundTrip(c, 0);
  }

  /** What a text of digits and dots reads as for a port: what is too large is the largest. */
  function PortOf(port: string): (p: nat)
    requires Plain(port)
    ensures p < 65536
  {
    if Digits(port) < |port| || |port| == 0 then 0
    else if Number(port) < 65536 then Number(port) else 65535
  }

  /** Four octets and any port text encode to the octets and the port, high byte first. */
  lemma QuadAndPort(c: seq<Byte>, port: string, parse6: string -> Result<seq<Byte>>)
    requires |c| == 4 && Plain(port)
    ensures var r := Encoded(DottedQuad(c) + ":" + port, parse6);
            |r| == 6 && r[..4] == c && r[4] as int == PortOf(port) / 256 && r[5] as int == PortOf(port) % 256
  {
    hide SplitHostPort, ParseIP, LowByte, Number, Digits, Decimal, DottedQuad, Encoded;
    QuadStartsPlain(c);
    SplitPlain(DottedQuad(c), port);
    QuadRoundTrip(c, parse6);
    assert c[..4] == c;
    EncodesParts(DottedQuad(c) + ":" + port, DottedQuad(c), port, c, parse6);
    PortInBytes(PortOf(port));
  }

  lemma PortInBytes(p: nat)
    requires p < 65536
    ensures LowByte(p / 256) as int == p / 256 && LowByte(p) as int == p % 256
  {
    LowByteValue(p / 256);
    LowByteValue(p);
  }

  /** Encoding the text of any 6-byte compact address gives back its bytes. */
  lemma CompactRoundTrip(c: seq<Byte>, print6: seq<Byte> -> string, parse6: string -> Result<seq<Byte>>)
    requires |c| == 6
    ensures Encoded(DecodeCompactNodeAddr(c, print6), parse6) == c
  {
    hide SplitHostPort, ParseIP, ParsePort, LowByte, Port, Decimal, DottedQuad, Encoded;
    var p := Port(c[4], c[5]);
    var host, port := DottedQuad(c), Decimal(p);
    QuadStartsPlain(c);
    PortRoundTrip(p);
    SplitPlain(host, port);
    QuadRoundTrip(c, parse6);
    PortBytes(c[4], c[5]);
    EncodesParts(host + ":" + port, host, port, c[..4], parse6);
    assert c == c[..4] + [c[4], c[5]];
  }

  lemma EncodesParts(addr: string, host: string, port: string, ip: seq<Byte>, parse6: string -> Result<seq<Byte>>)
    requires SplitHostPort(addr) == (host, port) && ParseIP(host, parse6) == Ok(ip)
    ensures Encoded(addr, parse6)
            == (if To4(ip).Ok? then To4(ip).value else ip) + [LowByte(ParsePort(port) / 256), LowByte(ParsePort(port))]
  {
    hide SplitHostPort, ParseIP, ParsePort, LowByte;
  }

  // ---------- 18-byte addresses ----------

  /** A text that stands between brackets as it is. */
  ghost predicate Unbracketed(s: string) {
    forall i :: 0 <= i < |s| ==> s[i] != '[' && s[i] != ']'
  }

  ghost predicate Without(s: string, c: char) {
    forall i :: 0 <= i < |s| ==> s[i] != c
  }

  /** A host and a port with one colon, or with brackets around a host that may have more. */
  ghost predicate HostAndPort(s: string, host: string, port: string) {
    && Unbracketed(host) && Unbracketed(port) && Without(port, ':')
    && ((s == host + ":" + port && Without(host, ':')) || s == "[" + host + "]:" + port)
  }

  lemma SplitBracketed(host: string, port: string)
    requires Unbracketed(host) && Unbracketed(port) && Without(port, ':')
    ensures SplitHostPort("[" + host + "]:" + port) == (host, port)
  {
    var s := "[" + host + "]:" + port;
    var k := |host| + 2;
    assert s[k] == ':' && s[k - 1] == ']';
    assert forall i :: k < i < |s| ==> s[i] == port[i - k - 1];
    assert LastColon(s) == k;
    assert s[1..k - 1] == host && s[k + 1..] == port;
    assert forall i :: 1 <= i < |s| && i != k - 1 ==> s[i] != '[' && s[i] != ']';
  }

  lemma SplitBare(host: string, port: string)
    requires host != "" && Unbracketed(host) && Without(host, ':') && Unbracketed(port) && Without(port, ':')
    ensures SplitHostPort(host + ":" + port) == (host, port)
  {
    var s := host + ":" + port;
    assert s[|host|] == ':';
    assert forall i :: |host| < i < |s| ==> s[i] == port[i - |host| - 1];
    assert LastColon(s) == |host|;
    assert s[..|host|] == host && s[|host| + 1..] == port;
    assert forall i :: 0 <= i < |s| ==> s[i] != '[' && s[i] != ']';
    assert ':' !in host && s[0] == host[0];
  }

  lemma Absent(s: string, i: nat, j: nat, c: char)
    requires i <= j <= |s| && c !in s[i..j]
    ensures forall m :: i <= m < j ==> s[m] != c
  {
    forall m | i <= m < j
      ensures s[m] != c
    {
      assert s[i..j][m - i] == s[m];
    }
  }

  /** A text around a last colon, once its characters are known. */
  lemma PartsAround(s: string, i: nat, j: nat, k: nat)
    requires i <= j <= k < |s|
    requires forall m :: i <= m < j || k < m < |s| ==> s[m] != '[' && s[m] != ']'
    requires forall m :: k < m < |s| ==> s[m] != ':'
    ensures Unbracketed(s[i..j]) && Unbracketed(s[k + 1..]) && Without(s[k + 1..], ':')
    ensures (forall m :: i <= m < j ==> s[m] != ':') ==> Without(s[i..j], ':')
  {
  }

  lemma BareParts(s: string, k: nat)
    requires k < |s| && k == LastColon(s) && s[k] == ':' && ':' !in s[..k] && '[' !in s && ']' !in s
    ensures HostAndPort(s, s[..k], s[k + 1..])
  {
    hide LastColon;
    assert s[..k] == s[0..k] && s == s[0..|s|];
    Absent(s, 0, k, ':');
    Absent(s, 0, |s|, '[');
    Absent(s, 0, |s|, ']');
    PartsAround(s, 0, k, k);
    hide Unbracketed, Without;
    assert s == s[..k] + ":" + s[k + 1..];
  }

  lemma BracketsAbsent(s: string, k: nat)
    requires 2 <= k < |s| && '[' !in s[1..] && ']' !in s[1..k - 1] && ']' !in s[k..]
    ensures forall m :: 1 <= m < k - 1 || k < m < |s| ==> s[m] != '[' && s[m] != ']'
  {
    assert s[1..] == s[1..|s|] && s[k..] == s[k..|s|];
    Absent(s, 1, |s|, '[');
    Absent(s, 1, k - 1, ']');
    Absent(s, k, |s|, ']');
  }

  lemma BracketedParts(s: string, k: nat)
    requires 2 <= k < |s| && k == LastColon(s) && s[0] == '[' && s[k - 1] == ']'
    requires forall m :: 1 <= m < k - 1 || k < m < |s| ==> s[m] != '[' && s[m] != ']'
    ensures HostAndPort(s, s[1..k - 1], s[k + 1..])
  {
    hide LastColon, Unbracketed, Without;
    PartsAround(s, 1, k - 1, k);
    BracketedText(s, k);
  }

  lemma BracketedText(s: string, k: nat)
    requires 2 <= k < |s| && s[0] == '[' && s[k - 1] == ']' && s[k] == ':'
    ensures s == "[" + s[1..k - 1] + "]:" + s[k + 1..]
  {
    assert s == s[..1] + s[1..k - 1] + s[k - 1..k + 1] + s[k + 1..];
  }

  /** Exactly such texts are split, and into those parts. */
  lemma SplitIff(s: string, host: string, port: string)
    requires host != ""
    ensures SplitHostPort(s) == (host, port) <==> HostAndPort(s, host, port)
  {
    if SplitHostPort(s) == (host, port) {
      hide HostAndPort;
      var k := LastColon(s);
      if s[0] == '[' {
        BracketsAbsent(s, k);
        BracketedParts(s, k);
      } else {
        BareParts(s, k);
      }
    }
    if HostAndPort(s, host, port) {
      hide SplitHostPort;
      if s == "[" + host + "]:" + port {
        SplitBracketed(host, port);
      } else {
        SplitBare(host, port);
      }
    }
  }

  /** Whether 16 bytes are an IPv4 address in the form of RFC 4291, section 2.5.5.2. */
  predicate Maps4(ip: seq<Byte>)
    requires |ip| == 16
  {
    (forall i :: 0 <= i < 10 ==> ip[i] == 0) && ip[10] == 0xff && ip[11] == 0xff
  }

  lemma To4IffMapped(ip: seq<Byte>)
    requires |ip| == 16
    ensures To4(ip) == if Maps4(ip) then Ok(ip[12..]) else Err
  {
    var zeros := [0, 0, 0, 0, 0, 0, 0, 0, 0, 0, 0xff, 0xff];
    assert ip[..12] == zeros <==> Maps4(ip) by {
      if ip[..12] == zeros {
        assert forall i :: 0 <= i < 12 ==> ip[i] == zeros[i];
      }
    }
  }

  /** In the text of 18 bytes the last two are the port. */
  lemma LongText(c: seq<Byte>, print6: seq<Byte> -> string)
    requires |c| == 18
    ensures DecodeCompactNodeAddr(c, print6)
            == "[" + print6(c[..16]) + "]:" + Decimal(256 * (c[16] as nat) + c[17] as nat)
  {
    hide Decimal, Port, DecodeCompactNodeAddr;
    LongTextParts(c, print6);
    PortIs(c[16], c[17]);
  }

  lemma PortIs(hi: Byte, lo: Byte)
    ensures Port(hi, lo) == 256 * (hi as nat) + lo as nat
  {
  }

  /**
    With a parser that undoes the printing, the text of 18 bytes encodes to the same bytes,
    but for a mapped IPv4 address, of which six are left.
   */
  lemma LongRoundTrip(c: seq<Byte>, print6: seq<Byte> -> string, parse6: string -> Result<seq<Byte>>)
    requires |c| == 18
    requires Unbracketed(print6(c[..16])) && ParseIP(print6(c[..16]), parse6) == Ok(c[..16])
    ensures Encoded(DecodeCompactNodeAddr(c, print6), parse6) == if Maps4(c[..16]) then c[12..] else c
  {
    hide SplitHostPort, ParseIP, ParsePort, LowByte, Decimal, Encoded, To4, Maps4, Port, DecodeCompactNodeAddr;
    var p, ip := Port(c[16], c[17]), c[..16];
    var host, port := print6(ip), Decimal(p);
    LongTextParts(c, print6);
    PortRoundTrip(p);
    SplitBracketed(host, port);
    PortBytes(c[16], c[17]);
    EncodesParts("[" + host + "]:" + port, host, port, ip, parse6);
    To4IffMapped(ip);
    LongParts(c);
  }

  lemma LongTextParts(c: seq<Byte>, print6: seq<Byte> -> string)
    requires |c| == 18
    ensures DecodeCompactNodeAddr(c, print6) == "[" + print6(c[..16]) + "]:" + Decimal(Port(c[16], c[17]))
  {
    hide Decimal, Port;
  }

  lemma LongParts(c: seq<Byte>)
    requires |c| == 18
    ensures c == c[..16] + [c[16], c[17]] && c[12..] == c[..16][12..] + [c[16], c[17]]
  {
  }

  /** The program's own example of a compact address. */
  lemma ExampleText(print6: seq<Byte> -> string)
    ensures DecodeCompactNodeAddr([0xc0, 0xa8, 1, 1, 0x1a, 0xe1], print6) == "192.168.1.1:6881"
  {
    hide OctetText, Decimal, Port;
    var c: seq<Byte> := [0xc0, 0xa8, 1, 1, 0x1a, 0xe1];
    Decimals();
    NoMoreOctets(c);
    OctetIs(c, 3, 1, "");
    OctetIs(c, 2, 1, ".1");
    OctetIs(c, 1, 168, ".1.1");
    OctetIs(c, 0, 192, ".168.1.1");
    PortIs(c[4], c[5]);
  }

  lemma NoMoreOctets(c: seq<Byte>)
    requires |c| >= 4
    ensures OctetText(c, 4) == ""
  {
  }

  lemma OctetIs(c: seq<Byte>, i: nat, n: nat, rest: string)
    requires |c| >= 4 && i < 4 && c[i] as nat == n && OctetText(c, i + 1) == rest
    ensures OctetText(c, i) == (if i > 0 then "." else "") + (Decimal(n) + rest)
  {
    hide Decimal;
  }

  lemma Decimals()
    ensures Decimal(192) == "192" && Decimal(168) == "168" && Decimal(1) == "1" && Decimal(6881) == "6881"
  {
    assert Decimal(19) == "19" && Decimal(16) == "16";
    assert Decimal(68) == "68" && Decimal(688) == "688";
  }

  /** So different compact addresses have different texts, which is what the table keys on. */
  lemma CompactTextInjective(c: seq<Byte>, d: seq<Byte>, print6: seq<Byte> -> string)
    requires |c| == 6 && |d| == 6
    requires DecodeCompactNodeAddr(c, print6) == DecodeCompactNodeAddr(d, print6)
    ensures c == d
  {
    CompactRoundTrip(c, print6, _ => Err);
    CompactRoundTrip(d, print6, _ => Err);
  }
}
