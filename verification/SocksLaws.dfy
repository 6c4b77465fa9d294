/** The handshake octet by octet, and the texts that count as UTF-8. */
module SocksLaws {
  import opened Bytes
  import opened Socks

  // ---------------------------------------------------------------- what is on the wire

  function PortIs(high: byte, low: byte): Port {
    high as int * 256 + low as int
  }

  /** A request for a host, and what the broker reads it as (RFC 1928, section 4). */
  lemma HostOnTheWire(reserved: byte, host: seq<byte>, high: byte, low: byte, tail: seq<byte>)
    requires 1 <= |host| <= 255 && Utf8(host)
    ensures ParseRequest([0x05, 0x01, reserved, 0x03, |host| as byte] + host + [high, low] + tail) ==
            Parsed(Ok(Domain(host, PortIs(high, low))), tail)
  {
    hide Utf8, ParseRequest, PortIs, BigEndian;
    PortOctets(high, low);
    RequestRoundTrip(Domain(host, PortIs(high, low)), reserved, tail);
    assert EncodeRequest(Domain(host, PortIs(high, low)), reserved) ==
           [0x05, 0x01, reserved, 0x03, |host| as byte] + host + [high, low];
  }

  /** The same for an IPv4 address and an IPv6 one. */
  lemma Ip4OnTheWire(reserved: byte, address: seq<byte>, high: byte, low: byte, tail: seq<byte>)
    requires |address| == 4
    ensures ParseRequest([0x05, 0x01, reserved, 0x01] + address + [high, low] + tail) ==
            Parsed(Ok(Ip4(address, PortIs(high, low))), tail)
  {
    hide ParseRequest, PortIs, BigEndian;
    PortOctets(high, low);
    RequestRoundTrip(Ip4(address, PortIs(high, low)), reserved, tail);
  }

  lemma Ip6OnTheWire(reserved: byte, address: seq<byte>, high: byte, low: byte, tail: seq<byte>)
    requires |address| == 16
    ensures ParseRequest([0x05, 0x01, reserved, 0x04] + address + [high, low] + tail) ==
            Parsed(Ok(Ip6(address, PortIs(high, low))), tail)
  {
    hide ParseRequest, PortIs, BigEndian;
    PortOctets(high, low);
    RequestRoundTrip(Ip6(address, PortIs(high, low)), reserved, tail);
  }

  lemma PortOctets(high: byte, low: byte)
    ensures BigEndian(PortIs(high, low), 2) == [high, low]
  {
    var n: nat := PortIs(high, low);
    assert n / 256 == high as int && n % 256 == low as int;
    assert BigEndian(n / 256, 1) == [high] by { assert BigEndian(n / 256 / 256, 0) == []; }
  }

  /** A greeting, and the methods it offers (section 3). */
  lemma GreetingOnTheWire(methods: seq<byte>, tail: seq<byte>)
    requires |methods| <= 255
    ensures ParseGreeting([0x05, |methods| as byte] + methods + tail) == Parsed(Ok(methods), tail)
  {
    hide ParseGreeting;
    GreetingRoundTrip(methods, tail);
  }

  // ---------------------------------------------------------------- UTF-8

  predicate Scalar(c: nat) {
    c < 0xD800 || 0xE000 <= c < 0x11_0000
  }

  /** RFC 3629, section 3. */
  function EncodeScalar(c: nat): (octets: seq<byte>)
    requires Scalar(c)
    ensures octets != []
  {
    if c < 0x80 then [c as byte]
    else if c < 0x800 then [(0xC0 + c / 64) as byte, (0x80 + c % 64) as byte]
    else if c < 0x1_0000 then [(0xE0 + c / 4096) as byte, (0x80 + c / 64 % 64) as byte, (0x80 + c % 64) as byte]
    else
      [(0xF0 + c / 262144) as byte, (0x80 + c / 4096 % 64) as byte, (0x80 + c / 64 % 64) as byte,
       (0x80 + c % 64) as byte]
  }

  function EncodeText(text: seq<nat>): seq<byte>
    requires Scalars(text)
  {
    if text == [] then [] else EncodeScalar(text[0]) + EncodeText(text[1..])
  }

  /** The character at the front of a text in UTF-8. */
  function DecodeScalar(t: seq<byte>): nat
    requires t != [] && Utf8Char(t) > 0
  {
    var n := Utf8Char(t);
    if n == 1 then t[0] as nat
    else if n == 2 then (t[0] as nat - 0xC0) * 64 + (t[1] as nat - 0x80)
    else if n == 3 then ((t[0] as nat - 0xE0) * 64 + (t[1] as nat - 0x80)) * 64 + (t[2] as nat - 0x80)
    else (((t[0] as nat - 0xF0) * 64 + (t[1] as nat - 0x80)) * 64 + (t[2] as nat - 0x80)) * 64 + (t[3] as nat - 0x80)
  }

  lemma DecodedIsEncoded(t: seq<byte>)
    requires t != [] && Utf8Char(t) > 0
    ensures Scalar(DecodeScalar(t)) && EncodeScalar(DecodeScalar(t)) == t[..Utf8Char(t)]
  {
    var n, a := Utf8Char(t), t[0] as nat;
    if n == 2 {
      assert EncodeScalar(DecodeScalar(t)) == [t[0], t[1]];
    } else if n == 3 {
      ThreeOctets(t[0], t[1], t[2]);
      assert DecodeScalar(t) == ((a - 0xE0) * 64 + (t[1] as nat - 0x80)) * 64 + (t[2] as nat - 0x80);
    } else if n == 4 {
      FourOctets(t[0], t[1], t[2], t[3]);
    }
  }

  lemma ThreeOctets(a: byte, b: byte, c: byte)
    requires 0xE0 <= a <= 0xEF && Continuation(b) && Continuation(c)
    requires (a == 0xE0 ==> b >= 0xA0) && (a == 0xED ==> b <= 0x9F)
    ensures var n := ((a as nat - 0xE0) * 64 + (b as nat - 0x80)) * 64 + (c as nat - 0x80);
            Scalar(n) && EncodeScalar(n) == [a, b, c]
  {
    var x, y, z := a as nat - 0xE0, b as nat - 0x80, c as nat - 0x80;
    var n := (x * 64 + y) * 64 + z;
    DigitsOfThree(x, y, z);
    assert 0x800 <= n < 0x1_0000;
  }

  lemma DigitsOfThree(x: nat, y: nat, z: nat)
    requires y < 64 && z < 64
    ensures var n := (x * 64 + y) * 64 + z; n / 4096 == x && n / 64 % 64 == y && n % 64 == z
  {
    var n := (x * 64 + y) * 64 + z;
    assert n / 64 == x * 64 + y;
  }

  lemma FourOctets(a: byte, b: byte, c: byte, d: byte)
    requires 0xF0 <= a <= 0xF4 && Continuation(b) && Continuation(c) && Continuation(d)
    requires (a == 0xF0 ==> b >= 0x90) && (a == 0xF4 ==> b <= 0x8F)
    ensures var n := (((a as nat - 0xF0) * 64 + (b as nat - 0x80)) * 64 + (c as nat - 0x80)) * 64 + (d as nat - 0x80);
            Scalar(n) && EncodeScalar(n) == [a, b, c, d]
  {
    var w, x, y, z := a as nat - 0xF0, b as nat - 0x80, c as nat - 0x80, d as nat - 0x80;
    var n := ((w * 64 + x) * 64 + y) * 64 + z;
    DigitsOfThree(w * 64 + x, y, z);
    assert n / 262144 == w && n / 4096 % 64 == x;
    assert 0x1_0000 <= n < 0x11_0000;
  }

  lemma EncodedIsOneCharacter(c: nat, rest: seq<byte>)
    requires Scalar(c)
    ensures Utf8Char(EncodeScalar(c) + rest) == |EncodeScalar(c)|
  {
  }

  predicate Scalars(text: seq<nat>) {
    forall i :: 0 <= i < |text| ==> Scalar(text[i])
  }

  lemma {:induction false} DecodeText(t: seq<byte>) returns (text: seq<nat>)
    requires Utf8(t)
    ensures Scalars(text) && EncodeText(text) == t
    decreases |t|
  {
    text := [];
    if t != [] {
      var n := Utf8Char(t);
      var rest := DecodeText(t[n..]);
      DecodedIsEncoded(t);
      text := [DecodeScalar(t)] + rest;
      assert text[1..] == rest && t == t[..n] + t[n..];
    }
  }

  lemma {:induction false} EncodedIsUtf8(text: seq<nat>)
    requires Scalars(text)
    ensures Utf8(EncodeText(text))
  {
    if text != [] {
      var first, rest := EncodeScalar(text[0]), EncodeText(text[1..]);
      EncodedIsUtf8(text[1..]);
      EncodedIsOneCharacter(text[0], rest);
      assert (first + rest)[|first|..] == rest;
    }
  }

  /** A host name counts as UTF-8 exactly when it is the encoding of some text. */
  lemma Utf8ExactlyWhen(t: seq<byte>)
    ensures Utf8(t) <==> exists text :: Scalars(text) && EncodeText(text) == t
  {
    hide Utf8, EncodeText;
    if Utf8(t) {
      var text := DecodeText(t);
    }
    forall text | Scalars(text) && EncodeText(text) == t ensures Utf8(t) { EncodedIsUtf8(text); }
  }
}
