/** The SOCKS5 handshake (RFC 1928) as the broker speaks it, and the requests it accepts. */
module Socks {
  import opened Bytes

  const VERSION: byte := 0x05
  const CONNECT: byte := 0x01
  const ATYP_IPV4: byte := 0x01
  const ATYP_DOMAIN: byte := 0x03
  const ATYP_IPV6: byte := 0x04
  const AUTH_NONE: byte := 0x00
  const AUTH_NO_ACCEPTABLE: byte := 0xFF

  type Port = p: int | 0 <= p < 65536

  /** Where to connect; a domain is the client's own octets, never resolved here. */
  datatype Target =
    | Domain(host: seq<byte>, port: Port)
    | Ip4(octets: seq<byte>, port: Port)
    | Ip6(octets: seq<byte>, port: Port)

  datatype Error =
    | UnexpectedEof
    | WriteFailed
    | BadVersion(version: byte)
    | NoAcceptableAuth
    | UnsupportedCommand(command: byte)
    | UnsupportedAddressType(atyp: byte)
    | BadDomain

  datatype Result<+T> = Ok(value: T) | Err(error: Error)

  // ---------------------------------------------------------------- UTF-8

  predicate Continuation(b: byte) { 0x80 <= b <= 0xBF }

  /** The length of the well-formed character at the front (RFC 3629, section 4), if there is one. */
  function Utf8Char(t: seq<byte>): (n: nat)
    requires t != []
    ensures n <= |t|
  {
    var b := t[0];
    if b < 0x80 then 1
    else if 0xC2 <= b <= 0xDF && |t| >= 2 && Continuation(t[1]) then 2
    else if 0xE0 <= b <= 0xEF && |t| >= 3 && Continuation(t[1]) && Continuation(t[2]) &&
            (b == 0xE0 ==> t[1] >= 0xA0) && (b == 0xED ==> t[1] <= 0x9F) then 3
    else if 0xF0 <= b <= 0xF4 && |t| >= 4 && Continuation(t[1]) && Continuation(t[2]) && Continuation(t[3]) &&
            (b == 0xF0 ==> t[1] >= 0x90) && (b == 0xF4 ==> t[1] <= 0x8F) then 4
    else 0
  }

  predicate Utf8(t: seq<byte>)
    decreases |t|
  {
    t == [] || (Utf8Char(t) > 0 && Utf8(t[Utf8Char(t)..]))
  }

  // ---------------------------------------------------------------- what clients send

  predicate Encodable(t: Target) {
    match t
    case Domain(host, _) => 1 <= |host| <= 255 && Utf8(host)
    case Ip4(octets, _) => |octets| == 4
    case Ip6(octets, _) => |octets| == 16
  }

  function AddressType(t: Target): byte {
    match t case Domain(_, _) => ATYP_DOMAIN case Ip4(_, _) => ATYP_IPV4 case Ip6(_, _) => ATYP_IPV6
  }

  function EncodeAddress(t: Target): seq<byte>
    requires Encodable(t)
  {
    match t
    case Domain(host, _) => [|host| as byte] + host
    case Ip4(octets, _) => octets
    case Ip6(octets, _) => octets
  }

  /** Section 4: version, command, reserved octet, address type, address, port in network order. */
  function EncodeRequest(t: Target, reserved: byte): seq<byte>
    requires Encodable(t)
  {
    [VERSION, CONNECT, reserved, AddressType(t)] + EncodeAddress(t) + BigEndian(t.port, 2)
  }

  /** Section 3: version, number of methods, methods. */
  function EncodeGreeting(methods: seq<byte>): seq<byte>
    requires |methods| <= 255
  {
    [VERSION, |methods| as byte] + methods
  }

  // ---------------------------------------------------------------- what the broker makes of it

  /** A result and what is left of the input. */
  datatype Parsed<+T> = Parsed(result: Result<T>, rest: seq<byte>)

  function PortOf(bytes: seq<byte>): Port
    requires |bytes| == 2
  {
    FromBigEndianFits(bytes);
    FromBigEndian(bytes)
  }

  lemma FromBigEndianFits(bytes: seq<byte>)
    requires |bytes| == 2
    ensures FromBigEndian(bytes) < 65536
  {
    assert FromBigEndian(bytes) == 256 * FromBigEndian(bytes[..1]) + bytes[1] as nat;
    assert FromBigEndian(bytes[..1]) == 256 * FromBigEndian(bytes[..1][..0]) + bytes[0] as nat;
  }

  lemma PortRoundTrip(port: Port)
    ensures PortOf(BigEndian(port, 2)) == port
  {
    assert Power256(2) == 256 * Power256(1) == 256 * 256 * Power256(0);
    BigEndianRoundTrip(port, 2);
  }

  /** The target of a complete address; only a domain may be malformed. */
  function Make(atyp: byte, address: seq<byte>, port: Port): (r: Result<Target>)
    ensures r.Ok? || r == Err(BadDomain)
  {
    if atyp == ATYP_IPV4 then Ok(Ip4(address, port))
    else if atyp == ATYP_IPV6 then Ok(Ip6(address, port))
    else if Utf8(address) && address != [] then Ok(Domain(address, port))
    else Err(BadDomain)
  }

  /** An address of `n` octets and the port behind it. */
  function ParseAddress(input: seq<byte>, atyp: byte, n: nat): Parsed<Target> {
    if |input| < n + 2 then Parsed(Err(UnexpectedEof), [])
    else Parsed(Make(atyp, input[..n], PortOf(input[n..n + 2])), input[n + 2..])
  }

  function ParseRequest(input: seq<byte>): Parsed<Target> {
    if |input| < 1 then Parsed(Err(UnexpectedEof), [])
    else if input[0] != VERSION then Parsed(Err(BadVersion(input[0])), input[1..])
    else if |input| < 2 then Parsed(Err(UnexpectedEof), [])
    else if input[1] != CONNECT then Parsed(Err(UnsupportedCommand(input[1])), input[2..])
    else if |input| < 4 then Parsed(Err(UnexpectedEof), [])
    else ParseTyped(input[3], input[4..])
  }

  /** What follows the address type. */
  function ParseTyped(atyp: byte, input: seq<byte>): Parsed<Target> {
    if atyp == ATYP_IPV4 then ParseAddress(input, atyp, 4)
    else if atyp == ATYP_IPV6 then ParseAddress(input, atyp, 16)
    else if atyp == ATYP_DOMAIN then
      if |input| < 1 then Parsed(Err(UnexpectedEof), [])
      else ParseAddress(input[1..], atyp, input[0] as nat)
    else Parsed(Err(UnsupportedAddressType(atyp)), input)
  }

  /** The methods the client offers. */
  function ParseGreeting(input: seq<byte>): Parsed<seq<byte>> {
    if |input| < 1 then Parsed(Err(UnexpectedEof), [])
    else if input[0] != VERSION then Parsed(Err(BadVersion(input[0])), input[1..])
    else if |input| < 2 || |input| < 2 + input[1] as nat then Parsed(Err(UnexpectedEof), [])
    else Parsed(Ok(input[2..2 + input[1] as nat]), input[2 + input[1] as nat..])
  }

  // ---------------------------------------------------------------- round trips

  lemma AddressRoundTrip(atyp: byte, octets: seq<byte>, port: Port, tail: seq<byte>)
    ensures ParseAddress(octets + BigEndian(port, 2) + tail, atyp, |octets|) == Parsed(Make(atyp, octets, port), tail)
  {
    hide Make, BigEndian, PortOf;
    PortRoundTrip(port);
    var n := |octets|;
    var input := octets + BigEndian(port, 2) + tail;
    assert input[..n] == octets && input[n..n + 2] == BigEndian(port, 2) && input[n + 2..] == tail;
  }

  lemma TypedRoundTrip(t: Target, tail: seq<byte>)
    requires Encodable(t)
    ensures ParseTyped(AddressType(t), EncodeAddress(t) + BigEndian(t.port, 2) + tail) == Parsed(Ok(t), tail)
  {
    hide ParseAddress, BigEndian, Utf8;
    var port := BigEndian(t.port, 2);
    var input := EncodeAddress(t) + port + tail;
    match t
    case Domain(host, _) =>
      AddressRoundTrip(ATYP_DOMAIN, host, t.port, tail);
      assert input[1..] == host + port + tail;
    case Ip4(octets, _) => AddressRoundTrip(ATYP_IPV4, octets, t.port, tail);
    case Ip6(octets, _) => AddressRoundTrip(ATYP_IPV6, octets, t.port, tail);
  }

  /** Every encodable request is read back, whatever the reserved octet; what follows is left for the tunnel. */
  lemma RequestRoundTrip(t: Target, reserved: byte, tail: seq<byte>)
    requires Encodable(t)
    ensures ParseRequest(EncodeRequest(t, reserved) + tail) == Parsed(Ok(t), tail)
  {
    hide ParseTyped, BigEndian, EncodeAddress, AddressType, Encodable;
    TypedRoundTrip(t, tail);
    var input := EncodeRequest(t, reserved) + tail;
    assert input[4..] == EncodeAddress(t) + BigEndian(t.port, 2) + tail;
  }

  lemma AcceptedAddress(input: seq<byte>, atyp: byte, n: nat)
    requires ParseAddress(input, atyp, n).result.Ok?
    ensures n + 2 <= |input| && Make(atyp, input[..n], PortOf(input[n..n + 2])) == ParseAddress(input, atyp, n).result
    ensures input == input[..n] + BigEndian(PortOf(input[n..n + 2]), 2) + ParseAddress(input, atyp, n).rest
  {
    hide Make, BigEndian;
    FromBigEndianRoundTrip(input[n..n + 2]);
  }

  /** And nothing else is accepted. */
  lemma AcceptedIsEncoded(input: seq<byte>)
    requires ParseRequest(input).result.Ok?
    ensures |input| > 2
    ensures var t := ParseRequest(input).result.value;
            Encodable(t) && input == EncodeRequest(t, input[2]) + ParseRequest(input).rest
  {
    hide BigEndian, ParseTyped, EncodeAddress, AddressType, Encodable;
    AcceptedTyped(input[3], input[4..]);
    assert input == [VERSION, CONNECT, input[2], input[3]] + input[4..];
  }

  lemma AcceptedTyped(atyp: byte, input: seq<byte>)
    requires ParseTyped(atyp, input).result.Ok?
    ensures var t := ParseTyped(atyp, input).result.value;
            Encodable(t) && atyp == AddressType(t) &&
            input == EncodeAddress(t) + BigEndian(t.port, 2) + ParseTyped(atyp, input).rest
  {
    hide BigEndian, Utf8, ParseAddress, PortOf;
    if atyp == ATYP_DOMAIN {
      AcceptedAddress(input[1..], atyp, input[0] as nat);
      assert input == [input[0]] + input[1..];
    } else if atyp == ATYP_IPV4 {
      AcceptedAddress(input, atyp, 4);
    } else {
      AcceptedAddress(input, atyp, 16);
    }
  }

  /** How the octets are cut into packets does not matter: an answer once found does not change with more input. */
  lemma MoreInputChangesNothing(input: seq<byte>, more: seq<byte>)
    requires ParseRequest(input).result != Err(UnexpectedEof)
    ensures ParseRequest(input + more) == Parsed(ParseRequest(input).result, ParseRequest(input).rest + more)
  {
    hide ParseTyped;
    var all := input + more;
    assert all[..|input|] == input;
    if input[0] != VERSION {
      assert all[1..] == input[1..] + more;
    } else if input[1] != CONNECT {
      assert all[2..] == input[2..] + more;
    } else {
      assert all[4..] == input[4..] + more;
      MoreTyped(input[3], input[4..], more);
    }
  }

  lemma MoreTyped(atyp: byte, input: seq<byte>, more: seq<byte>)
    requires ParseTyped(atyp, input).result != Err(UnexpectedEof)
    ensures ParseTyped(atyp, input + more) ==
            Parsed(ParseTyped(atyp, input).result, ParseTyped(atyp, input).rest + more)
  {
    if atyp == ATYP_DOMAIN {
      assert (input + more)[1..] == input[1..] + more;
      MoreAddress(input[1..], more, atyp, input[0] as nat);
    } else if atyp == ATYP_IPV4 {
      MoreAddress(input, more, atyp, 4);
    } else if atyp == ATYP_IPV6 {
      MoreAddress(input, more, atyp, 16);
    }
  }

  lemma MoreAddress(input: seq<byte>, more: seq<byte>, atyp: byte, n: nat)
    requires ParseAddress(input, atyp, n).result != Err(UnexpectedEof)
    ensures ParseAddress(input + more, atyp, n) ==
            Parsed(ParseAddress(input, atyp, n).result, ParseAddress(input, atyp, n).rest + more)
  {
    hide Make;
    var all := input + more;
    assert all[..n] == input[..n] && all[n..n + 2] == input[n..n + 2] && all[n + 2..] == input[n + 2..] + more;
  }

  /** An input reported as cut short can be completed to one that is decided, with nothing left over. */
  lemma EofMeansIncomplete(input: seq<byte>) returns (more: seq<byte>)
    requires ParseRequest(input).result == Err(UnexpectedEof)
    ensures more != [] && ParseRequest(input + more).result != Err(UnexpectedEof)
    ensures ParseRequest(input + more).rest == []
  {
    hide Make, PortOf;
    if |input| < 4 {
      more := [VERSION, CONNECT, 0, ATYP_IPV4][|input|..] + Zeros(6);
      assert (input + more)[4..] == Zeros(6);
    } else {
      var typed := input[4..];
      if input[3] == ATYP_DOMAIN && typed == [] {
        more := Zeros(3);
        assert (input + more)[4..] == Zeros(3) && Zeros(3)[1..] == Zeros(2);
      } else if input[3] == ATYP_DOMAIN {
        var n := typed[0] as nat;
        more := Zeros(n + 3 - |typed|);
        assert (input + more)[4..] == typed + more && (typed + more)[1..] == typed[1..] + more;
      } else {
        more := Zeros((if input[3] == ATYP_IPV4 then 6 else 18) - |typed|);
        assert (input + more)[4..] == typed + more;
      }
    }
  }

  lemma GreetingRoundTrip(methods: seq<byte>, tail: seq<byte>)
    requires |methods| <= 255
    ensures ParseGreeting(EncodeGreeting(methods) + tail) == Parsed(Ok(methods), tail)
  {
    var input := EncodeGreeting(methods) + tail;
    assert input[2..2 + |methods|] == methods && input[2 + |methods|..] == tail;
  }
}
