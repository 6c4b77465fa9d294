/** One client connection of the broker, from the greeting to the tunnel. */
module SocksBroker {
  import opened Options
  import opened Bytes
  import opened Socks

  datatype ReplyCode = Succeeded | GeneralFailure | ConnectionRefused | CommandNotSupported | AddressTypeNotSupported

  /** Section 6. */
  function CodeByte(code: ReplyCode): byte {
    match code
    case Succeeded => 0x00
    case GeneralFailure => 0x01
    case ConnectionRefused => 0x05
    case CommandNotSupported => 0x07
    case AddressTypeNotSupported => 0x08
  }

  function ReplyCodeFor(e: Error): ReplyCode {
    match e
    case UnsupportedCommand(_) => CommandNotSupported
    case UnsupportedAddressType(_) => AddressTypeNotSupported
    case _ => GeneralFailure
  }

  function ReplyFrame(code: ReplyCode): (frame: seq<byte>)
    ensures |frame| == 10
  {
    [VERSION, CodeByte(code), 0x00, ATYP_IPV4, 0, 0, 0, 0, 0, 0]
  }

  /** What is left of `s` when only `n` elements fit. */
  function Cut<T>(s: seq<T>, n: nat): (cut: seq<T>)
    ensures cut <= s && |cut| == if |s| <= n then |s| else n
  {
    if |s| <= n then s else s[..n]
  }

  lemma CutInTwo<T>(s: seq<T>, t: seq<T>, n: nat)
    ensures Cut(s, n) + Cut(t, n - |Cut(s, n)|) == Cut(s + t, n)
  {
  }

  /**
   * The broker's end of a client socket: the octets that arrive before it ends or breaks, the octets taken from the
   * broker, and how many more it takes before writing to it fails.
   */
  class Stream {
    var input: seq<byte>
    var output: seq<byte>
    var room: nat

    constructor (input: seq<byte>, room: nat)
      ensures this.input == input && output == [] && this.room == room
    {
      this.input, output, this.room := input, [], room;
    }

    /** Reads exactly `n` octets; at the end of the stream what was left is lost. */
    method ReadExact(n: nat) returns (r: Result<seq<byte>>)
      modifies this`input
      ensures r == if n <= |old(input)| then Ok(old(input)[..n]) else Err(UnexpectedEof)
      ensures input == if n <= |old(input)| then old(input)[n..] else []
    {
      if n <= |input| {
        r := Ok(input[..n]);
        input := input[n..];
      } else {
        r := Err(UnexpectedEof);
        input := [];
      }
    }

    method ReadByte() returns (r: Result<byte>)
      modifies this`input
      ensures r == if old(input) != [] then Ok(old(input)[0]) else Err(UnexpectedEof)
      ensures input == if old(input) != [] then old(input)[1..] else []
    {
      var bytes := ReadExact(1);
      r := match bytes case Ok(b) => Ok(b[0]) case Err(e) => Err(e);
    }

    /** Writes everything, or as much as the other side takes before the error. */
    method WriteAll(bytes: seq<byte>) returns (ok: bool)
      modifies this`output, this`room
      ensures ok <==> |bytes| <= old(room)
      ensures output == old(output) + Cut(bytes, old(room)) && room == old(room) - |Cut(bytes, old(room))|
    {
      ok := |bytes| <= room;
      output, room := output + Cut(bytes, room), room - |Cut(bytes, room)|;
    }
  }

  /** The method reply to what the greeting was read as, and whether negotiation goes on. */
  function MethodReply(greeting: Result<seq<byte>>): (seq<byte>, Result<()>) {
    match greeting
    case Err(e) => ([], Err(e))
    case Ok(methods) =>
      if AUTH_NONE in methods then ([VERSION, AUTH_NONE], Ok(()))
      else ([VERSION, AUTH_NO_ACCEPTABLE], Err(NoAcceptableAuth))
  }

  /** The reading half of the negotiation. */
  method ReadGreeting(stream: Stream) returns (r: Result<seq<byte>>)
    modifies stream`input
    ensures var greeting := ParseGreeting(old(stream.input)); r == greeting.result && stream.input == greeting.rest
  {
    ghost var all := stream.input;
    var version := stream.ReadByte();
    if version.Err? { return Err(version.error); }
    if version.value != VERSION { return Err(BadVersion(version.value)); }
    var count := stream.ReadByte();
    if count.Err? { return Err(count.error); }
    assert all[1..][1..] == all[2..];
    ghost var n := count.value as nat;
    r := stream.ReadExact(count.value as nat);
    if 2 + n <= |all| { assert all[2..][..n] == all[2..2 + n] && all[2..][n..] == all[2 + n..]; }
  }

  method NegotiateAuth(stream: Stream) returns (r: Result<()>)
    modifies stream
    ensures var greeting := ParseGreeting(old(stream.input));
            var (selection, verdict) := MethodReply(greeting.result);
            stream.input == greeting.rest && stream.output == old(stream.output) + Cut(selection, old(stream.room)) &&
            stream.room == old(stream.room) - |Cut(selection, old(stream.room))| &&
            r == if |selection| <= old(stream.room) then verdict else Err(WriteFailed)
  {
    hide Cut, ParseGreeting;
    var methods := ReadGreeting(stream);
    if methods.Err? { return Err(methods.error); }
    var chosen := AUTH_NONE in methods.value;
    var sent := stream.WriteAll([VERSION, if chosen then AUTH_NONE else AUTH_NO_ACCEPTABLE]);
    if !sent { return Err(WriteFailed); }
    return if chosen then Ok(()) else Err(NoAcceptableAuth);
  }

  /** The octets of an address of the given length, and the port. */
  method ReadAddress(stream: Stream, atyp: byte, n: nat) returns (r: Result<Target>)
    modifies stream`input
    ensures var parsed := ParseAddress(old(stream.input), atyp, n); r == parsed.result && stream.input == parsed.rest
  {
    ghost var all := stream.input;
    var octets := stream.ReadExact(n);
    if octets.Err? { return Err(octets.error); }
    var port := stream.ReadExact(2);
    if port.Err? { return Err(port.error); }
    assert all[n..][..2] == all[n..n + 2] && all[n..][2..] == all[n + 2..];
    return Make(atyp, octets.value, PortOf(port.value));
  }

  method ReadConnectRequest(stream: Stream) returns (r: Result<Target>)
    modifies stream`input
    ensures var parsed := ParseRequest(old(stream.input)); r == parsed.result && stream.input == parsed.rest
  {
    hide ParseAddress;
    ghost var all := stream.input;
    var version := stream.ReadByte();
    if version.Err? { return Err(version.error); }
    if version.value != VERSION { return Err(BadVersion(version.value)); }
    var command := stream.ReadByte();
    if command.Err? { return Err(command.error); }
    assert all[1..][1..] == all[2..];
    if command.value != CONNECT { return Err(UnsupportedCommand(command.value)); }
    var reserved := stream.ReadByte();
    if reserved.Err? { return Err(reserved.error); }
    assert all[2..][1..] == all[3..];
    var atyp := stream.ReadByte();
    if atyp.Err? { return Err(atyp.error); }
    assert all[3..][1..] == all[4..];
    if atyp.value == ATYP_IPV4 {
      r := ReadAddress(stream, ATYP_IPV4, 4);
    } else if atyp.value == ATYP_IPV6 {
      r := ReadAddress(stream, ATYP_IPV6, 16);
    } else if atyp.value == ATYP_DOMAIN {
      var length := stream.ReadByte();
      if length.Err? { return Err(length.error); }
      r := ReadAddress(stream, ATYP_DOMAIN, length.value as nat);
    } else {
      r := Err(UnsupportedAddressType(atyp.value));
    }
  }

  method WriteReply(stream: Stream, code: ReplyCode) returns (r: Result<()>)
    modifies stream`output, stream`room
    ensures r.Ok? <==> |ReplyFrame(code)| <= old(stream.room)
    ensures stream.output == old(stream.output) + Cut(ReplyFrame(code), old(stream.room))
    ensures stream.room == old(stream.room) - |Cut(ReplyFrame(code), old(stream.room))|
  {
    var sent := stream.WriteAll(ReplyFrame(code));
    return if sent then Ok(()) else Err(WriteFailed);
  }

  /**
   * An opened tunnel: what the far end answers with, and how many octets of either direction are copied before both
   * ends are done or an error stops the copying.
   */
  datatype Tunnel = Tunnel(answer: seq<byte>, up: nat, down: nat)

  /** What a connection says to the client, in order, what it asks the opener for, and what goes into the tunnel. */
  datatype Talk = Talk(selection: seq<byte>, reply: seq<byte>, fromTunnel: seq<byte>,
                       asked: seq<Target>, intoTunnel: seq<byte>)

  /** The connection with a client that takes everything; `remote` is an error when the tunnel cannot be opened. */
  function Conversation(input: seq<byte>, remote: Result<Tunnel>): Talk {
    var greeting := ParseGreeting(input);
    var (selection, negotiated) := MethodReply(greeting.result);
    if negotiated.Err? then Talk(selection, [], [], [], [])
    else
      var request := ParseRequest(greeting.rest);
      match request.result
      case Err(e) => Talk(selection, ReplyFrame(ReplyCodeFor(e)), [], [], [])
      case Ok(target) =>
        match remote
        case Err(_) => Talk(selection, ReplyFrame(ConnectionRefused), [], [target], [])
        case Ok(tunnel) =>
          Talk(selection, ReplyFrame(Succeeded), Cut(tunnel.answer, tunnel.down),
               [target], Cut(request.rest, tunnel.up))
  }

  /** What really happens: the octets the client took, the targets asked for, and the octets put into the tunnel. */
  datatype Outcome = Outcome(heard: seq<byte>, asked: seq<Target>, intoTunnel: seq<byte>)

  /** A client that takes `room` octets hears the beginning of the talk, and a failed write ends the connection. */
  function Connection(input: seq<byte>, room: nat, remote: Result<Tunnel>): Outcome {
    var talk := Conversation(input, remote);
    Outcome(Cut(talk.selection + talk.reply + talk.fromTunnel, room),
            if |talk.selection| <= room then talk.asked else [],
            if |talk.selection + talk.reply| <= room then talk.intoTunnel else [])
  }

  /** What a client of limited room hears is what each write in turn gets through. */
  lemma WholeIsCutInTurn(talk: Talk, room: nat)
    ensures var said := talk.reply + talk.fromTunnel;
            && Cut(talk.selection, room) + Cut(said, room - |Cut(talk.selection, room)|) ==
               Cut(talk.selection + talk.reply + talk.fromTunnel, room)
            && (talk.fromTunnel == [] ==> said == talk.reply)
            && (said == [] ==> talk.selection + talk.reply + talk.fromTunnel == talk.selection)
            && |talk.selection + talk.reply| == |talk.selection| + |talk.reply|
  {
    hide Cut;
    CutInTwo(talk.selection, talk.reply + talk.fromTunnel, room);
    assert talk.selection + (talk.reply + talk.fromTunnel) == talk.selection + talk.reply + talk.fromTunnel;
  }

  method HandleConnection(client: Stream, remote: Result<Tunnel>) returns (asked: seq<Target>, intoTunnel: seq<byte>)
    requires client.output == []
    modifies client
    ensures Outcome(client.output, asked, intoTunnel) == Connection(old(client.input), old(client.room), remote)
    ensures InOrder(Outcome(client.output, asked, intoTunnel), remote)
  {
    hide ParseGreeting, ParseRequest, MethodReply, ReplyFrame, ReplyCodeFor, Cut, InOrder;
    RepliesComeInOrder(client.input, client.room, remote);
    asked, intoTunnel := [], [];
    ghost var talk, room := Conversation(client.input, remote), client.room;
    WholeIsCutInTurn(talk, room);
    var negotiated := NegotiateAuth(client);
    if negotiated.Err? { return; }
    var request := ReadConnectRequest(client);
    if request.Err? {
      var _ := WriteReply(client, ReplyCodeFor(request.error));
      return;
    }
    asked, intoTunnel := PipeTarget(client, request.value, remote);
  }

  /** Opens the tunnel, answers, and then copies both ways until both sides are done or one fails. */
  method PipeTarget(client: Stream, target: Target, remote: Result<Tunnel>)
    returns (asked: seq<Target>, intoTunnel: seq<byte>)
    modifies client
    ensures asked == [target]
    ensures var reply := ReplyFrame(if remote.Ok? then Succeeded else ConnectionRefused);
            var said := reply + if remote.Ok? then Cut(remote.value.answer, remote.value.down) else [];
            client.output == old(client.output) + Cut(said, old(client.room)) &&
            intoTunnel ==
            if remote.Ok? && |reply| <= old(client.room) then Cut(old(client.input), remote.value.up) else []
  {
    asked, intoTunnel := [target], [];
    if remote.Err? {
      var _ := WriteReply(client, ConnectionRefused);
      return;
    }
    CutInTwo(ReplyFrame(Succeeded), Cut(remote.value.answer, remote.value.down), client.room);
    var replied := WriteReply(client, Succeeded);
    if replied.Err? { return; }
    intoTunnel := Cut(client.input, remote.value.up);
    client.input := client.input[|intoTunnel|..];
    var _ := client.WriteAll(Cut(remote.value.answer, remote.value.down));
  }

  /** Whatever the client sends and wherever it breaks off, what it hears is in order, octet by octet. */
  ghost predicate InOrder(o: Outcome, remote: Result<Tunnel>) {
    && (|o.heard| > 0 ==> o.heard[0] == VERSION)
    && (|o.heard| > 1 ==> o.heard[1] == AUTH_NONE || o.heard[1] == AUTH_NO_ACCEPTABLE)
    && (|o.heard| > 2 ==> o.heard[1] == AUTH_NONE && exists code :: Cut(o.heard[2..], 10) <= ReplyFrame(code))
    && (|o.heard| > 12 ==>
         o.heard[2..12] == ReplyFrame(Succeeded) && remote.Ok? && o.heard[12..] <= remote.value.answer)
    && (o.intoTunnel != [] ==> |o.heard| >= 12 && o.heard[2..12] == ReplyFrame(Succeeded))
    && |o.asked| <= 1
    && (|o.heard| >= 12 && o.heard[2..12] == ReplyFrame(Succeeded) <==> |o.heard| >= 12 && o.asked != [] && remote.Ok?)
  }

  /** Where the pieces of an answer lie, as far as it was heard. */
  lemma HeardInOrder(frame: seq<byte>, tail: seq<byte>, room: nat)
    requires |frame| == 10
    ensures var heard := Cut([VERSION, AUTH_NONE] + frame + tail, room);
            && (|heard| > 0 ==> heard[0] == VERSION) && (|heard| > 1 ==> heard[1] == AUTH_NONE)
            && (|heard| > 2 ==> Cut(heard[2..], 10) <= frame)
            && (|heard| >= 12 ==> heard[2..12] == frame && heard[12..] <= tail)
  {
    hide Cut;
    var whole := [VERSION, AUTH_NONE] + frame + tail;
    var heard := Cut(whole, room);
    assert forall i :: 0 <= i < |heard| ==> heard[i] == whole[i];
  }

  lemma FramesDiffer(code: ReplyCode)
    ensures ReplyFrame(code) == ReplyFrame(Succeeded) <==> code == Succeeded
  {
    assert ReplyFrame(code)[1] == CodeByte(code) && ReplyFrame(Succeeded)[1] == CodeByte(Succeeded);
  }

  /** One method reply, then one ten-octet reply, then tunnel octets after success only, either way. */
  lemma RepliesComeInOrder(input: seq<byte>, room: nat, remote: Result<Tunnel>)
    ensures InOrder(Connection(input, room, remote), remote)
  {
    hide ParseGreeting, ParseRequest, ReplyFrame, Cut;
    var talk := Conversation(input, remote);
    var heard := Connection(input, room, remote).heard;
    if talk.reply == [] {
      assert heard <= talk.selection + [] + [];
    } else {
      var code: ReplyCode :| talk.reply == ReplyFrame(code);
      forall c ensures ReplyFrame(c) == ReplyFrame(Succeeded) <==> c == Succeeded { FramesDiffer(c); }
      HeardInOrder(ReplyFrame(code), talk.fromTunnel, room);
      assert |heard| > 2 ==> Cut(heard[2..], 10) <= ReplyFrame(code);
      assert code == Succeeded <==> talk.asked != [] && remote.Ok?;
    }
  }

  /**
   * A well-behaved client gets through, as far as it listens and the tunnel lasts: its target is asked for unchanged,
   * its payload reaches the tunnel whole, and the answer reaches it.
   */
  lemma ClientIsConnected(methods: seq<byte>, target: Target, reserved: byte, payload: seq<byte>, tunnel: Tunnel,
                          room: nat)
    requires |methods| <= 255 && AUTH_NONE in methods && Encodable(target)
    requires tunnel.up >= |payload| && tunnel.down >= |tunnel.answer| && room >= 12 + |tunnel.answer|
    ensures Connection(EncodeGreeting(methods) + (EncodeRequest(target, reserved) + payload), room, Ok(tunnel)) ==
            Outcome([VERSION, AUTH_NONE] + ReplyFrame(Succeeded) + tunnel.answer, [target], payload)
  {
    hide ParseGreeting, ParseRequest, EncodeGreeting, EncodeRequest, ReplyFrame;
    GreetingRoundTrip(methods, EncodeRequest(target, reserved) + payload);
    RequestRoundTrip(target, reserved, payload);
  }

  /** The one method the broker accepts is chosen exactly when it is offered; otherwise nothing more is said. */
  lemma MethodIsChosenExactlyWhenOffered(methods: seq<byte>, tail: seq<byte>, room: nat, remote: Result<Tunnel>)
    requires |methods| <= 255
    ensures var o := Connection(EncodeGreeting(methods) + tail, room, remote);
            && (room >= 2 ==> |o.heard| >= 2 && o.heard[0] == 0x05 && (o.heard[1] == 0x00 <==> 0x00 in methods))
            && (0x00 !in methods ==> o == Outcome(Cut([0x05, 0xFF], room), [], []))
  {
    hide ParseGreeting, ParseRequest, EncodeGreeting, ReplyFrame, Cut;
    GreetingRoundTrip(methods, tail);
    var talk := Conversation(EncodeGreeting(methods) + tail, remote);
    assert (talk.selection + talk.reply + talk.fromTunnel)[1] == talk.selection[1];
    assert AUTH_NONE !in methods ==> talk.selection + [] + [] == talk.selection;
  }

  /** A complete connect request that a client can encode. */
  ghost predicate IsRequest(request: seq<byte>) {
    exists target, reserved, rest :: Encodable(target) && request == EncodeRequest(target, reserved) + rest
  }

  lemma RequestsAreAccepted(request: seq<byte>)
    ensures ParseRequest(request).result.Ok? <==> IsRequest(request)
  {
    hide ParseRequest, EncodeRequest, Encodable;
    if ParseRequest(request).result.Ok? {
      AcceptedIsEncoded(request);
    }
    forall target, reserved, rest | Encodable(target) && request == EncodeRequest(target, reserved) + rest
      ensures ParseRequest(request).result.Ok?
    {
      RequestRoundTrip(target, reserved, rest);
    }
  }

  predicate OtherCommand(request: seq<byte>) {
    |request| >= 2 && request[0] == VERSION && request[1] != CONNECT
  }

  predicate OtherAddressType(request: seq<byte>) {
    && |request| >= 4 && request[0] == VERSION && request[1] == CONNECT
    && request[3] !in {ATYP_IPV4, ATYP_DOMAIN, ATYP_IPV6}
  }

  /** The fourth octet heard tells exactly what became of the request, whatever the client sent as one. */
  lemma RepliesAreExact(methods: seq<byte>, request: seq<byte>, room: nat, remote: Result<Tunnel>)
    requires |methods| <= 255 && AUTH_NONE in methods && room >= 12
    ensures var o := Connection(EncodeGreeting(methods) + request, room, remote);
            && |o.heard| >= 12
            && (o.heard[3] == 0x07 <==> OtherCommand(request))
            && (o.heard[3] == 0x08 <==> OtherAddressType(request))
            && (o.heard[3] == 0x00 <==> IsRequest(request) && remote.Ok?)
            && (o.heard[3] == 0x05 <==> IsRequest(request) && remote.Err?)
            && (o.heard[3] in {0x00, 0x01, 0x05, 0x07, 0x08})
            && o.heard[2..12] == [0x05, o.heard[3], 0x00, 0x01, 0x00, 0x00, 0x00, 0x00, 0x00, 0x00]
            && (o.asked != [] <==> IsRequest(request))
  {
    hide ParseGreeting, EncodeGreeting, ParseRequest, IsRequest, Cut, ReplyFrame, OtherCommand, OtherAddressType;
    GreetingRoundTrip(methods, request);
    RequestsAreAccepted(request);
    RefusalsAreTyped(request);
    var r := ParseRequest(request).result;
    var code := if r.Err? then ReplyCodeFor(r.error) else if remote.Ok? then Succeeded else ConnectionRefused;
    var talk := Conversation(EncodeGreeting(methods) + request, remote);
    assert talk.selection == [VERSION, AUTH_NONE] && talk.reply == ReplyFrame(code);
    HeardInOrder(ReplyFrame(code), talk.fromTunnel, room);
    FrameOctets(code);
    var heard := Cut(talk.selection + talk.reply + talk.fromTunnel, room);
    assert |heard| >= 12 && heard[3] == heard[2..12][1];
  }

  lemma FrameOctets(code: ReplyCode)
    ensures ReplyFrame(code) == [0x05, CodeByte(code), 0x00, 0x01, 0x00, 0x00, 0x00, 0x00, 0x00, 0x00]
  {
  }

  lemma RefusalsAreTyped(request: seq<byte>)
    ensures var r := ParseRequest(request).result;
            && (r.Err? && r.error.UnsupportedCommand? <==> OtherCommand(request))
            && (r.Err? && r.error.UnsupportedAddressType? <==> OtherAddressType(request))
  {
    hide Make;
  }

  lemma GreetingIsEncoded(input: seq<byte>)
    requires ParseGreeting(input).result.Ok?
    ensures var methods := ParseGreeting(input).result.value;
            |methods| <= 255 && input == EncodeGreeting(methods) + ParseGreeting(input).rest
  {
    assert input == input[..2] + input[2..];
  }

  /** Whatever is asked for stood in the client's own octets. */
  lemma AskedIsWhatWasSent(input: seq<byte>, room: nat, remote: Result<Tunnel>)
    returns (methods: seq<byte>, reserved: byte, rest: seq<byte>)
    requires Connection(input, room, remote).asked != []
    ensures var o := Connection(input, room, remote);
            && Encodable(o.asked[0]) && |methods| <= 255 && AUTH_NONE in methods
            && input == EncodeGreeting(methods) + (EncodeRequest(o.asked[0], reserved) + rest)
            && o.intoTunnel <= rest
  {
    hide ParseGreeting, ParseRequest, EncodeGreeting, EncodeRequest, Encodable, ReplyFrame, Cut;
    var greeting := ParseGreeting(input);
    GreetingIsEncoded(input);
    AcceptedIsEncoded(greeting.rest);
    methods, reserved, rest := greeting.result.value, greeting.rest[2], ParseRequest(greeting.rest).rest;
  }
}
