/** The per-connection SOCKS5 handshake as a function of the bytes the client
    sends. A `Channel` is the client stream: everything the client will send
    (`input`), how far the server has read (`pos`) and everything the server
    has written (`output`). Each step takes a channel and returns the channel
    after it together with either a value to continue with or the session's
    final outcome. The imperative `Connection` class is proved to do exactly
    what these functions say. */
module Handshake {
  import opened Wire

  /** Which exchange a length-prefixed field belongs to; it decides the reply
      written when the field is empty. */
  datatype Stage = MethodStage | AuthStage | CommandStage

  /** Why a session ended with an error. */
  datatype Failure =
    | NoAcceptableMethod       // method reply 05 FF was sent
    | EmptyField(stage: Stage) // a length-prefixed field declared length 0
    | AuthFailed               // credentials other than 123/123
    | AddrTypeRejected         // ATYP other than 1, 3, 4
    | UnresolvedDomain         // the domain name did not convert to a socket address

  /** How a session ends. `Relay` hands the stream to the byte relay, which is
      not modelled further; `EndedOk` is a negative command reply after which
      the handler returns normally; `Truncated` is a read that hit the end of
      the client's data. */
  datatype Outcome = Relay(upstream: SocketAddr) | EndedOk | Failed(failure: Failure) | Truncated

  datatype Step<T> = Next(value: T) | Stop(outcome: Outcome)

  datatype Channel = Channel(input: seq<u8>, pos: nat, output: seq<u8>) {
    predicate Valid() {
      pos <= |input|
    }
  }

  /** A step that may continue, and the channel after it. */
  datatype Run<T> = Run(step: Step<T>, ch: Channel)

  /** A step that ends the session, and the channel after it. */
  datatype Final = Final(outcome: Outcome, ch: Channel)

  /** Conversion of a domain name and port into a socket address; it may fail. */
  type Resolver = (seq<u8>, u16) -> Option<Address>

  /** What the server asks of the outside world: turning a domain name and port
      into a socket address, and opening a TCP connection to an address. */
  datatype Network = Network(resolve: Resolver, connect: SocketAddr -> bool)

  /** The stream only moves forward: the input is fixed, the read cursor never
      goes back or past the end, and output is only ever appended to. */
  predicate Advances(c: Channel, d: Channel) {
    d.input == c.input && c.pos <= d.pos <= |d.input| && c.output <= d.output
  }

  // ---------------------------------------------------------------------
  // Reads and writes on the client stream

  /** `read_u8`. */
  function ReadU8(c: Channel): (r: Run<u8>)
    requires c.Valid()
    ensures Advances(c, r.ch) && r.ch.output == c.output
    ensures r.step.Next? <==> c.pos < |c.input|
    ensures r.step.Next? ==> r.ch.pos == c.pos + 1 && r.step.value == c.input[c.pos]
    ensures r.step.Stop? ==> r.step.outcome == Truncated && r.ch.pos == |c.input|
  {
    if c.pos < |c.input| then Run(Next(c.input[c.pos]), c.(pos := c.pos + 1))
    else Run(Stop(Truncated), c)
  }

  /** `read_exact` into an `n`-byte buffer. A short read consumes what is left. */
  function ReadExact(c: Channel, n: nat): (r: Run<seq<u8>>)
    requires c.Valid()
    ensures Advances(c, r.ch) && r.ch.output == c.output
    ensures r.step.Next? <==> c.pos + n <= |c.input|
    ensures r.step.Next? ==> r.ch.pos == c.pos + n && r.step.value == c.input[c.pos..r.ch.pos]
    ensures r.step.Stop? ==> r.step.outcome == Truncated && r.ch.pos == |c.input|
  {
    if c.pos + n <= |c.input| then Run(Next(c.input[c.pos..c.pos + n]), c.(pos := c.pos + n))
    else Run(Stop(Truncated), c.(pos := |c.input|))
  }

  /** `read_u16`: two bytes, big-endian. */
  function ReadU16(c: Channel): (r: Run<u16>)
    requires c.Valid()
    ensures Advances(c, r.ch) && r.ch.output == c.output
    ensures r.step.Next? <==> c.pos + 2 <= |c.input|
    ensures r.step.Next? ==> r.ch.pos == c.pos + 2 && U16Bytes(r.step.value) == c.input[c.pos..c.pos + 2]
    ensures r.step.Stop? ==> r.step.outcome == Truncated && r.ch.pos == |c.input|
  {
    var b := ReadExact(c, 2);
    if b.step.Stop? then Run(Stop(b.step.outcome), b.ch)
    else
      Run(Next(ToU16(b.step.value[0], b.step.value[1])), b.ch)
  }

  function Write(c: Channel, bytes: seq<u8>): Channel {
    c.(output := c.output + bytes)
  }

  /** `reply_command`: one whole reply frame (VER, REP, RSV, then the bound
      address 0.0.0.0:0) goes to the client; nothing is read. */
  function ReplyCommand(c: Channel, rep: CommandRep): (r: Channel)
    ensures r.input == c.input && r.pos == c.pos
    ensures r.output == c.output + [VERSION, RepByte(rep), 0x00] + EncodeAddr(UNSPECIFIED)
  {
    Write(c, CommandReply(VERSION, rep))
  }

  /** `reply_auth`: the subnegotiation version and the status, 00 for success
      and 01 for failure, go to the client; nothing is read. */
  function ReplyAuth(c: Channel, success: bool): (r: Channel)
    ensures r.input == c.input && r.pos == c.pos
    ensures r.output == c.output + [AUTH_PASSWD, if success then 0x00 else 0x01]
  {
    Write(c, AuthReply(success))
  }

  /** `reply_method`: writes the method reply, then refuses to go on when the
      method is the rejection. */
  function ReplyMethod(c: Channel, m: Method): (r: Run<()>)
    ensures r.ch == c.(output := c.output + [VERSION, MethodByte(m)])
    ensures r.step.Next? <==> m != Method.Error
    ensures r.step.Stop? ==> r.step.outcome == Failed(NoAcceptableMethod)
  {
    var d := Write(c, MethodReply(VERSION, m));
    if m == Method.Error then Run(Stop(Failed(NoAcceptableMethod)), d) else Run(Next(()), d)
  }

  // ---------------------------------------------------------------------
  // Wire codec over the stream

  /** The reply `read_variable` sends when a field of the given stage declares
      length 0. */
  function EmptyFieldReply(stage: Stage): seq<u8> {
    match stage
    case MethodStage => [VERSION, 0xFF]
    case AuthStage => [AUTH_PASSWD, 0x01]
    case CommandStage => CommandReply(VERSION, RuleSetNotAllowed)
  }

  /** How a session fails on an empty field: in the method stage the
      rejecting method reply itself ends the session. */
  function EmptyFieldFailure(stage: Stage): Failure {
    if stage == MethodStage then NoAcceptableMethod else EmptyField(stage)
  }

  /** `read_variable`: a length byte n, then n bytes. n = 0 is a framing error
      answered with the stage's rejection reply. */
  function ReadVariable(c: Channel, stage: Stage): (r: Run<seq<u8>>)
    requires c.Valid()
    ensures Advances(c, r.ch)
    ensures r.step.Next? ==>
      && c.pos < |c.input|
      && 0 < |r.step.value| == c.input[c.pos] as int
      && r.ch.pos == c.pos + 1 + |r.step.value|
      && r.step.value == c.input[c.pos + 1..r.ch.pos]
      && r.ch.output == c.output
    ensures c.pos < |c.input| && c.input[c.pos] == 0 ==>
      r == Run(Stop(Failed(EmptyFieldFailure(stage))),
               Channel(c.input, c.pos + 1, c.output + EmptyFieldReply(stage)))
    ensures r.step.Stop? ==>
      r.step.outcome == Truncated || (c.pos < |c.input| && c.input[c.pos] == 0 && r.step.outcome == Failed(EmptyFieldFailure(stage)))
    ensures r.step.Stop? && r.step.outcome == Truncated ==> r.ch.output == c.output && r.ch.pos == |c.input|
  {
    var len := ReadU8(c);
    if len.step.Stop? then Run(Stop(len.step.outcome), len.ch)
    else if len.step.value == 0 then
      match stage
      case MethodStage =>
        var m := ReplyMethod(len.ch, Method.Error);
        Run(Stop(m.step.outcome), m.ch)
      case AuthStage =>
        Run(Stop(Failed(EmptyField(stage))), ReplyAuth(len.ch, false))
      case CommandStage =>
        Run(Stop(Failed(EmptyField(stage))), ReplyCommand(len.ch, RuleSetNotAllowed))
    else
      ReadExact(len.ch, len.step.value as nat)
  }

  /** `read_addr`: ATYP, then 4 or 16 address bytes or a length-prefixed domain
      name, then a big-endian port. A domain name goes through `resolve`, whose
      failure ends the session without a reply. */
  function ReadAddr(c: Channel, resolve: Resolver): (r: Run<SocketAddr>)
    requires c.Valid()
    ensures Advances(c, r.ch)
    ensures r.step.Next? ==> r.step.value.WellFormed()
    ensures c.pos < |c.input| && AddrTypeFrom(c.input[c.pos]) == AddrType.Unsupported ==>
      r == Run(Stop(Failed(AddrTypeRejected)), Channel(c.input, c.pos + 1, c.output + CommandReply(VERSION, AddrTypeUnsupported)))
    ensures r.step.Next? ==> r.ch.output == c.output
    ensures r.step.Stop? ==> r.step.outcome in {Truncated, Failed(AddrTypeRejected), Failed(EmptyField(CommandStage)), Failed(UnresolvedDomain)}
    ensures r.step == Stop(Failed(AddrTypeRejected)) ==>
      r.ch == Channel(c.input, c.pos + 1, c.output + CommandReply(VERSION, AddrTypeUnsupported))
    ensures r.step == Stop(Truncated) ==> r.ch.output == c.output && r.ch.pos == |c.input|
  {
    var t := ReadU8(c);
    if t.step.Stop? then Run(Stop(t.step.outcome), t.ch)
    else
      match AddrTypeFrom(t.step.value)
      case V4 => ReadLiteralAddr(t.ch, 4)
      case V6 => ReadLiteralAddr(t.ch, 16)
      case Domain => ReadDomainAddr(t.ch, resolve)
      case Unsupported() =>
        Run(Stop(Failed(AddrTypeRejected)), ReplyCommand(t.ch, AddrTypeUnsupported))
  }

  /** The domain arm of `read_addr`: a length-prefixed name, the port, then the
      conversion to a socket address, whose failure is passed on unanswered. */
  function ReadDomainAddr(c: Channel, resolve: Resolver): (r: Run<SocketAddr>)
    requires c.Valid()
    ensures Advances(c, r.ch)
    ensures r.step.Next? ==> r.step.value.WellFormed()
    ensures r.step.Next? ==> r.ch.output == c.output
    ensures r.step.Stop? ==> r.step.outcome in {Truncated, Failed(EmptyField(CommandStage)), Failed(UnresolvedDomain)}
    ensures r.step == Stop(Failed(UnresolvedDomain)) ==> r.ch.output == c.output
    ensures r.step == Stop(Truncated) ==> r.ch.output == c.output && r.ch.pos == |c.input|
  {
    var name := ReadVariable(c, CommandStage);
    if name.step.Stop? then Run(Stop(name.step.outcome), name.ch)
    else
      var port := ReadU16(name.ch);
      if port.step.Stop? then Run(Stop(port.step.outcome), port.ch)
      else
        match resolve(name.step.value, port.step.value)
        case None => Run(Stop(Failed(UnresolvedDomain)), port.ch)
        case Some(a) => Run(Next(a), port.ch)
  }

  /** The IPv4 (`n` = 4) and IPv6 (`n` = 16) arms of `read_addr`: the address
      octets, then the port. */
  function ReadLiteralAddr(c: Channel, n: nat): (r: Run<SocketAddr>)
    requires c.Valid() && (n == 4 || n == 16)
    ensures Advances(c, r.ch) && r.ch.output == c.output
    ensures r.step.Next? <==> c.pos + n + 2 <= |c.input|
    ensures r.step.Next? ==>
      && r.step.value.WellFormed()
      && r.step.value.V4Addr? == (n == 4)
      && r.ch.pos == c.pos + n + 2
      && r.step.value.ip + U16Bytes(r.step.value.port) == c.input[c.pos..r.ch.pos]
    ensures r.step.Stop? ==> r.step.outcome == Truncated && r.ch.pos == |c.input|
  {
    var ip := ReadExact(c, n);
    if ip.step.Stop? then Run(Stop(ip.step.outcome), ip.ch)
    else
      var port := ReadU16(ip.ch);
      if port.step.Stop? then Run(Stop(port.step.outcome), port.ch)
      else
        var a := if n == 4 then V4Addr(ip.step.value, port.step.value) else V6Addr(ip.step.value, port.step.value);
        assert c.input[c.pos..port.ch.pos] == c.input[c.pos..ip.ch.pos] + c.input[ip.ch.pos..port.ch.pos];
        Run(Next(a), port.ch)
  }

  // ---------------------------------------------------------------------
  // Session state machine

  /** The method the server picks from the client's list: username/password
      whenever offered, else no authentication if offered, else rejection. */
  function SelectMethod(methods: seq<u8>): (m: Method)
    ensures m == Passwd <==> MethodByte(Passwd) in methods
    ensures m == NoAuth <==> MethodByte(Passwd) !in methods && MethodByte(NoAuth) in methods
    ensures m == Method.Error <==> MethodByte(Passwd) !in methods && MethodByte(NoAuth) !in methods
  {
    if MethodByte(Passwd) in methods then Passwd
    else if MethodByte(NoAuth) in methods then NoAuth
    else Method.Error
  }

  /** `negotiate_method`: VER, then a length-prefixed method list. A wrong VER
      selects the rejection without reading further. */
  function NegotiateMethod(c: Channel): (r: Run<Method>)
    requires c.Valid()
    ensures Advances(c, r.ch)
    ensures c.pos < |c.input| && c.input[c.pos] != VERSION ==> r == Run(Next(Method.Error), c.(pos := c.pos + 1))
    ensures r.step.Next? && c.pos < |c.input| && c.input[c.pos] == VERSION ==>
      && c.pos + 1 < |c.input|
      && 0 < c.input[c.pos + 1]
      && r.ch.pos == c.pos + 2 + c.input[c.pos + 1] as int
      && r.step.value == SelectMethod(c.input[c.pos + 2..r.ch.pos])
    ensures r.step.Next? ==> r.ch.output == c.output
    ensures r.step.Stop? ==> r.step.outcome in {Truncated, Failed(NoAcceptableMethod)}
    ensures r.step == Stop(Truncated) ==> r.ch.output == c.output && r.ch.pos == |c.input|
  {
    var ver := ReadU8(c);
    if ver.step.Stop? then Run(Stop(ver.step.outcome), ver.ch)
    else if ver.step.value != VERSION then Run(Next(Method.Error), ver.ch)
    else
      var methods := ReadVariable(ver.ch, MethodStage);
      if methods.step.Stop? then Run(Stop(methods.step.outcome), methods.ch)
      else Run(Next(SelectMethod(methods.step.value)), methods.ch)
  }

  /** Two length-prefixed fields that are both "123" are the bytes
      03 "123" 03 "123". */
  lemma CredentialFrame(s: seq<u8>, i: nat, u: seq<u8>, p: seq<u8>)
    requires i + 2 + |u| + |p| <= |s|
    requires s[i] as int == |u| && s[i + 1..i + 1 + |u|] == u
    requires s[i + 1 + |u|] as int == |p| && s[i + 2 + |u|..i + 2 + |u| + |p|] == p
    ensures u == CREDENTIAL && p == CREDENTIAL ==> s[i..i + 8] == [3] + CREDENTIAL + [3] + CREDENTIAL
  {
    if u == CREDENTIAL && p == CREDENTIAL {
      assert s[i..i + 8] == [s[i]] + s[i + 1..i + 4] + [s[i + 4]] + s[i + 5..i + 8];
    }
  }

  /** `auth_passwd`: AVER (read, never checked), then the credential fields. */
  function AuthPasswd(c: Channel): (r: Run<()>)
    requires c.Valid()
    ensures Advances(c, r.ch)
    ensures r.step.Next? ==>
      && r.ch.pos == c.pos + 9
      && c.input[c.pos + 1..r.ch.pos] == [3] + CREDENTIAL + [3] + CREDENTIAL
      && r.ch.output == c.output + [AUTH_PASSWD, 0x00]
    ensures r.step.Stop? ==>
      r.step.outcome == Truncated || r.step.outcome == Failed(AuthFailed) || r.step.outcome == Failed(EmptyField(AuthStage))
    ensures r.step == Stop(Failed(AuthFailed)) ==> r.ch.output == c.output + [AUTH_PASSWD, 0x01]
    ensures r.step == Stop(Truncated) ==> r.ch.output == c.output && r.ch.pos == |c.input|
  {
    var ver := ReadU8(c);
    if ver.step.Stop? then Run(Stop(ver.step.outcome), ver.ch)
    else AuthFields(ver.ch)
  }

  /** The rest of `auth_passwd`: username and password, each length-prefixed;
      only the pair 123/123 is accepted. */
  function AuthFields(c: Channel): (r: Run<()>)
    requires c.Valid()
    ensures Advances(c, r.ch)
    ensures r.step.Next? ==>
      && r.ch.pos == c.pos + 8
      && c.input[c.pos..r.ch.pos] == [3] + CREDENTIAL + [3] + CREDENTIAL
      && r.ch.output == c.output + [AUTH_PASSWD, 0x00]
    ensures r.step.Stop? ==>
      r.step.outcome == Truncated || r.step.outcome == Failed(AuthFailed) || r.step.outcome == Failed(EmptyField(AuthStage))
    ensures r.step == Stop(Failed(AuthFailed)) ==> r.ch.output == c.output + [AUTH_PASSWD, 0x01]
    ensures r.step == Stop(Truncated) ==> r.ch.output == c.output && r.ch.pos == |c.input|
  {
    var user := ReadVariable(c, AuthStage);
    if user.step.Stop? then Run(Stop(user.step.outcome), user.ch)
    else
      var pass := ReadVariable(user.ch, AuthStage);
      if pass.step.Stop? then Run(Stop(pass.step.outcome), pass.ch)
      else
        CredentialFrame(c.input, c.pos, user.step.value, pass.step.value);
        CheckCredentials(pass.ch, user.step.value, pass.step.value)
  }

  /** The end of `auth_passwd`: the pair is accepted exactly when both are
      "123"; either way the verdict is written back, and a rejection ends the
      session. */
  function CheckCredentials(c: Channel, user: seq<u8>, pass: seq<u8>): (r: Run<()>)
    ensures r.ch.input == c.input && r.ch.pos == c.pos
    ensures r.step.Next? <==> user == CREDENTIAL && pass == CREDENTIAL
    ensures r.step.Stop? ==> r.step.outcome == Failed(AuthFailed)
    ensures r.ch.output == c.output + [AUTH_PASSWD, if r.step.Next? then 0x00 else 0x01]
  {
    if user != CREDENTIAL || pass != CREDENTIAL then
      Run(Stop(Failed(AuthFailed)), ReplyAuth(c, false))
    else
      Run(Next(()), ReplyAuth(c, true))
  }

  /** `auth`: nothing to do for no authentication. Never called with the
      rejection, since `reply_method` ends the session first. */
  function Auth(c: Channel, m: Method): (r: Run<()>)
    requires c.Valid() && m != Method.Error
    ensures Advances(c, r.ch)
    ensures m == NoAuth ==> r == Run(Next(()), c)
    ensures r.step == Stop(Truncated) ==> r.ch.output == c.output && r.ch.pos == |c.input|
  {
    if m == NoAuth then Run(Next(()), c) else AuthPasswd(c)
  }

  /** `handle_connect_command`: decode the destination, connect, reply. */
  function HandleConnectCommand(c: Channel, net: Network): (r: Final)
    requires c.Valid()
    ensures Advances(c, r.ch)
    ensures r.outcome.Relay? ==>
      && r.outcome.upstream.WellFormed()
      && net.connect(r.outcome.upstream) && r.ch.output == c.output + CommandReply(VERSION, Succeeded)
    ensures r.outcome == Truncated ==> r.ch.output == c.output && r.ch.pos == |c.input|
  {
    var addr := ReadAddr(c, net.resolve);
    if addr.step.Stop? then Final(addr.step.outcome, addr.ch)
    else if net.connect(addr.step.value) then Final(Relay(addr.step.value), ReplyCommand(addr.ch, Succeeded))
    else Final(EndedOk, ReplyCommand(addr.ch, ConnectionRefused))
  }

  /** `handle_command`: the 3-byte header VER CMD RSV, the reserved byte
      unchecked. */
  function HandleCommand(c: Channel, net: Network): (r: Final)
    requires c.Valid()
    ensures Advances(c, r.ch)
    ensures r.outcome.Relay? ==>
      && r.outcome.upstream.WellFormed()
      && net.connect(r.outcome.upstream) && r.ch.output == c.output + CommandReply(VERSION, Succeeded)
    ensures r.outcome == Truncated ==> r.ch.output == c.output && r.ch.pos == |c.input|
  {
    var header := ReadExact(c, 3);
    if header.step.Stop? then Final(header.step.outcome, header.ch)
    else if header.step.value[0] != VERSION then Final(EndedOk, ReplyCommand(header.ch, RuleSetNotAllowed))
    else
      match CommandFrom(header.step.value[1])
      case Connect => HandleConnectCommand(header.ch, net)
      case Unsupported() => Final(EndedOk, ReplyCommand(header.ch, CommandUnsupported))
  }

  /** `handle`: negotiation, method reply, authentication, command. */
  function Handle(c: Channel, net: Network): (r: Final)
    requires c.Valid()
    ensures Advances(c, r.ch)
    ensures r.outcome == Truncated ==> r.ch.pos == |c.input|
  {
    var m := NegotiateMethod(c);
    if m.step.Stop? then Final(m.step.outcome, m.ch)
    else
      var replied := ReplyMethod(m.ch, m.step.value);
      if replied.step.Stop? then Final(replied.step.outcome, replied.ch)
      else
        var auth := Auth(replied.ch, m.step.value);
        if auth.step.Stop? then Final(auth.step.outcome, auth.ch)
        else HandleCommand(auth.ch, net)
  }

  /** A whole session on a fresh connection whose client sends `input`. */
  function Session(input: seq<u8>, net: Network): (r: Final)
    ensures r.ch.input == input && r.ch.pos <= |input|
  {
    Handle(Channel(input, 0, []), net)
  }
}
