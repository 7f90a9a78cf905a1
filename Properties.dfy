/** What the handshake promises, stated over the session function: the
    method choice, the authentication decision, the reply for every request,
    the address codec, and that the server never reads past the handshake. */
module HandshakeFacts {
  import opened Wire
  import opened Handshake

  /** The unread input of `c` begins with `bytes`. */
  predicate At(c: Channel, bytes: seq<u8>) {
    c.pos + |bytes| <= |c.input| && c.input[c.pos..c.pos + |bytes|] == bytes
  }

  lemma AtSplit(c: Channel, a: seq<u8>, b: seq<u8>)
    requires At(c, a + b)
    ensures At(c, a) && At(c.(pos := c.pos + |a|), b)
  {
    assert c.input[c.pos..c.pos + |a|] == (a + b)[..|a|];
    assert c.input[c.pos + |a|..c.pos + |a| + |b|] == (a + b)[|a|..];
  }

  /** A fresh connection whose client sends `frame` first. */
  lemma AtStart(frame: seq<u8>, rest: seq<u8>)
    ensures At(Channel(frame + rest, 0, []), frame)
  {
    assert (frame + rest)[..|frame|] == frame;
  }

  // ---------------------------------------------------------------------
  // Length-prefixed fields

  /** A field of length n > 0 is returned whole and consumes exactly 1 + n bytes. */
  lemma ReadVariableAt(c: Channel, field: seq<u8>, stage: Stage)
    requires c.Valid() && 0 < |field| < 0x100
    requires At(c, [|field| as u8] + field)
    ensures ReadVariable(c, stage) == Run(Next(field), c.(pos := c.pos + 1 + |field|))
  {
    AtSplit(c, [|field| as u8], field);
    assert c.input[c.pos] == |field| as u8;
  }

  // ---------------------------------------------------------------------
  // Method negotiation

  /** A greeting whose version is not 5 is answered 05 FF after reading that
      one byte, and the session fails there. */
  lemma GreetingWrongVersion(input: seq<u8>, net: Network)
    requires |input| >= 1 && input[0] != VERSION
    ensures Session(input, net) == Final(Failed(NoAcceptableMethod), Channel(input, 1, [VERSION, 0xFF]))
  {
  }

  /** An empty method list is a framing error: the reply is 05 FF and the
      session fails after the two greeting bytes. */
  lemma GreetingEmptyMethodList(input: seq<u8>, net: Network)
    requires |input| >= 2 && input[0] == VERSION && input[1] == 0
    ensures Session(input, net) == Final(Failed(NoAcceptableMethod), Channel(input, 2, [VERSION, 0xFF]))
  {
    var c := Channel(input, 0, []);
    var ver := ReadU8(c);
    assert ReadVariable(ver.ch, MethodStage).step == Stop(Failed(NoAcceptableMethod));
  }

  /** A well-formed greeting is consumed whole and the method is the selection. */
  lemma NegotiateAt(c: Channel, methods: seq<u8>)
    requires c.Valid() && 0 < |methods| < 0x100
    requires At(c, [VERSION, |methods| as u8] + methods)
    ensures NegotiateMethod(c) == Run(Next(SelectMethod(methods)), c.(pos := c.pos + 2 + |methods|))
  {
    AtSplit(c, [VERSION], [|methods| as u8] + methods);
    ReadVariableAt(c.(pos := c.pos + 1), methods, MethodStage);
  }

  /** After a well-formed greeting the server writes exactly 05 and the
      selected method; if that is the rejection the session ends there, so
      neither authentication nor the command stage is entered. */
  lemma GreetingReply(methods: seq<u8>, rest: seq<u8>, net: Network)
    requires 0 < |methods| < 0x100
    ensures var r := Session([VERSION, |methods| as u8] + methods + rest, net);
      && |r.ch.output| >= 2
      && r.ch.output[..2] == [VERSION, MethodByte(SelectMethod(methods))]
      && (SelectMethod(methods) == Method.Error ==>
            r == Final(Failed(NoAcceptableMethod), Channel(r.ch.input, 2 + |methods|, [VERSION, 0xFF])))
  {
    var input := [VERSION, |methods| as u8] + methods + rest;
    var c := Channel(input, 0, []);
    AtStart([VERSION, |methods| as u8] + methods, rest);
    NegotiateAt(c, methods);
    var m := SelectMethod(methods);
    var after := c.(pos := 2 + |methods|, output := [VERSION, MethodByte(m)]);
    if m != Method.Error {
      var auth := Auth(after, m);
      if !auth.step.Stop? {
        assert HandleCommand(auth.ch, net).ch.output[..2] == after.output by {
          assert after.output <= auth.ch.output <= HandleCommand(auth.ch, net).ch.output;
        }
      }
    }
  }

  /** With no authentication selected the command stage follows the reply 05 00 directly. */
  lemma NoAuthThenCommand(methods: seq<u8>, rest: seq<u8>, net: Network)
    requires 0 < |methods| < 0x100 && SelectMethod(methods) == NoAuth
    ensures var input := [VERSION, |methods| as u8] + methods + rest;
      Session(input, net) == HandleCommand(Channel(input, 2 + |methods|, [VERSION, 0x00]), net)
  {
    var input := [VERSION, |methods| as u8] + methods + rest;
    var c := Channel(input, 0, []);
    AtStart([VERSION, |methods| as u8] + methods, rest);
    NegotiateAt(c, methods);
    var after := Channel(input, 2 + |methods|, [VERSION, 0x00]);
    assert ReplyMethod(NegotiateMethod(c).ch, NoAuth) == Run(Next(()), after);
    assert Handle(c, net) == HandleCommand(after, net);
  }

  // ---------------------------------------------------------------------
  // Username/password subnegotiation

  /** `auth_passwd` on a complete frame: success exactly for 123/123, with
      reply 01 00; any other pair gets 01 01 and fails. AVER is not checked. */
  lemma AuthPasswdAt(c: Channel, aver: u8, user: seq<u8>, pass: seq<u8>)
    requires c.Valid() && 0 < |user| < 0x100 && 0 < |pass| < 0x100
    requires At(c, [aver] + ([|user| as u8] + user) + ([|pass| as u8] + pass))
    ensures var d := c.(pos := c.pos + 3 + |user| + |pass|);
      AuthPasswd(c) ==
        if user == CREDENTIAL && pass == CREDENTIAL then Run(Next(()), d.(output := c.output + [AUTH_PASSWD, 0x00]))
        else Run(Stop(Failed(AuthFailed)), d.(output := c.output + [AUTH_PASSWD, 0x01]))
  {
    AtSplit(c, [aver], ([|user| as u8] + user) + ([|pass| as u8] + pass));
    var c1 := c.(pos := c.pos + 1);
    AtSplit(c1, [|user| as u8] + user, [|pass| as u8] + pass);
    ReadVariableAt(c1, user, AuthStage);
    ReadVariableAt(c1.(pos := c1.pos + 1 + |user|), pass, AuthStage);
  }

  /** A zero-length username is a framing error answered 01 01, not an empty credential. */
  lemma AuthEmptyUsername(c: Channel, aver: u8)
    requires c.Valid() && At(c, [aver, 0])
    ensures AuthPasswd(c) == Run(Stop(Failed(EmptyField(AuthStage))),
                                 Channel(c.input, c.pos + 2, c.output + [AUTH_PASSWD, 0x01]))
  {
    assert c.input[c.pos + 1] == [aver, 0][1];
  }

  /** A zero-length password is a framing error answered 01 01, not an empty credential. */
  lemma AuthEmptyPassword(c: Channel, aver: u8, user: seq<u8>)
    requires c.Valid() && 0 < |user| < 0x100
    requires At(c, [aver] + ([|user| as u8] + user) + [0])
    ensures AuthPasswd(c) == Run(Stop(Failed(EmptyField(AuthStage))),
                                 Channel(c.input, c.pos + 3 + |user|, c.output + [AUTH_PASSWD, 0x01]))
  {
    AtSplit(c, [aver], ([|user| as u8] + user) + [0]);
    var c1 := c.(pos := c.pos + 1);
    AtSplit(c1, [|user| as u8] + user, [0]);
    ReadVariableAt(c1, user, AuthStage);
    assert c.input[c1.pos + 1 + |user|] == [0 as u8][0];
  }

  /** After the client picks username/password, the session is the
      subnegotiation followed, if it succeeds, by the command stage. */
  lemma HandleAfterPasswd(c: Channel, after: Channel, net: Network)
    requires c.Valid() && after.Valid()
    requires NegotiateMethod(c) == Run(Next(Passwd), after.(output := c.output))
    requires after.output == c.output + [VERSION, 0x02]
    ensures var a := AuthPasswd(after);
      Handle(c, net) == if a.step.Stop? then Final(a.step.outcome, a.ch) else HandleCommand(a.ch, net)
  {
    assert ReplyMethod(NegotiateMethod(c).ch, Passwd) == Run(Next(()), after);
  }

  /** A greeting offering 02 selects username/password and is consumed
      whole, leaving the cursor at the subnegotiation that follows it. */
  lemma PasswdGreeting(greeting: seq<u8>, auth: seq<u8>, rest: seq<u8>, methods: seq<u8>)
    requires 0 < |methods| < 0x100 && MethodByte(Passwd) in methods
    requires greeting == [VERSION, |methods| as u8] + methods
    ensures NegotiateMethod(Channel(greeting + auth + rest, 0, []))
      == Run(Next(Passwd), Channel(greeting + auth + rest, |greeting|, []))
    ensures At(Channel(greeting + auth + rest, |greeting|, []), auth)
  {
    var c := Channel(greeting + auth + rest, 0, []);
    AtStart(greeting + auth, rest);
    AtSplit(c, greeting, auth);
    NegotiateAt(c, methods);
  }

  /** With 02 offered, the session writes 05 02 and continues with the
      subnegotiation right after the greeting. */
  lemma PasswdSessionStart(greeting: seq<u8>, auth: seq<u8>, rest: seq<u8>, methods: seq<u8>, net: Network)
    requires 0 < |methods| < 0x100 && MethodByte(Passwd) in methods
    requires greeting == [VERSION, |methods| as u8] + methods
    ensures var a := AuthPasswd(Channel(greeting + auth + rest, |greeting|, [VERSION, 0x02]));
      Session(greeting + auth + rest, net) ==
        if a.step.Stop? then Final(a.step.outcome, a.ch) else HandleCommand(a.ch, net)
  {
    var input := greeting + auth + rest;
    PasswdGreeting(greeting, auth, rest, methods);
    HandleAfterPasswd(Channel(input, 0, []), Channel(input, |greeting|, [VERSION, 0x02]), net);
  }

  /** The username/password subnegotiation after any greeting that was
      answered 05 02: 01 00 and success for 123/123, otherwise 01 01. */
  lemma PasswdSessionAuth(greeting: seq<u8>, auth: seq<u8>, rest: seq<u8>, aver: u8, user: seq<u8>, pass: seq<u8>)
    requires 0 < |user| < 0x100 && 0 < |pass| < 0x100
    requires auth == [aver] + ([|user| as u8] + user) + ([|pass| as u8] + pass)
    ensures user == CREDENTIAL && pass == CREDENTIAL ==>
      AuthPasswd(Channel(greeting + auth + rest, |greeting|, [VERSION, 0x02]))
        == Run(Next(()), Channel(greeting + auth + rest, |greeting| + |auth|, [VERSION, 0x02, AUTH_PASSWD, 0x00]))
    ensures user != CREDENTIAL || pass != CREDENTIAL ==>
      AuthPasswd(Channel(greeting + auth + rest, |greeting|, [VERSION, 0x02]))
        == Run(Stop(Failed(AuthFailed)), Channel(greeting + auth + rest, |greeting| + |auth|, [VERSION, 0x02, AUTH_PASSWD, 0x01]))
  {
    var after := Channel(greeting + auth + rest, |greeting|, [VERSION, 0x02]);
    AtStart(greeting + auth, rest);
    AtSplit(after.(pos := 0), greeting, auth);
    AuthPasswdAt(after, aver, user, pass);
    assert after.output + [AUTH_PASSWD, 0x00] == [VERSION, 0x02, AUTH_PASSWD, 0x00];
    assert after.output + [AUTH_PASSWD, 0x01] == [VERSION, 0x02, AUTH_PASSWD, 0x01];
  }

  /** A whole session through username/password: after 05 02 the server
      answers 01 00 and goes on to the command stage exactly when both fields
      are 123, and otherwise answers 01 01 and fails. */
  lemma PasswdSession(greeting: seq<u8>, auth: seq<u8>, rest: seq<u8>, methods: seq<u8>, aver: u8,
                      user: seq<u8>, pass: seq<u8>, net: Network)
    requires 0 < |methods| < 0x100 && MethodByte(Passwd) in methods
    requires 0 < |user| < 0x100 && 0 < |pass| < 0x100
    requires greeting == [VERSION, |methods| as u8] + methods
    requires auth == [aver] + ([|user| as u8] + user) + ([|pass| as u8] + pass)
    ensures user == CREDENTIAL && pass == CREDENTIAL ==>
      Session(greeting + auth + rest, net)
        == HandleCommand(Channel(greeting + auth + rest, |greeting| + |auth|, [VERSION, 0x02, AUTH_PASSWD, 0x00]), net)
    ensures user != CREDENTIAL || pass != CREDENTIAL ==>
      Session(greeting + auth + rest, net)
        == Final(Failed(AuthFailed), Channel(greeting + auth + rest, |greeting| + |auth|, [VERSION, 0x02, AUTH_PASSWD, 0x01]))
  {
    PasswdSessionStart(greeting, auth, rest, methods, net);
    PasswdSessionAuth(greeting, auth, rest, aver, user, pass);
  }

  // ---------------------------------------------------------------------
  // Addresses

  /** Decoding an encoded IPv4 or IPv6 destination gives it back and consumes
      exactly its encoding (1 + 4 + 2 or 1 + 16 + 2 bytes). */
  lemma ReadAddrRoundTrip(c: Channel, a: SocketAddr, resolve: Resolver)
    requires c.Valid() && a.WellFormed() && At(c, EncodeAddr(a))
    ensures ReadAddr(c, resolve) == Run(Next(a), c.(pos := c.pos + |EncodeAddr(a)|))
  {
    var e := EncodeAddr(a);
    var n := |a.ip|;
    assert e == [e[0]] + (a.ip + U16Bytes(a.port));
    AtSplit(c, [e[0]], a.ip + U16Bytes(a.port));
    var c1 := c.(pos := c.pos + 1);
    AtSplit(c1, a.ip, U16Bytes(a.port));
    var lit := ReadLiteralAddr(c1, n);
    assert lit.step.Next?;
    ToU16OfU16Bytes(a.port);
    assert U16Bytes(lit.step.value.port) == U16Bytes(a.port);
    assert lit.step.value.port == a.port by {
      ToU16OfU16Bytes(lit.step.value.port);
    }
  }

  /** 01 C0 00 02 01 1F 90 is 192.0.2.1, port 8080. */
  lemma ReadAddrExample(resolve: Resolver)
    ensures ReadAddr(Channel([0x01, 0xC0, 0x00, 0x02, 0x01, 0x1F, 0x90], 0, []), resolve)
         == Run(Next(V4Addr([192, 0, 2, 1], 8080)), Channel([0x01, 0xC0, 0x00, 0x02, 0x01, 0x1F, 0x90], 7, []))
  {
    var a := V4Addr([192, 0, 2, 1], 8080);
    assert U16Bytes(8080) == [0x1F, 0x90];
    assert EncodeAddr(a) == [0x01, 0xC0, 0x00, 0x02, 0x01, 0x1F, 0x90];
    ReadAddrRoundTrip(Channel(EncodeAddr(a), 0, []), a, resolve);
  }

  /** The bound-address part of every command reply decodes as 0.0.0.0, port 0. */
  lemma ReplyBoundAddress(rep: CommandRep, resolve: Resolver)
    ensures ReadAddr(Channel(CommandReply(VERSION, rep), 3, []), resolve)
         == Run(Next(UNSPECIFIED), Channel(CommandReply(VERSION, rep), 10, []))
  {
    var r := CommandReply(VERSION, rep);
    assert r[3..10] == EncodeAddr(UNSPECIFIED);
    ReadAddrRoundTrip(Channel(r, 3, []), UNSPECIFIED, resolve);
  }

  // ---------------------------------------------------------------------
  // Command stage

  /** A request whose version is not 5 gets status 02 after the 3-byte header
      and the handler returns normally without reading an address. */
  lemma CommandWrongVersion(c: Channel, net: Network)
    requires c.Valid() && c.pos + 3 <= |c.input| && c.input[c.pos] != VERSION
    ensures HandleCommand(c, net)
         == Final(EndedOk, Channel(c.input, c.pos + 3, c.output + CommandReply(VERSION, RuleSetNotAllowed)))
  {
  }

  /** A CMD other than 1 gets status 07 after the header; nothing more is read. */
  lemma CommandNotConnect(c: Channel, net: Network)
    requires c.Valid() && c.pos + 3 <= |c.input|
    requires c.input[c.pos] == VERSION && c.input[c.pos + 1] != 0x01
    ensures HandleCommand(c, net)
         == Final(EndedOk, Channel(c.input, c.pos + 3, c.output + CommandReply(VERSION, CommandUnsupported)))
  {
  }

  /** An ATYP other than 1, 3, 4 gets status 08 and the session fails. */
  lemma ConnectBadAddrType(c: Channel, rsv: u8, atyp: u8, net: Network)
    requires c.Valid() && atyp !in {0x01, 0x03, 0x04}
    requires At(c, [VERSION, 0x01, rsv, atyp])
    ensures HandleCommand(c, net)
         == Final(Failed(AddrTypeRejected), Channel(c.input, c.pos + 4, c.output + CommandReply(VERSION, AddrTypeUnsupported)))
  {
    var f: seq<u8> := [VERSION, 0x01, rsv, atyp];
    assert c.input[c.pos..c.pos + 3] == f[..3];
    assert c.input[c.pos + 3] == f[3];
  }

  /** CONNECT to an IPv4 or IPv6 address: status 00 and relay when the
      connection opens, status 05 and a normal return when it does not. */
  lemma ConnectLiteral(c: Channel, rsv: u8, a: SocketAddr, net: Network)
    requires c.Valid() && a.WellFormed()
    requires At(c, [VERSION, 0x01, rsv] + EncodeAddr(a))
    ensures var d := c.(pos := c.pos + 3 + |EncodeAddr(a)|);
      HandleCommand(c, net) ==
        if net.connect(a) then Final(Relay(a), d.(output := c.output + CommandReply(VERSION, Succeeded)))
        else Final(EndedOk, d.(output := c.output + CommandReply(VERSION, ConnectionRefused)))
  {
    var head: seq<u8> := [VERSION, 0x01, rsv];
    AtSplit(c, head, EncodeAddr(a));
    assert c.input[c.pos..c.pos + 3] == head;
    assert c.input[c.pos] == VERSION && c.input[c.pos + 1] == 0x01 by {
      assert c.input[c.pos] == head[0] && c.input[c.pos + 1] == head[1];
    }
    ReadAddrRoundTrip(c.(pos := c.pos + 3), a, net.resolve);
  }

  /** The domain arm on a complete name and port: the name and the port
      read are exactly those sent, and the conversion decides the result. */
  lemma ReadDomainAddrAt(c: Channel, name: seq<u8>, port: u16, resolve: Resolver)
    requires c.Valid() && 0 < |name| < 0x100
    requires At(c, ([|name| as u8] + name) + U16Bytes(port))
    ensures var d := c.(pos := c.pos + 1 + |name| + 2);
      ReadDomainAddr(c, resolve) ==
        match resolve(name, port)
        case None => Run(Stop(Failed(UnresolvedDomain)), d)
        case Some(a) => Run(Next(a), d)
  {
    AtSplit(c, [|name| as u8] + name, U16Bytes(port));
    ReadVariableAt(c, name, CommandStage);
    var p := ReadU16(c.(pos := c.pos + 1 + |name|));
    assert p.step.value == port by {
      ToU16OfU16Bytes(port);
      ToU16OfU16Bytes(p.step.value);
    }
  }

  /** CONNECT to a domain name: a conversion failure ends the session with no
      reply; otherwise the converted address is connected to as for a literal. */
  lemma ConnectDomain(c: Channel, rsv: u8, name: seq<u8>, port: u16, net: Network)
    requires c.Valid() && 0 < |name| < 0x100
    requires At(c, [VERSION, 0x01, rsv, AddrTypeByte(Domain)] + ([|name| as u8] + name) + U16Bytes(port))
    ensures var d := c.(pos := c.pos + 4 + 1 + |name| + 2);
      HandleCommand(c, net) ==
        match net.resolve(name, port)
        case None => Final(Failed(UnresolvedDomain), d)
        case Some(a) =>
          if net.connect(a) then Final(Relay(a), d.(output := c.output + CommandReply(VERSION, Succeeded)))
          else Final(EndedOk, d.(output := c.output + CommandReply(VERSION, ConnectionRefused)))
  {
    var head := [VERSION, 0x01, rsv, AddrTypeByte(Domain)];
    assert head + ([|name| as u8] + name) + U16Bytes(port) == head + (([|name| as u8] + name) + U16Bytes(port));
    AtSplit(c, head, ([|name| as u8] + name) + U16Bytes(port));
    assert c.input[c.pos..c.pos + 3] == head[..3];
    assert c.input[c.pos + 3] == head[3];
    ReadDomainAddrAt(c.(pos := c.pos + 4), name, port, net.resolve);
  }

  /** A zero-length domain name is answered with status 02 and the session fails. */
  lemma ConnectEmptyDomain(c: Channel, rsv: u8, net: Network)
    requires c.Valid() && At(c, [VERSION, 0x01, rsv, AddrTypeByte(Domain), 0])
    ensures HandleCommand(c, net)
         == Final(Failed(EmptyField(CommandStage)), Channel(c.input, c.pos + 5, c.output + CommandReply(VERSION, RuleSetNotAllowed)))
  {
    var f := [VERSION, 0x01, rsv, AddrTypeByte(Domain), 0];
    assert c.input[c.pos..c.pos + 3] == f[..3];
    assert c.input[c.pos + 3] == f[3];
    assert c.input[c.pos + 4] == f[4];
  }

  // ---------------------------------------------------------------------
  // Whole sessions

  /** 05 01 00, then CONNECT 127.0.0.1:80 to a reachable host: the server
      writes 05 00 and then 05 00 00 01 00 00 00 00 00 00 and starts relaying,
      with everything after those 13 bytes left for the relay. */
  lemma NoAuthConnectExample(relayed: seq<u8>, net: Network)
    requires net.connect(V4Addr([127, 0, 0, 1], 80))
    ensures var input := [0x05, 0x01, 0x00] + [0x05, 0x01, 0x00, 0x01, 0x7F, 0x00, 0x00, 0x01, 0x00, 0x50] + relayed;
      Session(input, net)
        == Final(Relay(V4Addr([127, 0, 0, 1], 80)),
                 Channel(input, 13, [0x05, 0x00] + [0x05, 0x00, 0x00, 0x01, 0x00, 0x00, 0x00, 0x00, 0x00, 0x00]))
  {
    var a := V4Addr([127, 0, 0, 1], 80);
    var request := [0x05, 0x01, 0x00, 0x01, 0x7F, 0x00, 0x00, 0x01, 0x00, 0x50];
    var input := [0x05, 0x01, 0x00] + request + relayed;
    assert U16Bytes(80) == [0x00, 0x50];
    assert request == [VERSION, 0x01, 0x00] + EncodeAddr(a);
    assert input == [VERSION, 1 as u8] + [MethodByte(NoAuth)] + (request + relayed);
    NoAuthThenCommand([MethodByte(NoAuth)], request + relayed, net);
    var c := Channel(input, 3, [VERSION, 0x00]);
    assert At(c, request) by {
      assert input[3..13] == request;
    }
    ConnectLiteral(c, 0x00, a, net);
  }

  /** The server's first frame is always the method reply 05 M with M one of
      00, 02, FF; it writes nothing at all only when the client stops first;
      and after 05 FF the session has failed with nothing more written. */
  lemma MethodReplyComesFirst(input: seq<u8>, net: Network)
    ensures var r := Session(input, net);
      && (r.ch.output == [] ==> r.outcome == Truncated)
      && (r.ch.output != [] ==>
            && |r.ch.output| >= 2 && r.ch.output[0] == VERSION
            && r.ch.output[1] in {MethodByte(NoAuth), MethodByte(Passwd), MethodByte(Method.Error)})
      && (|r.ch.output| >= 2 && r.ch.output[1] == MethodByte(Method.Error) ==>
            r.outcome == Failed(NoAcceptableMethod) && r.ch.output == [VERSION, 0xFF])
  {
    var c := Channel(input, 0, []);
    var m := NegotiateMethod(c);
    if m.step.Next? {
      var replied := ReplyMethod(m.ch, m.step.value);
      assert m.ch.output == [];
      assert replied.ch.output == [VERSION, MethodByte(m.step.value)];
      if replied.step.Next? {
        var auth := Auth(replied.ch, m.step.value);
        if auth.step.Next? {
          var h := HandleCommand(auth.ch, net);
          assert replied.ch.output <= h.ch.output;
          assert h.ch.output[..2] == replied.ch.output;
        } else {
          assert auth.ch.output[..2] == replied.ch.output;
        }
      }
    } else if m.step.outcome == Failed(NoAcceptableMethod) {
      assert m.ch.output == [VERSION, 0xFF];
    }
  }

  /** The session relays only to a well-formed address that the connect call accepted,
      and only after the last thing written is the success reply. */
  lemma RelayOnlyAfterSuccess(input: seq<u8>, net: Network)
    ensures var r := Session(input, net);
      r.outcome.Relay? ==>
        && r.outcome.upstream.WellFormed()
        && net.connect(r.outcome.upstream)
        && |r.ch.output| >= 10
        && r.ch.output[|r.ch.output| - 10..] == CommandReply(VERSION, Succeeded)
  {
    var c := Channel(input, 0, []);
    var m := NegotiateMethod(c);
    if m.step.Next? {
      var replied := ReplyMethod(m.ch, m.step.value);
      if replied.step.Next? {
        var auth := Auth(replied.ch, m.step.value);
        if auth.step.Next? {
          var h := HandleCommand(auth.ch, net);
          if h.outcome.Relay? {
            assert h.ch.output == auth.ch.output + CommandReply(VERSION, Succeeded);
          }
        }
      }
    }
  }
}
