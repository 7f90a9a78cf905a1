/** The server's per-connection handler. A `Connection` owns the client
    stream: the bytes the client sends, the read cursor into them, and the
    bytes written back. Each method reads and writes the stream in place and
    is proved to do exactly what the matching function of `Handshake` says. */
module Server {
  import opened Wire
  import opened Handshake

  class Connection {
    /** Everything the client sends on this connection. */
    const input: seq<u8>
    /** The protocol version, fixed when the connection is created. */
    const version: u8
    /** How many bytes of `input` have been read. */
    var pos: nat
    /** Everything written to the client so far. */
    var output: seq<u8>

    ghost predicate Valid()
      reads this
    {
      pos <= |input| && version == VERSION
    }

    /** The stream as a value, for stating what each method does to it. */
    function State(): Channel
      reads this
    {
      Channel(input, pos, output)
    }

    /** `Connection::new`. */
    constructor (input: seq<u8>)
      ensures Valid() && State() == Channel(input, 0, [])
    {
      this.input := input;
      this.version := VERSION;
      this.pos := 0;
      this.output := [];
    }

    method ReadU8() returns (r: Step<u8>)
      requires Valid()
      modifies this
      ensures Valid() && Run(r, State()) == Handshake.ReadU8(old(State()))
    {
      if pos < |input| {
        r := Next(input[pos]);
        pos := pos + 1;
      } else {
        r := Stop(Truncated);
      }
    }

    method ReadExact(n: nat) returns (r: Step<seq<u8>>)
      requires Valid()
      modifies this
      ensures Valid() && Run(r, State()) == Handshake.ReadExact(old(State()), n)
    {
      if pos + n <= |input| {
        r := Next(input[pos..pos + n]);
        pos := pos + n;
      } else {
        r := Stop(Truncated);
        pos := |input|;
      }
    }

    method ReadU16() returns (r: Step<u16>)
      requires Valid()
      modifies this
      ensures Valid() && Run(r, State()) == Handshake.ReadU16(old(State()))
    {
      var b := ReadExact(2);
      if b.Stop? {
        return Stop(b.outcome);
      }
      r := Next(ToU16(b.value[0], b.value[1]));
    }

    method WriteAll(bytes: seq<u8>)
      requires Valid()
      modifies this
      ensures Valid() && State() == Write(old(State()), bytes)
    {
      output := output + bytes;
    }

    method ReplyCommand(rep: CommandRep)
      requires Valid()
      modifies this
      ensures Valid() && State() == Handshake.ReplyCommand(old(State()), rep)
    {
      WriteAll([version, RepByte(rep), 0, AddrTypeByte(V4), 0, 0, 0, 0, 0, 0]);
    }

    method ReplyMethod(m: Method) returns (r: Step<()>)
      requires Valid()
      modifies this
      ensures Valid() && Run(r, State()) == Handshake.ReplyMethod(old(State()), m)
    {
      WriteAll(U16Bytes(ToU16(version, MethodByte(m))));
      if m == Method.Error {
        return Stop(Failed(NoAcceptableMethod));
      }
      r := Next(());
    }

    method ReplyAuth(success: bool)
      requires Valid()
      modifies this
      ensures Valid() && State() == Handshake.ReplyAuth(old(State()), success)
    {
      WriteAll(U16Bytes(ToU16(AUTH_PASSWD, if !success then 1 else 0)));
    }

    method ReadVariable(stage: Stage) returns (r: Step<seq<u8>>)
      requires Valid()
      modifies this
      ensures Valid() && Run(r, State()) == Handshake.ReadVariable(old(State()), stage)
    {
      var len := ReadU8();
      if len.Stop? {
        return Stop(len.outcome);
      }
      if len.value == 0 {
        match stage {
          case MethodStage =>
            var m := ReplyMethod(Method.Error);
            return Stop(m.outcome);
          case AuthStage =>
            ReplyAuth(false);
          case CommandStage =>
            ReplyCommand(RuleSetNotAllowed);
        }
        return Stop(Failed(EmptyField(stage)));
      }
      r := ReadExact(len.value as nat);
    }

    method NegotiateMethod() returns (r: Step<Method>)
      requires Valid()
      modifies this
      ensures Valid() && Run(r, State()) == Handshake.NegotiateMethod(old(State()))
    {
      var ver := ReadU8();
      if ver.Stop? {
        return Stop(ver.outcome);
      }
      if ver.value != version {
        return Next(Method.Error);
      }
      var methods := ReadVariable(MethodStage);
      if methods.Stop? {
        return Stop(methods.outcome);
      }
      if MethodByte(Passwd) in methods.value {
        return Next(Passwd);
      }
      if MethodByte(NoAuth) in methods.value {
        return Next(NoAuth);
      }
      r := Next(Method.Error);
    }

    method AuthPasswd() returns (r: Step<()>)
      requires Valid()
      modifies this
      ensures Valid() && Run(r, State()) == Handshake.AuthPasswd(old(State()))
    {
      var ver := ReadU8();
      if ver.Stop? {
        return Stop(ver.outcome);
      }
      var user := ReadVariable(AuthStage);
      if user.Stop? {
        return Stop(user.outcome);
      }
      var pass := ReadVariable(AuthStage);
      if pass.Stop? {
        return Stop(pass.outcome);
      }
      if user.value != CREDENTIAL || pass.value != CREDENTIAL {
        ReplyAuth(false);
        return Stop(Failed(AuthFailed));
      }
      ReplyAuth(true);
      r := Next(());
    }

    method Auth(m: Method) returns (r: Step<()>)
      requires Valid() && m != Method.Error
      modifies this
      ensures Valid() && Run(r, State()) == Handshake.Auth(old(State()), m)
    {
      if m == NoAuth {
        r := Next(());
      } else {
        r := AuthPasswd();
      }
    }

    method ReadAddr(resolve: Resolver) returns (r: Step<SocketAddr>)
      requires Valid()
      modifies this
      ensures Valid() && Run(r, State()) == Handshake.ReadAddr(old(State()), resolve)
    {
      var t := ReadU8();
      if t.Stop? {
        return Stop(t.outcome);
      }
      match AddrTypeFrom(t.value) {
        case V4 =>
          r := ReadLiteralAddr(4);
        case V6 =>
          r := ReadLiteralAddr(16);
        case Domain =>
          var name := ReadVariable(CommandStage);
          if name.Stop? {
            return Stop(name.outcome);
          }
          var port := ReadU16();
          if port.Stop? {
            return Stop(port.outcome);
          }
          match resolve(name.value, port.value) {
            case None => r := Stop(Failed(UnresolvedDomain));
            case Some(a) => r := Next(a);
          }
        case Unsupported() =>
          ReplyCommand(AddrTypeUnsupported);
          r := Stop(Failed(AddrTypeRejected));
      }
    }

    method ReadLiteralAddr(n: nat) returns (r: Step<SocketAddr>)
      requires Valid() && (n == 4 || n == 16)
      modifies this
      ensures Valid() && Run(r, State()) == Handshake.ReadLiteralAddr(old(State()), n)
    {
      var ip := ReadExact(n);
      if ip.Stop? {
        return Stop(ip.outcome);
      }
      var port := ReadU16();
      if port.Stop? {
        return Stop(port.outcome);
      }
      r := Next(if n == 4 then V4Addr(ip.value, port.value) else V6Addr(ip.value, port.value));
    }

    method HandleConnectCommand(net: Network) returns (o: Outcome)
      requires Valid()
      modifies this
      ensures Valid() && Final(o, State()) == Handshake.HandleConnectCommand(old(State()), net)
    {
      var addr := ReadAddr(net.resolve);
      if addr.Stop? {
        return addr.outcome;
      }
      if net.connect(addr.value) {
        ReplyCommand(Succeeded);
        o := Relay(addr.value);
      } else {
        ReplyCommand(ConnectionRefused);
        o := EndedOk;
      }
    }

    method HandleCommand(net: Network) returns (o: Outcome)
      requires Valid()
      modifies this
      ensures Valid() && Final(o, State()) == Handshake.HandleCommand(old(State()), net)
    {
      var header := ReadExact(3);
      if header.Stop? {
        return header.outcome;
      }
      if header.value[0] != version {
        ReplyCommand(RuleSetNotAllowed);
        return EndedOk;
      }
      match CommandFrom(header.value[1]) {
        case Connect =>
          o := HandleConnectCommand(net);
        case Unsupported() =>
          ReplyCommand(CommandUnsupported);
          o := EndedOk;
      }
    }

    /** `handle`: runs the handshake to its end and reports how it ended. */
    method Handle(net: Network) returns (o: Outcome)
      requires Valid()
      modifies this
      ensures Valid() && Final(o, State()) == Handshake.Handle(old(State()), net)
    {
      var m := NegotiateMethod();
      if m.Stop? {
        return m.outcome;
      }
      var replied := ReplyMethod(m.value);
      if replied.Stop? {
        return replied.outcome;
      }
      var auth := Auth(m.value);
      if auth.Stop? {
        return auth.outcome;
      }
      o := HandleCommand(net);
    }
  }

  /** One accepted connection: create the handler and run it. The outcome and
      the bytes written are exactly those of the session function. */
  method Serve(input: seq<u8>, net: Network) returns (o: Outcome, written: seq<u8>, consumed: nat)
    ensures Session(input, net) == Final(o, Channel(input, consumed, written))
  {
    var connection := new Connection(input);
    o := connection.Handle(net);
    written, consumed := connection.output, connection.pos;
  }
}
