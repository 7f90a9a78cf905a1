/** The server never reads ahead: every step, and so the whole handshake,
    is decided by the bytes it consumed. Whatever the client sends after the
    handshake (the data to relay) cannot change what the handshake did, and
    the relay receives it untouched. */
module Lookahead {
  import opened Wire
  import opened Handshake

  /** `c` and `d` are the same stream state, except that their inputs may
      differ from byte `k` on. */
  predicate Agree(c: Channel, d: Channel, k: nat) {
    && c.Valid() && d.Valid()
    && c.pos == d.pos && c.output == d.output
    && k <= |c.input| && k <= |d.input| && c.input[..k] == d.input[..k]
  }

  lemma AgreeSlice(c: Channel, d: Channel, k: nat, i: nat, j: nat)
    requires Agree(c, d, k) && i <= j <= k
    ensures c.input[i..j] == d.input[i..j]
  {
    assert c.input[i..j] == c.input[..k][i..j];
    assert d.input[i..j] == d.input[..k][i..j];
  }

  lemma ReadU8Local(c: Channel, d: Channel, k: nat)
    requires Agree(c, d, k)
    requires ReadU8(c).step != Stop(Truncated) && ReadU8(c).ch.pos <= k
    ensures ReadU8(d).step == ReadU8(c).step && Agree(ReadU8(c).ch, ReadU8(d).ch, k)
  {
    AgreeSlice(c, d, k, c.pos, c.pos + 1);
    assert c.input[c.pos] == c.input[c.pos..c.pos + 1][0];
    assert d.input[d.pos] == d.input[d.pos..d.pos + 1][0];
  }

  lemma ReadExactLocal(c: Channel, d: Channel, k: nat, n: nat)
    requires Agree(c, d, k)
    requires ReadExact(c, n).step != Stop(Truncated) && ReadExact(c, n).ch.pos <= k
    ensures ReadExact(d, n).step == ReadExact(c, n).step && Agree(ReadExact(c, n).ch, ReadExact(d, n).ch, k)
  {
    AgreeSlice(c, d, k, c.pos, c.pos + n);
  }

  lemma ReadU16Local(c: Channel, d: Channel, k: nat)
    requires Agree(c, d, k)
    requires ReadU16(c).step != Stop(Truncated) && ReadU16(c).ch.pos <= k
    ensures ReadU16(d).step == ReadU16(c).step && Agree(ReadU16(c).ch, ReadU16(d).ch, k)
  {
    ReadExactLocal(c, d, k, 2);
  }

  lemma ReadVariableLocal(c: Channel, d: Channel, k: nat, stage: Stage)
    requires Agree(c, d, k)
    requires ReadVariable(c, stage).step != Stop(Truncated) && ReadVariable(c, stage).ch.pos <= k
    ensures ReadVariable(d, stage).step == ReadVariable(c, stage).step
    ensures Agree(ReadVariable(c, stage).ch, ReadVariable(d, stage).ch, k)
  {
    ReadU8Local(c, d, k);
    var len := ReadU8(c);
    if len.step.value != 0 {
      ReadExactLocal(len.ch, ReadU8(d).ch, k, len.step.value as nat);
    }
  }

  lemma ReadLiteralAddrLocal(c: Channel, d: Channel, k: nat, n: nat)
    requires Agree(c, d, k) && (n == 4 || n == 16)
    requires ReadLiteralAddr(c, n).step != Stop(Truncated) && ReadLiteralAddr(c, n).ch.pos <= k
    ensures ReadLiteralAddr(d, n).step == ReadLiteralAddr(c, n).step
    ensures Agree(ReadLiteralAddr(c, n).ch, ReadLiteralAddr(d, n).ch, k)
  {
    ReadExactLocal(c, d, k, n);
    ReadU16Local(ReadExact(c, n).ch, ReadExact(d, n).ch, k);
  }

  lemma ReadDomainAddrLocal(c: Channel, d: Channel, k: nat, resolve: Resolver)
    requires Agree(c, d, k)
    requires ReadDomainAddr(c, resolve).step != Stop(Truncated) && ReadDomainAddr(c, resolve).ch.pos <= k
    ensures ReadDomainAddr(d, resolve).step == ReadDomainAddr(c, resolve).step
    ensures Agree(ReadDomainAddr(c, resolve).ch, ReadDomainAddr(d, resolve).ch, k)
  {
    ReadVariableLocal(c, d, k, CommandStage);
    var name := ReadVariable(c, CommandStage);
    if name.step.Next? {
      ReadU16Local(name.ch, ReadVariable(d, CommandStage).ch, k);
    }
  }

  lemma ReadAddrLocal(c: Channel, d: Channel, k: nat, resolve: Resolver)
    requires Agree(c, d, k)
    requires ReadAddr(c, resolve).step != Stop(Truncated) && ReadAddr(c, resolve).ch.pos <= k
    ensures ReadAddr(d, resolve).step == ReadAddr(c, resolve).step
    ensures Agree(ReadAddr(c, resolve).ch, ReadAddr(d, resolve).ch, k)
  {
    ReadU8Local(c, d, k);
    var t, u := ReadU8(c), ReadU8(d);
    match AddrTypeFrom(t.step.value)
    case V4 => ReadLiteralAddrLocal(t.ch, u.ch, k, 4);
    case V6 => ReadLiteralAddrLocal(t.ch, u.ch, k, 16);
    case Domain => ReadDomainAddrLocal(t.ch, u.ch, k, resolve);
    case Unsupported() =>
  }

  lemma NegotiateMethodLocal(c: Channel, d: Channel, k: nat)
    requires Agree(c, d, k)
    requires NegotiateMethod(c).step != Stop(Truncated) && NegotiateMethod(c).ch.pos <= k
    ensures NegotiateMethod(d).step == NegotiateMethod(c).step
    ensures Agree(NegotiateMethod(c).ch, NegotiateMethod(d).ch, k)
  {
    ReadU8Local(c, d, k);
    var ver := ReadU8(c);
    if ver.step.value == VERSION {
      ReadVariableLocal(ver.ch, ReadU8(d).ch, k, MethodStage);
    }
  }

  lemma AuthPasswdLocal(c: Channel, d: Channel, k: nat)
    requires Agree(c, d, k)
    requires AuthPasswd(c).step != Stop(Truncated) && AuthPasswd(c).ch.pos <= k
    ensures AuthPasswd(d).step == AuthPasswd(c).step && Agree(AuthPasswd(c).ch, AuthPasswd(d).ch, k)
  {
    ReadU8Local(c, d, k);
    var ver, ver' := ReadU8(c), ReadU8(d);
    ReadVariableLocal(ver.ch, ver'.ch, k, AuthStage);
    var user, user' := ReadVariable(ver.ch, AuthStage), ReadVariable(ver'.ch, AuthStage);
    if user.step.Next? {
      ReadVariableLocal(user.ch, user'.ch, k, AuthStage);
    }
  }

  lemma HandleConnectCommandLocal(c: Channel, d: Channel, k: nat, net: Network)
    requires Agree(c, d, k)
    requires HandleConnectCommand(c, net).outcome != Truncated && HandleConnectCommand(c, net).ch.pos <= k
    ensures HandleConnectCommand(d, net).outcome == HandleConnectCommand(c, net).outcome
    ensures Agree(HandleConnectCommand(c, net).ch, HandleConnectCommand(d, net).ch, k)
  {
    ReadAddrLocal(c, d, k, net.resolve);
  }

  lemma HandleCommandLocal(c: Channel, d: Channel, k: nat, net: Network)
    requires Agree(c, d, k)
    requires HandleCommand(c, net).outcome != Truncated && HandleCommand(c, net).ch.pos <= k
    ensures HandleCommand(d, net).outcome == HandleCommand(c, net).outcome
    ensures Agree(HandleCommand(c, net).ch, HandleCommand(d, net).ch, k)
  {
    ReadExactLocal(c, d, k, 3);
    var header, header' := ReadExact(c, 3), ReadExact(d, 3);
    if header.step.value[0] == VERSION && CommandFrom(header.step.value[1]) == Connect {
      HandleConnectCommandLocal(header.ch, header'.ch, k, net);
    }
  }

  lemma HandleLocal(c: Channel, d: Channel, k: nat, net: Network)
    requires Agree(c, d, k)
    requires Handle(c, net).outcome != Truncated && Handle(c, net).ch.pos <= k
    ensures Handle(d, net).outcome == Handle(c, net).outcome
    ensures Agree(Handle(c, net).ch, Handle(d, net).ch, k)
  {
    NegotiateMethodLocal(c, d, k);
    var m, m' := NegotiateMethod(c), NegotiateMethod(d);
    if m.step.Next? && m.step.value != Method.Error {
      var replied, replied' := ReplyMethod(m.ch, m.step.value), ReplyMethod(m'.ch, m.step.value);
      assert Agree(replied.ch, replied'.ch, k);
      if m.step.value == Passwd {
        AuthPasswdLocal(replied.ch, replied'.ch, k);
      }
      var auth, auth' := Auth(replied.ch, m.step.value), Auth(replied'.ch, m.step.value);
      if auth.step.Next? {
        HandleCommandLocal(auth.ch, auth'.ch, k, net);
      }
    }
  }

  /** A session that did not run out of input is fixed by the bytes it read:
      any input with the same first `consumed` bytes, whatever follows them,
      gets the same outcome, the same replies, and leaves the same bytes
      unread. In particular, bytes the client sends after a CONNECT request
      all reach the relay. */
  lemma SessionReadsOnlyHandshake(input: seq<u8>, other: seq<u8>, net: Network)
    requires Session(input, net).outcome != Truncated
    requires var k := Session(input, net).ch.pos; k <= |other| && other[..k] == input[..k]
    ensures Session(other, net).outcome == Session(input, net).outcome
    ensures Session(other, net).ch.pos == Session(input, net).ch.pos
    ensures Session(other, net).ch.output == Session(input, net).ch.output
  {
    var k := Session(input, net).ch.pos;
    HandleLocal(Channel(input, 0, []), Channel(other, 0, []), k, net);
  }

  /** Appending data after a complete handshake changes nothing in it. */
  lemma TrailingDataIgnored(input: seq<u8>, extra: seq<u8>, net: Network)
    requires Session(input, net).outcome != Truncated
    ensures Session(input + extra, net).outcome == Session(input, net).outcome
    ensures Session(input + extra, net).ch.pos == Session(input, net).ch.pos
    ensures Session(input + extra, net).ch.output == Session(input, net).ch.output
  {
    var k := Session(input, net).ch.pos;
    assert (input + extra)[..k] == input[..k];
    SessionReadsOnlyHandshake(input, input + extra, net);
  }

  /** A session that ran out of input has read all of it, and what it wrote
      is a prefix of what it writes once the client sends more: the server
      writes nothing after a short read that a longer input would not also
      have produced. */
  lemma TruncatedIsPrefix(input: seq<u8>, extra: seq<u8>, net: Network)
    requires Session(input, net).outcome == Truncated
    ensures Session(input, net).ch.pos == |input|
    ensures Session(input, net).ch.output <= Session(input + extra, net).ch.output
  {
    var c, d := Channel(input, 0, []), Channel(input + extra, 0, []);
    var k := |input|;
    assert Agree(c, d, k) by {
      assert (input + extra)[..k] == input[..k];
    }
    var m := NegotiateMethod(c);
    if m.step.Stop? {
      return;
    }
    NegotiateMethodLocal(c, d, k);
    var m' := NegotiateMethod(d);
    var replied, replied' := ReplyMethod(m.ch, m.step.value), ReplyMethod(m'.ch, m.step.value);
    assert replied.step.Next?;
    var auth, auth' := Auth(replied.ch, m.step.value), Auth(replied'.ch, m.step.value);
    if auth.step.Stop? {
      assert auth.ch.output == replied.ch.output == replied'.ch.output;
      return;
    }
    if m.step.value == Passwd {
      AuthPasswdLocal(replied.ch, replied'.ch, k);
    }
    assert auth.ch.output == HandleCommand(auth.ch, net).ch.output;
    assert auth'.ch.output <= HandleCommand(auth'.ch, net).ch.output;
  }
}
