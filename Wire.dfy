/** Wire codec of the SOCKS5 server: byte and word types, the tag bytes of
    RFC 1928 and RFC 1929, big-endian 16-bit packing, and the fixed reply
    frames the server writes. Everything here is a pure mapping. */
module Wire {

  newtype u8 = x: int | 0 <= x < 0x100
  newtype u16 = x: int | 0 <= x < 0x1_0000

  /** The protocol version the server speaks and echoes in every reply. */
  const VERSION: u8 := 5

  /** Version byte of the username/password subnegotiation (RFC 1929). */
  const AUTH_PASSWD: u8 := 0x01

  /** The one credential the server accepts, as username and as password: "123". */
  const CREDENTIAL: seq<u8> := [49, 50, 51]

  datatype Option<T> = None | Some(value: T)

  /** Authentication method selected during negotiation (section 3 of RFC 1928). */
  datatype Method = NoAuth | Passwd | Error

  /** The tag each method carries in the source's enum; distinct methods have distinct tags. */
  function MethodByte(m: Method): (b: u8)
    ensures b == 0x00 <==> m == NoAuth
    ensures b == 0x02 <==> m == Passwd
    ensures b == 0xFF <==> m == Error
  {
    match m
    case NoAuth => 0x00
    case Passwd => 0x02
    case Error => 0xFF
  }

  /** The CMD field of a request; only CONNECT is served. */
  datatype Command = Connect | Unsupported

  /** Tag each command carries in the source's enum. */
  function CommandByte(cmd: Command): (c: u8)
    ensures CommandFrom(c) == cmd
  {
    match cmd
    case Connect => 0x01
    case Unsupported => 0x04
  }

  /** Decoding of the CMD byte: only 1 means CONNECT, every other byte is unsupported. */
  function CommandFrom(c: u8): (cmd: Command)
    ensures cmd == Connect <==> c == 0x01
  {
    if c == 0x01 then Connect else Command.Unsupported
  }

  /** The ATYP field of a request (section 5 of RFC 1928). */
  datatype AddrType = V4 | Domain | V6 | Unsupported

  function AddrTypeByte(t: AddrType): (b: u8)
    ensures AddrTypeFrom(b) == t
  {
    match t
    case V4 => 0x01
    case Domain => 0x03
    case V6 => 0x04
    case Unsupported => 0x05
  }

  /** Decoding of the ATYP byte: 1, 3 and 4 are known, everything else is unsupported. */
  function AddrTypeFrom(t: u8): (r: AddrType)
    ensures r == V4 <==> t == 0x01
    ensures r == Domain <==> t == 0x03
    ensures r == V6 <==> t == 0x04
  {
    match t
    case 0x01 => V4
    case 0x03 => Domain
    case 0x04 => V6
    case _ => AddrType.Unsupported
  }

  /** The REP field of a command reply (section 6 of RFC 1928); the other codes are unused. */
  datatype CommandRep = Succeeded | RuleSetNotAllowed | ConnectionRefused | CommandUnsupported | AddrTypeUnsupported

  /** The status byte each reply carries (`rep as u8`). */
  function RepByte(rep: CommandRep): (b: u8)
    ensures b == 0x00 <==> rep == Succeeded
    ensures b == 0x02 <==> rep == RuleSetNotAllowed
    ensures b == 0x05 <==> rep == ConnectionRefused
    ensures b == 0x07 <==> rep == CommandUnsupported
    ensures b == 0x08 <==> rep == AddrTypeUnsupported
  {
    match rep
    case Succeeded => 0x00
    case RuleSetNotAllowed => 0x02
    case ConnectionRefused => 0x05
    case CommandUnsupported => 0x07
    case AddrTypeUnsupported => 0x08
  }

  /** Distinct statuses go out as distinct bytes, so a reply names its status unambiguously. */
  lemma RepByteInjective(a: CommandRep, b: CommandRep)
    ensures RepByte(a) == RepByte(b) ==> a == b
  {
  }

  /** Big-endian encoding of a word, as a stream's 16-bit write puts it on the wire. */
  function U16Bytes(w: u16): (r: seq<u8>)
    ensures |r| == 2 && r[0] as int * 0x100 + r[1] as int == w as int
  {
    [(w / 0x100) as u8, (w % 0x100) as u8]
  }

  /** `to_u16`: `a` shifted into the high byte (a shift by 8, that is a
      multiplication by 0x100) plus `b` as the low byte. Nothing overflows,
      so writing the word big-endian puts exactly `a` and then `b` on the wire. */
  function ToU16(a: u8, b: u8): (w: u16)
    ensures U16Bytes(w) == [a, b]
  {
    var w := a as u16 * 0x100 + b as u16;
    assert w as int / 0x100 == a as int && w as int % 0x100 == b as int;
    w
  }

  /** Reading back a word written big-endian gives the word. */
  lemma ToU16OfU16Bytes(w: u16)
    ensures ToU16(U16Bytes(w)[0], U16Bytes(w)[1]) == w
  {
    var r := U16Bytes(w);
    var v := ToU16(r[0], r[1]);
    assert U16Bytes(v) == r;
    assert v as int == r[0] as int * 0x100 + r[1] as int;
  }

  /** A destination the server can connect to. */
  datatype SocketAddr = V4Addr(ip: seq<u8>, port: u16) | V6Addr(ip: seq<u8>, port: u16) {
    predicate WellFormed() {
      if V4Addr? then |ip| == 4 else |ip| == 16
    }
  }

  /** A socket address as the standard library represents it: 4 octets for
      IPv4, 16 for IPv6. */
  type Address = a: SocketAddr | a.WellFormed() witness V4Addr([0, 0, 0, 0], 0)

  /** The bound address every command reply reports: 0.0.0.0, port 0. */
  const UNSPECIFIED: SocketAddr := V4Addr([0, 0, 0, 0], 0)

  /** Client-side encoding of a literal destination: ATYP, the address octets,
      the port big-endian. The server only decodes this; the encoder is the
      reference the decoder is proved against. */
  function EncodeAddr(a: SocketAddr): (r: seq<u8>)
    requires a.WellFormed()
    ensures |r| == 1 + |a.ip| + 2
    ensures AddrTypeFrom(r[0]) == (if a.V4Addr? then V4 else V6)
    ensures r[1..1 + |a.ip|] == a.ip
    ensures r[|r| - 2..] == U16Bytes(a.port)
  {
    [AddrTypeByte(if a.V4Addr? then V4 else V6)] + a.ip + U16Bytes(a.port)
  }

  /** The bound address of a reply is the seven bytes 01 00 00 00 00 00 00. */
  lemma UnspecifiedEncoding()
    ensures EncodeAddr(UNSPECIFIED) == [AddrTypeByte(V4), 0, 0, 0, 0, 0, 0]
  {
    assert U16Bytes(0) == [0, 0];
    var d: seq<u8> := [AddrTypeByte(V4)] + [0, 0, 0, 0] + [0, 0];
    assert d == [AddrTypeByte(V4), 0, 0, 0, 0, 0, 0];
    assert EncodeAddr(UNSPECIFIED) == d;
  }

  /** `reply_method`'s frame: the word to_u16(version, method) written big-endian. */
  function MethodReply(version: u8, m: Method): (r: seq<u8>)
    ensures r == [version, MethodByte(m)]
  {
    U16Bytes(ToU16(version, MethodByte(m)))
  }

  /** `reply_auth`'s frame: to_u16(1, !success) written big-endian, so the
      status byte is 0 on success and 1 on failure. */
  function AuthReply(success: bool): (r: seq<u8>)
    ensures r == [AUTH_PASSWD, if success then 0x00 else 0x01]
    ensures r[1] == 0x00 <==> success
    ensures r[1] == 0x01 <==> !success
  {
    var status: u8 := if !success then 1 else 0;
    U16Bytes(ToU16(AUTH_PASSWD, status))
  }

  /** `reply_command`'s 10-byte frame: version, status, a zero reserved byte, and
      the bound address 0.0.0.0:0 in the same encoding a client uses for an
      IPv4 destination. */
  function CommandReply(version: u8, rep: CommandRep): (r: seq<u8>)
    ensures |r| == 10
    ensures r == [version, RepByte(rep), 0x00] + EncodeAddr(UNSPECIFIED)
  {
    UnspecifiedEncoding();
    [version, RepByte(rep), 0x00, AddrTypeByte(V4), 0, 0, 0, 0, 0, 0]
  }

  /** Two command replies of one version differ only in their status byte,
      and equal replies carry the same status. */
  lemma CommandReplyOnlyStatusDiffers(version: u8, a: CommandRep, b: CommandRep)
    ensures forall i :: 0 <= i < 10 && i != 1 ==> CommandReply(version, a)[i] == CommandReply(version, b)[i]
    ensures CommandReply(version, a) == CommandReply(version, b) ==> a == b
  {
    var ra, rb := CommandReply(version, a), CommandReply(version, b);
    assert ra == [version, RepByte(a), 0x00, AddrTypeByte(V4), 0, 0, 0, 0, 0, 0];
    assert rb == [version, RepByte(b), 0x00, AddrTypeByte(V4), 0, 0, 0, 0, 0, 0];
    if ra == rb {
      assert CommandReply(version, a)[1] == CommandReply(version, b)[1];
      RepByteInjective(a, b);
    }
  }
}
