# SOCKS5 connection handshake, modelled in Dafny

This project models the per-connection handler of a small SOCKS5 proxy server
(`src/lib.rs`). It covers the server side of RFC 1928: method negotiation
(section 3), the CONNECT request (section 4), address types (section 5) and
replies (section 6). It also covers the username/password subnegotiation of
RFC 1929 (section 2).

- `Wire.dfy`, module `Wire`: the codec. It holds the byte tags (`Command::from`,
  `AddrType::from` and the enums' discriminants) and `to_u16` with big-endian
  16-bit writes and reads. It also holds the three fixed reply frames
  (`reply_method`, `reply_auth`, `reply_command`). A client-side address
  encoder serves as the reference the address decoder is proved against.
- `Handshake.dfy`, module `Handshake`: the session as pure functions that
  thread a `Channel`. A `Channel` has the client's bytes, the read cursor and
  the bytes written so far. Each step returns either a value to continue with
  or how the session ended: `Relay`, `EndedOk`, `Failed(kind)` or `Truncated`.
  `Session(input, net)` is a whole connection.
- `Connection.dfy`, module `Server`: the handler as the source has it. It is a
  class `Connection` whose methods move the read cursor and append to the
  output in place. Each method is proved to produce exactly the channel and
  result of the matching function in `Handshake` (for `WriteAll`, `Handshake.Write`).
- `Properties.dfy`, module `HandshakeFacts`: what the handshake promises, per
  stage and for whole sessions.
- `Lookahead.dfy`, module `Lookahead`: the server never reads ahead. A
  completed handshake is fixed by the bytes it consumed, and the rest goes to
  the relay untouched.

The outside world is a parameter, `Network`:
- `resolve` stands for turning a domain name and port into a socket address
  (`SocketAddr::from_str`). It may fail. What it returns is an `Address`: a
  socket address with 4 or 16 octets, as the standard library's `SocketAddr`
  always has.
- `connect` stands for `TcpStream::connect`. It succeeds or fails.

The model follows what the code does. These points are worth knowing, since
RFC 1928 and RFC 1929 leave them open or say otherwise:
- A failed username/password check is answered `01 01`. The status is
  `!success as u8`, and the first byte is always 1, whatever AVER the client
  sent.
- In the command stage these three cases send their reply and then return
  normally (`EndedOk`), not as an error:
  - a wrong version (status 02);
  - an unsupported command (status 07);
  - a refused connection (status 05).
- A domain name that does not convert to a socket address ends the session
  with an error and no reply. It does not get status 05.
- An empty method list is answered `05 FF`, and the session ends through the
  method reply's own rejection, so its failure kind is `NoAcceptableMethod`.
- A greeting with a wrong version is answered with the server's version,
  `05 FF`, after reading only that one byte.

## Model

| member | source | states |
|---|---|---|
| Wire.MethodByte | src/lib.rs:6-11 | the tags of no authentication, username/password and the rejection are 00, 02 and FF, each an iff, so distinct methods have distinct tags |
| Wire.CommandFrom | src/lib.rs:258-265 | only byte 1 decodes to CONNECT; every other CMD byte is unsupported |
| Wire.CommandByte | src/lib.rs:22-27 | each command's tag decodes back to that command |
| Wire.AddrTypeFrom | src/lib.rs:267-276 | bytes 1, 3, 4 decode to IPv4, domain, IPv6 respectively (each an iff); all others are unsupported |
| Wire.AddrTypeByte | src/lib.rs:41-46 | each address type's tag decodes back to that type |
| Wire.RepByte | src/lib.rs:29-39 | the status bytes of success, rule-set refusal, connection refused, unsupported command and unsupported address type are 00, 02, 05, 07 and 08, each an iff |
| Wire.RepByteInjective | src/lib.rs:29-39 | distinct reply statuses have distinct status bytes |
| Wire.ToU16 | src/lib.rs:278-280 | writing to_u16(a, b) big-endian puts exactly a and then b on the wire: the shift loses no bit of a and the addition cannot wrap |
| Wire.U16Bytes | src/lib.rs:216-218 | a word written big-endian is two bytes hi·256 + lo equal to the word |
| Wire.ToU16OfU16Bytes | src/lib.rs:127 | a big-endian read of a written word gives the word back |
| Wire.EncodeAddr | src/lib.rs:118-137 | reference encoding of a literal address: its ATYP, the octets, the port big-endian |
| Wire.UnspecifiedEncoding | src/lib.rs:176-187 | the bound address of a reply is the seven bytes 01 00 00 00 00 00 00 |
| Wire.MethodReply | src/lib.rs:215-219 | the method reply is exactly the two bytes [version, method] |
| Wire.AuthReply | src/lib.rs:235-241 | the auth reply is [01, status] with status 00 iff success and 01 iff failure |
| Wire.CommandReply | src/lib.rs:175-197 | every command reply is 10 bytes: version, status, 00, then the IPv4 address 0.0.0.0 port 0 in client encoding |
| Wire.CommandReplyOnlyStatusDiffers | src/lib.rs:175-188 | command replies differ only in byte 1, and equal replies carry equal statuses |
| Handshake.ReadU8 | src/lib.rs:121 | one byte is returned and consumed exactly when one is left; otherwise the session is truncated, the rest of the input consumed, nothing written |
| Handshake.ReadExact | src/lib.rs:94 | exactly n bytes are returned and consumed when n are left; otherwise the session is truncated, the rest of the input consumed, nothing written |
| Handshake.ReadU16 | src/lib.rs:127 | the two bytes consumed are the big-endian encoding of the returned word; a short read truncates the session with nothing written |
| Handshake.ReplyCommand | src/lib.rs:175-197 | nothing is read, and the output gains one frame: version, status, 00, then the bound address 0.0.0.0:0 |
| Handshake.ReplyAuth | src/lib.rs:235-241 | nothing is read, and the output gains 01 and then 00 on success or 01 on failure |
| Handshake.ReadVariable | src/lib.rs:156-173 | a nonempty field consumes exactly 1+n bytes and returns them; length 0 consumes one byte, writes the stage's rejection (05 FF, 01 01, or the status-02 reply) and fails; running out of input writes nothing |
| Handshake.ReadLiteralAddr | src/lib.rs:124-137 | IPv4/IPv6 arms: consumes n+2 bytes, returns a well-formed address whose octets and big-endian port are exactly those bytes |
| Handshake.ReadDomainAddr | src/lib.rs:138-148 | domain arm: a converted address is well-formed; a failed conversion ends the session without writing anything; a short read (Truncated) consumes the rest of the input and writes nothing |
| Handshake.ReadAddr | src/lib.rs:118-154 | a decoded address is well-formed (4 or 16 octets) and returned with nothing written; an ATYP outside {1, 3, 4} consumes one byte, writes the status-08 reply and fails, and the status-08 failure happens only that way; a short read (Truncated) consumes the rest of the input and writes nothing |
| Handshake.SelectMethod | src/lib.rs:205-212 | username/password iff 02 is offered; no-auth iff 00 is offered and 02 is not; rejection iff neither |
| Handshake.NegotiateMethod | src/lib.rs:199-213 | a wrong version selects the rejection after reading one byte; otherwise the method is SelectMethod of exactly the count-prefixed list, consumed whole; a short read (Truncated) consumes the rest of the input and writes nothing |
| Handshake.ReplyMethod | src/lib.rs:215-225 | writes [05, method]; continues iff the method is not the rejection |
| Handshake.AuthPasswd | src/lib.rs:243-255 | continuing implies 9 bytes were consumed: AVER, then 03 "123" 03 "123", and 01 00 was written; failure after a full frame writes 01 01; a short read (Truncated) consumes the rest of the input and writes nothing |
| Handshake.AuthFields | src/lib.rs:245-254 | continuing implies the 8 bytes read were 03 "123" 03 "123" and 01 00 was written; failure after both fields writes 01 01; a short read consumes the rest of the input and writes nothing |
| Handshake.CheckCredentials | src/lib.rs:248-254 | nothing is read; the session continues iff username and password are both "123"; 01 00 is written on acceptance and 01 01 on rejection, which ends the session as an authentication failure |
| Handshake.Auth | src/lib.rs:227-233 | no-auth passes through without touching the stream; a short read (Truncated) consumes the rest of the input and writes nothing |
| Handshake.HandleConnectCommand | src/lib.rs:105-116 | relaying implies a well-formed target whose connect succeeded and the success reply was the last thing written; a short read (Truncated) consumes the rest of the input and writes nothing |
| Handshake.HandleCommand | src/lib.rs:90-103 | relaying implies a well-formed target whose connect succeeded and the success reply was written; a short read (Truncated) consumes the rest of the input and writes nothing |
| Handshake.Handle | src/lib.rs:81-88 | the stream only advances: cursor forward, output append-only; a short read consumes the whole input |
| Handshake.Session | src/lib.rs:60-62 | a session on a fresh connection never reads past the client's data |
| Server.Connection.constructor | src/lib.rs:74-79 | a new connection has version 5, nothing read, nothing written |
| Server.Connection.ReadU8 | src/lib.rs:121 | reading one byte advances the cursor as ReadU8 says; at end of data the session is truncated |
| Server.Connection.ReadExact | src/lib.rs:94 | reads exactly n bytes or reports truncation, as ReadExact says |
| Server.Connection.ReadU16 | src/lib.rs:127 | reads a big-endian port, as ReadU16 says |
| Server.Connection.WriteAll | src/lib.rs:188 | appends the bytes to the output, nothing else |
| Server.Connection.ReplyCommand | src/lib.rs:175-197 | appends the 10-byte command reply |
| Server.Connection.ReplyMethod | src/lib.rs:215-225 | appends [05, method] and stops on the rejection |
| Server.Connection.ReplyAuth | src/lib.rs:235-241 | appends [01, !success] |
| Server.Connection.ReadVariable | src/lib.rs:156-173 | same stream change and result as Handshake.ReadVariable |
| Server.Connection.NegotiateMethod | src/lib.rs:199-213 | same stream change and result as Handshake.NegotiateMethod |
| Server.Connection.AuthPasswd | src/lib.rs:243-255 | same stream change and result as Handshake.AuthPasswd |
| Server.Connection.Auth | src/lib.rs:227-233 | same as Handshake.Auth; never called with the rejection |
| Server.Connection.ReadAddr | src/lib.rs:118-154 | same stream change and result as Handshake.ReadAddr |
| Server.Connection.ReadLiteralAddr | src/lib.rs:124-137 | same stream change and result as Handshake.ReadLiteralAddr |
| Server.Connection.HandleConnectCommand | src/lib.rs:105-116 | same stream change and outcome as Handshake.HandleConnectCommand |
| Server.Connection.HandleCommand | src/lib.rs:90-103 | same stream change and outcome as Handshake.HandleCommand |
| Server.Connection.Handle | src/lib.rs:81-88 | same stream change and outcome as Handshake.Handle |
| Server.Serve | src/lib.rs:60-62 | running a new connection's handler on the client's bytes yields exactly Session's outcome, replies and consumed length |
| HandshakeFacts.ReadVariableAt | src/lib.rs:156-173 | a length byte n > 0 followed by n bytes decodes to those n bytes and consumes 1+n bytes |
| HandshakeFacts.GreetingWrongVersion | src/lib.rs:199-202 | first byte not 5: reply 05 FF, one byte read, session fails with no acceptable method |
| HandshakeFacts.GreetingEmptyMethodList | src/lib.rs:156-164 | greeting 05 00: reply 05 FF after two bytes and the session fails |
| HandshakeFacts.NegotiateAt | src/lib.rs:199-213 | a complete greeting is consumed whole and yields SelectMethod of its list |
| HandshakeFacts.GreetingReply | src/lib.rs:215-225 | the first two bytes written are [05, selected method]; after 05 FF the session has failed with nothing else written |
| HandshakeFacts.NoAuthThenCommand | src/lib.rs:81-88 | with no-auth selected, the session is the command stage after reply 05 00 |
| HandshakeFacts.AuthPasswdAt | src/lib.rs:243-255 | on a complete frame, success (reply 01 00) iff username and password are both "123", else reply 01 01 and failure; AVER is never checked |
| HandshakeFacts.AuthEmptyUsername | src/lib.rs:245 | a zero-length username is answered 01 01 and fails as a framing error |
| HandshakeFacts.AuthEmptyPassword | src/lib.rs:246 | a zero-length password is answered 01 01 and fails as a framing error |
| HandshakeFacts.PasswdSession | src/lib.rs:81-88 | whole session with 02 offered: 05 02, then 01 00 and the command stage for 123/123, otherwise 01 01 and failure |
| HandshakeFacts.ReadAddrRoundTrip | src/lib.rs:123-137 | decoding an encoded IPv4/IPv6 address returns it and consumes exactly its encoding |
| HandshakeFacts.ReadAddrExample | src/lib.rs:124-129 | 01 C0 00 02 01 1F 90 decodes to 192.0.2.1 port 8080 |
| HandshakeFacts.ReplyBoundAddress | src/lib.rs:175-187 | the tail of every command reply decodes as address 0.0.0.0 port 0 |
| HandshakeFacts.CommandWrongVersion | src/lib.rs:94-97 | header version not 5: status 02 after the 3-byte header, normal return, no address read |
| HandshakeFacts.CommandNotConnect | src/lib.rs:99-102 | CMD not 1: status 07 after the header, normal return |
| HandshakeFacts.ConnectBadAddrType | src/lib.rs:149-152 | ATYP not in {1,3,4}: status 08 after 4 bytes and the session fails |
| HandshakeFacts.ConnectLiteral | src/lib.rs:105-116 | CONNECT to an IPv4/IPv6 address: connect succeeds, then status 00 and relay; fails, then status 05 and normal return |
| HandshakeFacts.ReadDomainAddrAt | src/lib.rs:138-148 | a complete name and port are read exactly as sent (1 + n + 2 bytes); a failed conversion ends with nothing written, otherwise the converted address is returned |
| HandshakeFacts.ConnectDomain | src/lib.rs:138-148 | CONNECT to a domain: conversion failure ends the session with nothing written; otherwise as for a literal address |
| HandshakeFacts.ConnectEmptyDomain | src/lib.rs:139 | a zero-length domain name is answered with status 02 and the session fails |
| HandshakeFacts.NoAuthConnectExample | src/lib.rs:81-116 | 05 01 00 then CONNECT 127.0.0.1:80, reachable: output 05 00 then 05 00 00 01 00 00 00 00 00 00, relay after 13 bytes |
| HandshakeFacts.MethodReplyComesFirst | src/lib.rs:81-83 | any output starts with [05, M], M in {00, 02, FF}; no output only on truncation; after 05 FF the session has failed and wrote nothing more |
| HandshakeFacts.RelayOnlyAfterSuccess | src/lib.rs:108-113 | a relay is entered only to a well-formed address the connect accepted and right after the success reply |
| Lookahead.ReadVariableLocal | src/lib.rs:156-173 | a length-prefixed read is decided by the bytes it consumes |
| Lookahead.ReadAddrLocal | src/lib.rs:118-154 | address decoding is decided by the bytes it consumes |
| Lookahead.HandleLocal | src/lib.rs:81-88 | every handshake step is decided by the bytes it consumes |
| Lookahead.SessionReadsOnlyHandshake | src/lib.rs:81-116 | inputs that agree on the consumed bytes give the same outcome, replies and consumed length |
| Lookahead.TrailingDataIgnored | src/lib.rs:111-112 | data after a completed handshake changes nothing in it and is left for the relay |
| Lookahead.TruncatedIsPrefix | src/lib.rs:81-88 | a session cut short has read all the input, and what it wrote is a prefix of what the same session writes once more bytes arrive |

## Left out

- `run` (src/lib.rs:54-71): binding the listener, the accept loop, spawning a
  task per connection and discarding its error. This is socket I/O and
  concurrency. `Server.Serve` stands for one spawned task.
- `copy_bidirectional` (src/lib.rs:112): the concurrent full-duplex relay is
  the terminal outcome `Relay`. Its own I/O errors are not modelled.
- `TcpStream::connect` (src/lib.rs:108): a network call, modelled by the
  parameter `Network.connect`.
- The domain-to-address conversion (src/lib.rs:142-147): it formats the name
  bytes with `{:?}` and parses the result with `SocketAddr::from_str`. Both are
  library behaviour, modelled by the fallible parameter `Network.resolve`. The
  debug format renders the name bytes as a bracketed, comma-separated list of
  decimal numbers, such as `[104, 111]:80`. In the address grammar of
  `SocketAddr::from_str`, brackets enclose only an IPv6 address, which has no
  commas and contains at least one colon. So as written the conversion cannot
  succeed for any name. The model leaves `resolve` abstract, so it covers that
  case (always `None`) as well as a real resolver.
- Writes and `flush` are taken to succeed. A failing write or flush would end
  the session early with an I/O error. Only end of input on a read is
  modelled, as the outcome `Truncated`, after which nothing more is written.
- The contents of an error (`anyhow` messages and downcasting) are reduced to
  the `Failure` kinds.
- src/main.rs: command-line parsing, printing and the runtime entry point.
  These are not part of this model.
