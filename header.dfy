/** The VMess AEAD request header (`VmessStream::aead_decrypt`), the command
    it carries (first half of `VmessStream::process`) and the response header
    the server sends back. Everything here is a function of the bytes the
    client has sent; `Vmess.VmessStream` reads those bytes off the transport. */
module VmessHeader {
  import opened Common
  import opened Crypto
  import opened Configuration

  /** The fixed string mixed with the user id to give the header key. */
  const AuthKeyConstant: string := "c48619fe-8f02-49e0-b9e9-edf763e17e21"

  /** Auth ID (16) + sealed length (18) + nonce (8). */
  const PreambleLength: nat := 42

  /** An AES-GCM tag. */
  const TagLength: nat := 16

  /** The bytes of an ASCII string (`b"..."`). */
  function Ascii(s: string): (bs: seq<byte>)
    ensures |bs| == |s|
  {
    seq(|s|, i requires 0 <= i < |s| => (s[i] as int) % 256)
  }

  /** `md5!(uuid.as_bytes(), b"c48619fe-...")`: the key every request header
      key is derived from. */
  function AuthKey(c: Crypto, uuid: Uuid): seq<byte> {
    c.md5(uuid + Ascii(AuthKeyConstant))
  }

  /** The key and nonce of the sealed length field, derived from the Auth ID
      and the nonce. */
  function LengthKey(c: Crypto, uuid: Uuid, authId: seq<byte>, nonce: seq<byte>): (k: seq<byte>)
    ensures |k| == 16
  {
    Kdf16(c, AuthKey(c, uuid), [c.salt(HeaderLengthKey), authId, nonce])
  }

  function LengthNonce(c: Crypto, uuid: Uuid, authId: seq<byte>, nonce: seq<byte>): (n: seq<byte>)
    ensures |n| == 12
  {
    Kdf12(c, AuthKey(c, uuid), [c.salt(HeaderLengthIv), authId, nonce])
  }

  /** The key and nonce of the sealed command payload. */
  function PayloadKey(c: Crypto, uuid: Uuid, authId: seq<byte>, nonce: seq<byte>): (k: seq<byte>)
    ensures |k| == 16
  {
    Kdf16(c, AuthKey(c, uuid), [c.salt(HeaderPayloadKey), authId, nonce])
  }

  function PayloadNonce(c: Crypto, uuid: Uuid, authId: seq<byte>, nonce: seq<byte>): (n: seq<byte>)
    ensures |n| == 12
  {
    Kdf12(c, AuthKey(c, uuid), [c.salt(HeaderPayloadIv), authId, nonce])
  }

  /** `(header_length + 16) as _`: the number of command bytes read after
      the preamble. The sum is taken in `u16`, so an opened length of 65520
      or more wraps around to fewer bytes than a tag. */
  function CommandReadLength(len: U16): (n: nat)
    ensures n < 0x1_0000
    ensures len + TagLength < 0x1_0000 ==> n == len + TagLength
    ensures len + TagLength >= 0x1_0000 ==> n < TagLength && n == len + TagLength - 0x1_0000
  {
    (len + TagLength) % 0x1_0000
  }

  /** What reading the request header off a stream whose readable bytes are
      `s` gives: the decrypted command bytes or the error, and how many bytes
      of `s` were consumed. A short read consumes everything there was. */
  datatype HeaderRead = HeaderRead(result: Result<seq<byte>, Error>, consumed: nat)

  /** `aead_decrypt` over the bytes `s` the client stream will deliver.
      The preamble is split 16/18/8; the opened length field is a
      big-endian `L`; then `L + 16` bytes (wrapped to 16 bits) are opened as
      the command. */
  function DecodeHeader(c: Crypto, uuid: Uuid, s: seq<byte>): (h: HeaderRead)
    requires OpenLength(c)
    ensures h.consumed <= |s|
    ensures h.result.Ok? || h.result == Err(UnexpectedEof) || h.result == Err(Aead)
    ensures h.result == Err(UnexpectedEof) ==> h.consumed == |s|
    ensures |s| < PreambleLength ==> h.result == Err(UnexpectedEof)
    ensures h.result.Ok? ==> h.consumed == PreambleLength + |h.result.value| + TagLength
    ensures h.result == Err(Aead) ==> PreambleLength <= h.consumed
  {
    if |s| < PreambleLength then HeaderRead(Err(UnexpectedEof), |s|)
    else
      var authId, sealedLength, nonce := s[..16], s[16..34], s[34..42];
      match c.open(LengthKey(c, uuid, authId, nonce), LengthNonce(c, uuid, authId, nonce), authId, sealedLength)
      case None => HeaderRead(Err(Aead), PreambleLength)
      case Some(lengthBytes) =>
        var len := BigEndian16(lengthBytes[0], lengthBytes[1]);
        var end := PreambleLength + CommandReadLength(len);
        if |s| < end then HeaderRead(Err(UnexpectedEof), |s|)
        else
          match c.open(PayloadKey(c, uuid, authId, nonce), PayloadNonce(c, uuid, authId, nonce), authId, s[PreambleLength..end])
          case None => HeaderRead(Err(Aead), end)
          case Some(payload) => HeaderRead(Ok(payload), end)
  }

  /** A length field that fails its tag check stops the read right after the
      42-byte preamble: none of the command bytes are consumed. */
  lemma LengthFailureReadsOnlyPreamble(c: Crypto, uuid: Uuid, s: seq<byte>)
    requires OpenLength(c)
    requires |s| >= PreambleLength
    requires c.open(LengthKey(c, uuid, s[..16], s[34..42]), LengthNonce(c, uuid, s[..16], s[34..42]), s[..16], s[16..34]).None?
    ensures DecodeHeader(c, uuid, s) == HeaderRead(Err(Aead), PreambleLength)
  {
  }

  /** An opened length of 65520 or more wraps the 16-bit read length below a
      tag, so the command cannot open: the request fails with a tag error
      (or a short read) after at most 15 command bytes. */
  lemma {:induction false} OversizedLengthFails(c: Crypto, uuid: Uuid, s: seq<byte>)
    requires OpenLength(c)
    requires |s| >= PreambleLength
    requires var lengthPlain := c.open(LengthKey(c, uuid, s[..16], s[34..42]), LengthNonce(c, uuid, s[..16], s[34..42]), s[..16], s[16..34]);
             lengthPlain.Some? && BigEndian16(lengthPlain.value[0], lengthPlain.value[1]) + TagLength >= 0x1_0000
    ensures DecodeHeader(c, uuid, s).result != Err(UnexpectedEof) ==> DecodeHeader(c, uuid, s).result == Err(Aead)
    ensures DecodeHeader(c, uuid, s).consumed < PreambleLength + TagLength
  {
    var authId, nonce := s[..16], s[34..42];
    var lengthPlain := c.open(LengthKey(c, uuid, authId, nonce), LengthNonce(c, uuid, authId, nonce), authId, s[16..34]);
    var n := CommandReadLength(BigEndian16(lengthPlain.value[0], lengthPlain.value[1]));
    if PreambleLength + n <= |s| {
      var t := s[PreambleLength..PreambleLength + n];
      var payload := c.open(PayloadKey(c, uuid, authId, nonce), PayloadNonce(c, uuid, authId, nonce), authId, t);
      assert payload.None?;
    }
  }

  /** Only the consumed bytes matter: whatever follows a header that was read
      completely (successfully or not) does not change the outcome. */
  lemma DecodeHeaderIgnoresTail(c: Crypto, uuid: Uuid, s: seq<byte>, tail: seq<byte>)
    requires OpenLength(c)
    requires DecodeHeader(c, uuid, s).result != Err(UnexpectedEof)
    ensures DecodeHeader(c, uuid, s + tail) == DecodeHeader(c, uuid, s)
  {
    var t := s + tail;
    assert t[..16] == s[..16] && t[16..34] == s[16..34] && t[34..42] == s[34..42];
    var h := DecodeHeader(c, uuid, s);
    if h.consumed > PreambleLength {
      assert t[PreambleLength..h.consumed] == s[PreambleLength..h.consumed];
    }
  }

  /** The client side of the header (what a VMess client sends), used to
      state the round trip: Auth ID, the sealed big-endian length of the
      command, the nonce, then the sealed command. */
  function EncodeHeader(c: Crypto, uuid: Uuid, authId: seq<byte>, nonce: seq<byte>, command: seq<byte>): seq<byte>
    requires |authId| == 16 && |nonce| == 8 && |command| < 0x1_0000
  {
    authId
    + c.seal(LengthKey(c, uuid, authId, nonce), LengthNonce(c, uuid, authId, nonce), authId, ToBigEndian16(|command|))
    + nonce
    + c.seal(PayloadKey(c, uuid, authId, nonce), PayloadNonce(c, uuid, authId, nonce), authId, command)
  }

  /** Round trip: the server recovers exactly the command a client sealed,
      consuming exactly the header and nothing of what follows it. */
  lemma HeaderRoundTrip(c: Crypto, uuid: Uuid, authId: seq<byte>, nonce: seq<byte>, command: seq<byte>, rest: seq<byte>)
    requires IsAead(c)
    requires |authId| == 16 && |nonce| == 8 && |command| + TagLength < 0x1_0000
    ensures var e := EncodeHeader(c, uuid, authId, nonce, command);
            |e| == PreambleLength + |command| + TagLength &&
            DecodeHeader(c, uuid, e + rest) == HeaderRead(Ok(command), |e|)
  {
    var lk, ln := LengthKey(c, uuid, authId, nonce), LengthNonce(c, uuid, authId, nonce);
    var pk, pn := PayloadKey(c, uuid, authId, nonce), PayloadNonce(c, uuid, authId, nonce);
    var sealedLength := c.seal(lk, ln, authId, ToBigEndian16(|command|));
    var sealedCommand := c.seal(pk, pn, authId, command);
    var e := EncodeHeader(c, uuid, authId, nonce, command);
    assert e == authId + sealedLength + nonce + sealedCommand;
    assert |sealedLength| == 18 && |sealedCommand| == |command| + 16;
    var s := e + rest;
    assert s[..16] == authId;
    assert s[16..34] == sealedLength;
    assert s[34..42] == nonce;
    assert c.open(lk, ln, authId, sealedLength) == Some(ToBigEndian16(|command|));
    assert s[PreambleLength..|e|] == sealedCommand;
    assert c.open(pk, pn, authId, sealedCommand) == Some(command);
  }

  // ---------------------------------------------------------------------
  // The command section

  type Block16 = s: seq<byte> | |s| == 16 witness seq(16, _ => 0)
  type Options = s: seq<byte> | |s| == 4 witness seq(4, _ => 0)

  /** `crate::common::parse_addr` on the bytes after the port (address type,
      address, then padding and checksum it may ignore). */
  type AddrParser = seq<byte> -> Option<string>

  /** The decoded command: data IV, data key, options, command byte, port and
      target address. */
  datatype Command = Command(iv: Block16, key: Block16, options: Options, command: byte, port: U16, addr: string) {
    /** `cmd == 0x01`. */
    predicate IsTcp() {
      command == 0x01
    }
  }

  /** The command layout read through a cursor: version at 0 (must be 1),
      IV at 1..17, key at 17..33, options at 33..37, command at 37, big-endian
      port at 38..40, address from 40 on. A read past the end is a short read. */
  function ParseCommand(p: seq<byte>, parseAddr: AddrParser): (r: Result<Command, Error>)
    ensures |p| == 0 ==> r == Err(UnexpectedEof)
    ensures |p| > 0 && p[0] != 1 ==> r == Err(InvalidVersion)
    ensures |p| > 0 && p[0] == 1 && |p| < 40 ==> r == Err(UnexpectedEof)
    ensures r.Ok? ==> |p| >= 40 && p[0] == 1 && parseAddr(p[40..]) == Some(r.value.addr)
    ensures r.Ok? ==> (r.value.IsTcp() <==> p[37] == 0x01)
  {
    if |p| < 1 then Err(UnexpectedEof)
    else if p[0] != 1 then Err(InvalidVersion)
    else if |p| < 40 then Err(UnexpectedEof)
    else match parseAddr(p[40..])
      case None => Err(Address)
      case Some(addr) => Ok(Command(p[1..17], p[17..33], p[33..37], p[37], BigEndian16(p[38], p[39]), addr))
  }

  /** The client's command section: version 1, the fields in order, then the
      address field as the address parser reads it. */
  function EncodeCommand(cmd: Command, addrField: seq<byte>): (p: seq<byte>)
    ensures |p| == 40 + |addrField|
  {
    [1] + cmd.iv + cmd.key + cmd.options + [cmd.command] + ToBigEndian16(cmd.port) + addrField
  }

  /** Round trip of the command layout: every field comes back from the
      offset the client put it at. */
  lemma CommandRoundTrip(cmd: Command, addrField: seq<byte>, parseAddr: AddrParser)
    requires parseAddr(addrField) == Some(cmd.addr)
    ensures ParseCommand(EncodeCommand(cmd, addrField), parseAddr) == Ok(cmd)
  {
    var p := EncodeCommand(cmd, addrField);
    var be := ToBigEndian16(cmd.port);
    assert p == [1] + cmd.iv + cmd.key + cmd.options + [cmd.command] + be + addrField;
    assert p[1..17] == cmd.iv;
    assert p[17..33] == cmd.key;
    assert p[33..37] == cmd.options;
    assert p[38] == be[0] && p[39] == be[1];
    assert p[40..] == addrField;
  }

  /** The whole request decode: header, then command. */
  function DecodeRequest(c: Crypto, uuid: Uuid, parseAddr: AddrParser, s: seq<byte>): (r: Result<Command, Error>)
    requires OpenLength(c)
    ensures DecodeHeader(c, uuid, s).result.Err? ==> r == Err(DecodeHeader(c, uuid, s).result.error)
  {
    match DecodeHeader(c, uuid, s).result
    case Err(e) => Err(e)
    case Ok(p) => ParseCommand(p, parseAddr)
  }

  /** End to end: a request a client builds from a command is decoded by the
      server into that same command, whatever bytes follow it. */
  lemma RequestRoundTrip(c: Crypto, uuid: Uuid, authId: seq<byte>, nonce: seq<byte>,
                         cmd: Command, addrField: seq<byte>, parseAddr: AddrParser, rest: seq<byte>)
    requires IsAead(c)
    requires |authId| == 16 && |nonce| == 8 && 40 + |addrField| + TagLength < 0x1_0000
    requires parseAddr(addrField) == Some(cmd.addr)
    ensures DecodeRequest(c, uuid, parseAddr, EncodeHeader(c, uuid, authId, nonce, EncodeCommand(cmd, addrField)) + rest) == Ok(cmd)
  {
    HeaderRoundTrip(c, uuid, authId, nonce, EncodeCommand(cmd, addrField), rest);
    CommandRoundTrip(cmd, addrField, parseAddr);
  }

  // ---------------------------------------------------------------------
  // The response header

  /** The data key and IV re-keyed with SHA-256 (first 16 bytes each). */
  function ResponseKey(c: Crypto, cmd: Command): (k: seq<byte>)
    ensures |k| == 16
  {
    c.sha256(cmd.key)[..16]
  }

  function ResponseIv(c: Crypto, cmd: Command): (iv: seq<byte>)
    ensures |iv| == 16
  {
    c.sha256(cmd.iv)[..16]
  }

  /** The two plaintexts of the response: the big-endian length 4, then
      the first options byte followed by three zero bytes. */
  function ResponseLengthPlain(): seq<byte> {
    ToBigEndian16(4)
  }

  function ResponseHeaderPlain(cmd: Command): seq<byte> {
    [cmd.options[0], 0, 0, 0]
  }

  /** The two messages the server writes before relaying, in order. */
  function ResponseHeader(c: Crypto, cmd: Command): (m: (seq<byte>, seq<byte>))
  {
    var key, iv := ResponseKey(c, cmd), ResponseIv(c, cmd);
    (c.seal(Kdf16(c, key, [c.salt(RespLengthKey)]), Kdf12(c, iv, [c.salt(RespLengthIv)]), [], ResponseLengthPlain()),
     c.seal(Kdf16(c, key, [c.salt(RespHeaderKey)]), Kdf12(c, iv, [c.salt(RespHeaderIv)]), [], ResponseHeaderPlain(cmd)))
  }

  /** A client holding the command's key and IV opens the two response
      messages to `[0x00, 0x04]` and `[options[0], 0, 0, 0]`; they are 18 and
      20 bytes long. */
  lemma ResponseHeaderOpens(c: Crypto, cmd: Command)
    requires IsAead(c)
    ensures var (m1, m2) := ResponseHeader(c, cmd);
            var key, iv := c.sha256(cmd.key)[..16], c.sha256(cmd.iv)[..16];
            && |m1| == 18 && |m2| == 20
            && c.open(c.kdf(key, [c.salt(RespLengthKey)])[..16], c.kdf(iv, [c.salt(RespLengthIv)])[..12], [], m1) == Some([0x00, 0x04])
            && c.open(c.kdf(key, [c.salt(RespHeaderKey)])[..16], c.kdf(iv, [c.salt(RespHeaderIv)])[..12], [], m2) == Some([cmd.options[0], 0x00, 0x00, 0x00])
  {
  }
}
