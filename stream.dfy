/** `VmessStream`: the byte-stream adapter over the WebSocket (`poll_read`,
    `poll_write`, `poll_flush`) and the connection handler built on it
    (`aead_decrypt`, `process`).

    The WebSocket's inbound side is the sequence of events it will still
    deliver; when the sequence is exhausted the event stream has ended. The
    outbound side is the list of messages sent so far, and whether the socket
    accepts sends. */
module Vmess {
  import opened Common
  import opened Crypto
  import opened Configuration
  import opened VmessHeader
  import opened Upstream

  /** An inbound WebSocket event: a binary message, a text message (whose
      `bytes()` is `None`, so it adds nothing), a close, or an error. */
  datatype Event = Binary(data: seq<byte>) | Text(text: string) | Close | Failure

  predicate IsEnd(e: Event) {
    e.Close? || e.Failure?
  }

  /** The bytes of the messages that arrive before the next close or error
      (or before the event stream ends). */
  function Deliverable(events: seq<Event>): seq<byte> {
    if events == [] then []
    else match events[0]
      case Binary(d) => d + Deliverable(events[1..])
      case Text(_) => Deliverable(events[1..])
      case _ => []
  }

  /** The events after the next close or error. */
  function AfterEnd(events: seq<Event>): (rest: seq<Event>)
    ensures |rest| <= |events|
  {
    if events == [] then []
    else if IsEnd(events[0]) then events[1..]
    else AfterEnd(events[1..])
  }

  /** When the first close or error is at `k`, what is left after the end is
      everything behind it. */
  lemma {:induction false} AfterEndFirstEnd(events: seq<Event>, k: nat)
    requires k < |events| && IsEnd(events[k])
    requires forall i :: 0 <= i < k ==> !IsEnd(events[i])
    ensures AfterEnd(events) == events[k + 1..]
  {
    if k > 0 {
      assert !IsEnd(events[0]);
      AfterEndFirstEnd(events[1..], k - 1);
      assert events[1..][k..] == events[k + 1..];
    }
  }

  /** Events without a close or error leave nothing after the end. */
  lemma {:induction false} AfterEndNoEnd(events: seq<Event>)
    requires forall i :: 0 <= i < |events| ==> !IsEnd(events[i])
    ensures AfterEnd(events) == []
  {
    if events != [] {
      assert !IsEnd(events[0]);
      AfterEndNoEnd(events[1..]);
    }
  }

  /** The payload of the next non-empty binary message before the next close
      or error: what a read finds once the buffer is empty. */
  function FirstChunk(events: seq<Event>): seq<byte> {
    if events == [] then []
    else match events[0]
      case Binary(d) => if d != [] then d else FirstChunk(events[1..])
      case Text(_) => FirstChunk(events[1..])
      case _ => []
  }

  lemma {:induction false} FirstChunkIsPrefix(events: seq<Event>)
    ensures |FirstChunk(events)| <= |Deliverable(events)|
    ensures FirstChunk(events) == Deliverable(events)[..|FirstChunk(events)|]
    ensures FirstChunk(events) == [] <==> Deliverable(events) == []
  {
    if events != [] && !IsEnd(events[0]) {
      FirstChunkIsPrefix(events[1..]);
    }
  }

  /** How many bytes a read asking for `remaining` delivers: as many as are
      buffered, else as many as the next message brings, capped by `remaining`. */
  function ReadSize(buffer: seq<byte>, events: seq<Event>, remaining: nat): nat {
    if buffer != [] then Min(|buffer|, remaining) else Min(|FirstChunk(events)|, remaining)
  }

  /** A read delivers at most what was asked for and at most what is there,
      and nothing only when nothing was asked for or nothing is left. */
  lemma ReadSizeBounds(buffer: seq<byte>, events: seq<Event>, remaining: nat)
    ensures var n := ReadSize(buffer, events, remaining);
            && n <= remaining && n <= |buffer + Deliverable(events)|
            && (n == 0 <==> remaining == 0 || buffer + Deliverable(events) == [])
  {
    FirstChunkIsPrefix(events);
  }

  /** What one `poll_read` call leaves: the bytes handed over, the buffer and
      the events still to come. */
  datatype PollResult = PollResult(chunk: seq<byte>, buffer: seq<byte>, events: seq<Event>)

  /** The `poll_read` loop on values: hand over the front
      `min(buffer.len, remaining)` bytes of the buffer; while that is 0, take
      the next event, appending a message's bytes at the back of the buffer;
      a close, an error or the end of the events ends the read with nothing. */
  function Poll(buffer: seq<byte>, events: seq<Event>, remaining: nat): PollResult
    decreases |events|
  {
    var size := Min(|buffer|, remaining);
    if size > 0 then PollResult(buffer[..size], buffer[size..], events)
    else if events == [] then PollResult([], buffer, [])
    else match events[0]
      case Binary(d) => Poll(buffer + d, events[1..], remaining)
      case Text(_) => Poll(buffer, events[1..], remaining)
      case _ => PollResult([], buffer, events[1..])
  }

  /** What a read promises: it hands over the front of what is readable, at
      most `remaining` bytes, and leaves the rest readable. A read that hands
      over nothing has drained everything up to the next close or error, and
      when bytes were asked for, there was nothing to read. A non-empty buffer
      is served without touching the events. */
  ghost predicate Advances(buffer: seq<byte>, events: seq<Event>, remaining: nat, p: PollResult) {
    var readable := buffer + Deliverable(events);
    && |p.chunk| <= remaining && |p.chunk| <= |readable| && p.chunk == readable[..|p.chunk|]
    && (buffer != [] && remaining > 0 ==> p.events == events && buffer == p.chunk + p.buffer)
    && (p.chunk != [] ==> p.buffer + Deliverable(p.events) == readable[|p.chunk|..] && AfterEnd(p.events) == AfterEnd(events))
    && (p.chunk == [] ==> p.buffer == readable && p.events == AfterEnd(events))
    && (p.chunk == [] && remaining > 0 ==> readable == [])
  }

  /** Every `poll_read` keeps the promise of `Advances`. */
  lemma {:induction false} PollAdvances(buffer: seq<byte>, events: seq<Event>, remaining: nat)
    ensures Advances(buffer, events, remaining, Poll(buffer, events, remaining))
    decreases |events|
  {
    if Min(|buffer|, remaining) > 0 {
      PollFromBuffer(buffer, events, remaining);
    } else if events != [] {
      match events[0] {
        case Binary(d) =>
          PollAdvances(buffer + d, events[1..], remaining);
          PollPastBinary(buffer, events, remaining);
        case Text(_) =>
          PollAdvances(buffer, events[1..], remaining);
          PollPastText(buffer, events, remaining);
        case _ =>
      }
    }
  }

  lemma PollFromBuffer(buffer: seq<byte>, events: seq<Event>, remaining: nat)
    requires Min(|buffer|, remaining) > 0
    ensures Advances(buffer, events, remaining, Poll(buffer, events, remaining))
  {
    var size := Min(|buffer|, remaining);
    assert buffer[size..] + Deliverable(events) == (buffer + Deliverable(events))[size..];
  }

  /** The promise depends on the buffer and the events only through what is
      readable and what comes after the end, once the buffer cannot be served. */
  lemma AdvancesTransfer(b: seq<byte>, e: seq<Event>, b': seq<byte>, e': seq<Event>, remaining: nat, p: PollResult)
    requires b == [] || remaining == 0
    requires b + Deliverable(e) == b' + Deliverable(e') && AfterEnd(e) == AfterEnd(e')
    requires Advances(b', e', remaining, p)
    ensures Advances(b, e, remaining, p)
  {
  }

  lemma PollPastBinary(buffer: seq<byte>, events: seq<Event>, remaining: nat)
    requires Min(|buffer|, remaining) == 0 && events != [] && events[0].Binary?
    requires Advances(buffer + events[0].data, events[1..], remaining, Poll(buffer + events[0].data, events[1..], remaining))
    ensures Advances(buffer, events, remaining, Poll(buffer, events, remaining))
  {
    var d := events[0].data;
    DeliverableBinary(buffer, events);
    AdvancesTransfer(buffer, events, buffer + d, events[1..], remaining, Poll(buffer + d, events[1..], remaining));
  }

  lemma DeliverableBinary(buffer: seq<byte>, events: seq<Event>)
    requires events != [] && events[0].Binary?
    ensures buffer + Deliverable(events) == (buffer + events[0].data) + Deliverable(events[1..])
  {
  }

  lemma PollPastText(buffer: seq<byte>, events: seq<Event>, remaining: nat)
    requires Min(|buffer|, remaining) == 0 && events != [] && events[0].Text?
    requires Advances(buffer, events[1..], remaining, Poll(buffer, events[1..], remaining))
    ensures Advances(buffer, events, remaining, Poll(buffer, events, remaining))
  {
    AdvancesTransfer(buffer, events, buffer, events[1..], remaining, Poll(buffer, events[1..], remaining));
  }

  /** The number of bytes a read hands over is `ReadSize`. */
  lemma {:induction false} PollSize(buffer: seq<byte>, events: seq<Event>, remaining: nat)
    ensures |Poll(buffer, events, remaining).chunk| == ReadSize(buffer, events, remaining)
    decreases |events|
  {
    if Min(|buffer|, remaining) == 0 && events != [] {
      match events[0]
      case Binary(d) =>
        PollSize(buffer + d, events[1..], remaining);
      case Text(_) =>
        PollSize(buffer, events[1..], remaining);
      case _ =>
    }
  }

  /** The outcome of the TCP relay: `Ok` exactly when some candidate's copy
      completes, otherwise the error listing every attempt. */
  ghost predicate TcpRelayed(r: Result<(), Error>, eps: seq<Endpoint>, net: Network) {
    && (r.Ok? <==> SomeCopySucceeds(eps, net))
    && (r.Err? ==> r == Err(AllTcpAttemptsFailed(AttemptErrors(eps, net))))
  }

  /** The outcome of the datagram relay that started with `n` messages sent
      and `readable` bytes to come. The query is the front of `readable` (at
      most 65535 bytes, empty only when nothing was readable). It is echoed
      as message `n` when DoH accepts it and the socket takes it; a send that
      fails is the only error, and a query DoH rejects ends `Ok` with nothing
      sent. */
  ghost predicate DatagramRelayed(n: nat, sent: seq<seq<byte>>, readable: seq<byte>, query: seq<byte>,
                                  r: Result<(), Error>, doh: seq<byte> -> bool, sendOk: nat -> bool) {
    && |query| <= 65535 && |query| <= |readable| && query == readable[..|query|]
    && (query == [] <==> readable == [])
    && (doh(query) && sendOk(n) ==> |sent| == n + 1 && sent[n] == query && r == Ok(()))
    && (doh(query) && !sendOk(n) ==> |sent| == n && r == Err(Send))
    && (!doh(query) ==> |sent| == n && r == Ok(()))
  }

  class VmessStream {
    const config: Config
    /** Inbound bytes received but not yet read. */
    var buffer: seq<byte>
    /** The inbound events still to come. */
    var events: seq<Event>
    /** The outbound messages sent so far, in order. */
    var sent: seq<seq<byte>>
    /** Whether `send_with_bytes` succeeds when `n` messages have gone out
        (the client may close the socket at any time). */
    const sendOk: nat -> bool

    /** The bytes reads will deliver before reporting end of stream. */
    ghost function Readable(): seq<byte>
      reads this`buffer, this`events
    {
      buffer + Deliverable(events)
    }

    /** The events left once that end has been reported. */
    ghost function Later(): seq<Event>
      reads this`events
    {
      AfterEnd(events)
    }

    /** `VmessStream::new`: an empty buffer over the socket's events. */
    constructor (config: Config, events: seq<Event>, sendOk: nat -> bool)
      ensures this.config == config && this.events == events && this.sendOk == sendOk
      ensures buffer == [] && sent == []
      ensures Readable() == Deliverable(events)
    {
      this.config := config;
      this.events := events;
      this.sendOk := sendOk;
      buffer := [];
      sent := [];
    }

    /** `poll_read` into a buffer with `remaining` free bytes: the loop that
        `Poll` describes, run on the stream's own buffer and events. */
    method PollRead(remaining: nat) returns (chunk: seq<byte>)
      modifies this
      ensures sent == old(sent)
      ensures PollResult(chunk, buffer, events) == Poll(old(buffer), old(events), remaining)
    {
      ghost var b0, e0 := buffer, events;
      while true
        invariant sent == old(sent)
        invariant Poll(buffer, events, remaining) == Poll(b0, e0, remaining)
        decreases |events|
      {
        var size := Min(|buffer|, remaining);
        if size > 0 {
          chunk := buffer[..size];
          buffer := buffer[size..];
          return;
        }
        if events == [] {
          chunk := [];
          return;
        }
        var event := events[0];
        events := events[1..];
        match event
        case Binary(data) =>
          buffer := buffer + data;
        case Text(_) =>
        case _ =>
          chunk := [];
          return;
      }
    }

    /** `AsyncReadExt::read` into a buffer of `len` bytes: one `poll_read`.
        What it hands over is the front of the readable bytes. */
    method Read(len: nat) returns (chunk: seq<byte>)
      modifies this
      ensures sent == old(sent)
      ensures |chunk| <= len && |chunk| <= |old(Readable())| && chunk == old(Readable())[..|chunk|]
      ensures chunk != [] ==> Readable() == old(Readable())[|chunk|..] && Later() == old(Later())
      ensures chunk == [] ==> buffer == old(Readable()) && events == old(Later())
      ensures chunk == [] && len > 0 ==> old(Readable()) == []
    {
      ghost var b, e := buffer, events;
      chunk := PollRead(len);
      PollAdvances(b, e, len);
    }

    /** `read_exact`: `n` bytes or a short-read error. */
    method ReadExact(n: nat) returns (r: Result<seq<byte>, Error>)
      modifies this
      ensures sent == old(sent)
      ensures n <= |old(Readable())| ==>
                r == Ok(old(Readable())[..n]) && Readable() == old(Readable())[n..] && Later() == old(Later())
      ensures |old(Readable())| < n ==> r == Err(UnexpectedEof) && buffer == [] && events == old(Later())
    {
      ghost var readable, later := Readable(), Later();
      var got: seq<byte> := [];
      while |got| < n
        invariant |got| <= n
        invariant got + Readable() == readable
        invariant Later() == later
        invariant sent == old(sent)
        decreases n - |got|
      {
        ghost var before := Readable();
        var chunk := Read(n - |got|);
        if chunk == [] {
          return Err(UnexpectedEof);
        }
        assert before == chunk + Readable();
        got := got + chunk;
      }
      assert readable[..n] == got;
      return Ok(got);
    }

    /** `poll_write`: one outbound message holding all of `data`; on success
        it reports the whole length. */
    method Write(data: seq<byte>) returns (r: Result<nat, Error>)
      modifies this`sent
      ensures sendOk(|old(sent)|) ==> r == Ok(|data|) && sent == old(sent) + [data]
      ensures !sendOk(|old(sent)|) ==> r == Err(Send) && sent == old(sent)
    {
      if sendOk(|sent|) {
        sent := sent + [data];
        r := Ok(|data|);
      } else {
        r := Err(Send);
      }
    }

    /** `poll_flush`: nothing is buffered on the way out, so flushing
        succeeds and changes nothing. */
    method Flush() returns (r: Result<(), Error>)
      ensures r == Ok(())
    {
      r := Ok(());
    }

    /** The first three reads of `aead_decrypt`: the 16-byte auth id, the
        18-byte sealed length and the 8-byte nonce. */
    method ReadPreamble() returns (r: Result<(seq<byte>, seq<byte>, seq<byte>), Error>)
      modifies this
      ensures sent == old(sent)
      ensures PreambleLength <= |old(Readable())| ==>
                var s := old(Readable());
                r == Ok((s[..16], s[16..34], s[34..42])) && Readable() == s[42..] && Later() == old(Later())
      ensures |old(Readable())| < PreambleLength ==> r == Err(UnexpectedEof) && buffer == [] && events == old(Later())
    {
      ghost var s := Readable();
      var authId := ReadExact(16);
      if authId.Err? {
        return Err(authId.error);
      }
      var sealedLength := ReadExact(18);
      if sealedLength.Err? {
        return Err(sealedLength.error);
      }
      var nonce := ReadExact(8);
      if nonce.Err? {
        return Err(nonce.error);
      }
      assert authId.value == s[..16] && sealedLength.value == s[16..34] && nonce.value == s[34..42];
      assert Readable() == s[42..];
      return Ok((authId.value, sealedLength.value, nonce.value));
    }

    /** `aead_decrypt`: reads the 16/18/8-byte preamble, opens the length
        field, reads exactly that many bytes plus the 16-byte tag and opens
        them. It reads only through `ReadExact` and never writes. */
    method AeadDecrypt(c: Crypto) returns (r: Result<seq<byte>, Error>)
      requires OpenLength(c)
      modifies this
      ensures sent == old(sent)
      ensures r == DecodeHeader(c, config.uuid, old(Readable())).result
      ensures r != Err(UnexpectedEof) ==>
                Readable() == old(Readable())[DecodeHeader(c, config.uuid, old(Readable())).consumed..]
                && Later() == old(Later())
      ensures r == Err(UnexpectedEof) ==> buffer == [] && events == old(Later())
    {
      ghost var s := Readable();
      var uuid := config.uuid;
      var preamble := ReadPreamble();
      if preamble.Err? {
        return Err(preamble.error);
      }
      var (authId, sealedLength, nonce) := preamble.value;
      var lengthPlain := c.open(LengthKey(c, uuid, authId, nonce), LengthNonce(c, uuid, authId, nonce), authId, sealedLength);
      if lengthPlain.None? {
        return Err(Aead);
      }
      var headerLength: nat := BigEndian16(lengthPlain.value[0], lengthPlain.value[1]);
      var cmd := ReadExact(CommandReadLength(headerLength));
      if cmd.Err? {
        return cmd;
      }
      assert cmd.value == s[42..42 + CommandReadLength(headerLength)];
      var payload := c.open(PayloadKey(c, uuid, authId, nonce), PayloadNonce(c, uuid, authId, nonce), authId, cmd.value);
      if payload.None? {
        return Err(Aead);
      }
      return Ok(payload.value);
    }

    /** The non-TCP branch of `process`: one read of at most 65535 bytes,
        handed to DNS-over-HTTPS; the same bytes are echoed back only if that
        succeeds, and the branch ends with `Ok` unless the echo fails to send.
        The bytes read are returned as `query`. */
    method RelayDatagram(doh: seq<byte> -> bool) returns (r: Result<(), Error>, query: seq<byte>)
      modifies this
      ensures |query| <= 65535 && |query| <= |old(Readable())| && query == old(Readable())[..|query|]
      ensures query == [] <==> old(Readable()) == []
      ensures query != [] ==> Readable() == old(Readable())[|query|..] && Later() == old(Later())
      ensures query == [] ==> buffer == [] && events == old(Later())
      ensures doh(query) && sendOk(|old(sent)|) ==> sent == old(sent) + [query] && r == Ok(())
      ensures doh(query) && !sendOk(|old(sent)|) ==> sent == old(sent) && r == Err(Send)
      ensures !doh(query) ==> sent == old(sent) && r == Ok(())
    {
      query := Read(65535);
      if doh(query) {
        var w := Write(query);
        if w.Err? {
          return Err(w.error), query;
        }
      }
      r := Ok(());
    }

    /** The decoding half of `process`: `aead_decrypt`, then the command
        fields read through a cursor over the opened bytes. Nothing is
        written. */
    method ReadRequest(c: Crypto, parseAddr: AddrParser) returns (r: Result<Command, Error>)
      requires OpenLength(c)
      modifies this
      ensures sent == old(sent)
      ensures r == DecodeRequest(c, config.uuid, parseAddr, old(Readable()))
      ensures var h := DecodeHeader(c, config.uuid, old(Readable()));
              h.result != Err(UnexpectedEof) ==> Readable() == old(Readable())[h.consumed..] && Later() == old(Later())
      ensures DecodeHeader(c, config.uuid, old(Readable())).result == Err(UnexpectedEof) ==>
                buffer == [] && events == old(Later())
    {
      var header := AeadDecrypt(c);
      if header.Err? {
        return Err(header.error);
      }
      r := ParseCommand(header.value, parseAddr);
    }

    /** The response half of the handshake: the sealed length 4, then the
        sealed `[options[0], 0, 0, 0]`, as two messages in that order. */
    method WriteResponseHeader(c: Crypto, cmd: Command) returns (r: Result<(), Error>)
      modifies this`sent
      ensures var n := |old(sent)|;
              !sendOk(n) ==> r == Err(Send) && sent == old(sent)
      ensures var n := |old(sent)|;
              sendOk(n) && !sendOk(n + 1) ==> r == Err(Send) && sent == old(sent) + [ResponseHeader(c, cmd).0]
      ensures var n := |old(sent)|;
              sendOk(n) && sendOk(n + 1) ==> r == Ok(()) && sent == old(sent) + [ResponseHeader(c, cmd).0, ResponseHeader(c, cmd).1]
    {
      var (lengthMsg, headerMsg) := ResponseHeader(c, cmd);
      var w := Write(lengthMsg);
      if w.Err? {
        return Err(w.error);
      }
      w := Write(headerMsg);
      if w.Err? {
        return Err(w.error);
      }
      r := Ok(());
    }

    /** The handshake half of `process`: decode the request, then send the
        two response header messages. The command comes back only when the
        request decodes and both messages went out. */
    method Handshake(c: Crypto, parseAddr: AddrParser) returns (r: Result<Command, Error>)
      requires OpenLength(c)
      modifies this
      ensures var h := DecodeHeader(c, config.uuid, old(Readable()));
              && (h.result != Err(UnexpectedEof) ==> Readable() == old(Readable())[h.consumed..] && Later() == old(Later()))
              && (h.result == Err(UnexpectedEof) ==> buffer == [] && events == old(Later()))
      ensures var req := DecodeRequest(c, config.uuid, parseAddr, old(Readable()));
              var n := |old(sent)|;
              && (req.Err? ==> r == req && sent == old(sent))
              && (req.Ok? && !sendOk(n) ==> r == Err(Send) && sent == old(sent))
              && (req.Ok? && sendOk(n) && !sendOk(n + 1) ==> r == Err(Send) && sent == old(sent) + [ResponseHeader(c, req.value).0])
              && (req.Ok? && sendOk(n) && sendOk(n + 1) ==>
                    r == req && sent == old(sent) + [ResponseHeader(c, req.value).0, ResponseHeader(c, req.value).1])
    {
      ghost var s0, later := Readable(), Later();
      r := ReadRequest(c, parseAddr);
      if r.Err? {
        return;
      }
      ghost var s1 := Readable();
      var w := WriteResponseHeader(c, r.value);
      assert Readable() == s1 && Later() == later;
      if w.Err? {
        return Err(w.error);
      }
    }

    /** The relay that follows the response header: a TCP command tries the
        candidates in order; any other command takes the DNS-over-HTTPS path.
        Either way messages are only ever added after those already sent. */
    method Relay(cmd: Command, net: Network, doh: seq<byte> -> bool) returns (r: Result<(), Error>, ghost query: seq<byte>)
      modifies this
      ensures |old(sent)| <= |sent| && sent[..|old(sent)|] == old(sent)
      ensures cmd.IsTcp() ==> TcpRelayed(r, Endpoints(cmd.addr, cmd.port, config.proxyIp), net)
      ensures !cmd.IsTcp() ==> DatagramRelayed(|old(sent)|, sent, old(Readable()), query, r, doh, sendOk)
    {
      if cmd.IsTcp() {
        var attempted;
        r, attempted := ConnectUpstream(cmd.addr, cmd.port, config.proxyIp, net);
        query := [];
      } else {
        r, query := RelayDatagram(doh);
      }
    }

    /** `process`: decode the request, answer with the two response header
        messages, then relay. Nothing is written unless the request header
        opens and the command parses; the response header is written before
        anything else. A TCP command tries the candidates in order; any
        other command takes the DNS-over-HTTPS path. */
    method Process(c: Crypto, parseAddr: AddrParser, net: Network, doh: seq<byte> -> bool)
      returns (r: Result<(), Error>, ghost query: seq<byte>)
      requires OpenLength(c)
      modifies this
      // a request that does not decode: its error, and nothing written
      ensures var req := DecodeRequest(c, config.uuid, parseAddr, old(Readable()));
              req.Err? ==> r == Err(req.error) && sent == old(sent)
      ensures DecodeHeader(c, config.uuid, old(Readable())).result == Err(UnexpectedEof) ==>
                buffer == [] && events == old(Later())
      // the response header comes first; a failed send ends the connection
      ensures var req := DecodeRequest(c, config.uuid, parseAddr, old(Readable()));
              req.Ok? && !sendOk(|old(sent)|) ==> r == Err(Send) && sent == old(sent)
      ensures var req := DecodeRequest(c, config.uuid, parseAddr, old(Readable()));
              req.Ok? && sendOk(|old(sent)|) && !sendOk(|old(sent)| + 1) ==>
                r == Err(Send) && sent == old(sent) + [ResponseHeader(c, req.value).0]
      ensures var req := DecodeRequest(c, config.uuid, parseAddr, old(Readable()));
              req.Ok? && sendOk(|old(sent)|) && sendOk(|old(sent)| + 1) ==>
                |sent| >= |old(sent)| + 2 && sent[..|old(sent)| + 2] == old(sent) + [ResponseHeader(c, req.value).0, ResponseHeader(c, req.value).1]
      // nothing more is read, past the header, unless the relay starts
      ensures var h := DecodeHeader(c, config.uuid, old(Readable()));
              var req := DecodeRequest(c, config.uuid, parseAddr, old(Readable()));
              h.result != Err(UnexpectedEof) && !(req.Ok? && sendOk(|old(sent)|) && sendOk(|old(sent)| + 1)) ==>
                Readable() == old(Readable())[h.consumed..] && Later() == old(Later())
      // TCP: the outcome of the candidate loop
      ensures var req := DecodeRequest(c, config.uuid, parseAddr, old(Readable()));
              req.Ok? && sendOk(|old(sent)|) && sendOk(|old(sent)| + 1) && req.value.IsTcp() ==>
                TcpRelayed(r, Endpoints(req.value.addr, req.value.port, config.proxyIp), net)
      // otherwise: the query is the front of what follows the header, echoed
      // when DoH accepts it and the socket takes it
      ensures var h := DecodeHeader(c, config.uuid, old(Readable()));
              var req := DecodeRequest(c, config.uuid, parseAddr, old(Readable()));
              req.Ok? && sendOk(|old(sent)|) && sendOk(|old(sent)| + 1) && !req.value.IsTcp() ==>
                DatagramRelayed(|old(sent)| + 2, sent, old(Readable())[h.consumed..], query, r, doh, sendOk)
    {
      var hs := Handshake(c, parseAddr);
      if hs.Err? {
        return Err(hs.error), [];
      }
      r, query := Relay(hs.value, net, doh);
    }
  }
}
