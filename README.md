# tunl: a verified model of the VMess worker core

This project models the core of `tunl`, a Cloudflare Worker that accepts
VMess-over-WebSocket connections and relays them to TCP upstreams. It covers:

- **the VMess AEAD request header**, as `VmessStream::aead_decrypt` reads it.
  That is a 16-byte Auth ID, an 18-byte sealed length, an 8-byte nonce, then
  the sealed command of that length plus a 16-byte tag (`VmessHeader.DecodeHeader`).
  The read length `header_length + 16` is a `u16` sum, and the model wraps it
  at 16 bits as a release build does.
- **the command section** that `process` reads through a cursor: version,
  IV, key, options, command byte, port, address (`VmessHeader.ParseCommand`).
- **the response header**: two AES-GCM messages sealed under keys derived
  from SHA-256 of the request's data key and IV (`VmessHeader.ResponseHeader`).
- **the stream adapter** `VmessStream` (`poll_read`, `poll_write`,
  `poll_flush`), modelled as a class. It holds a read buffer, the inbound
  WebSocket events still to come, the outbound messages sent so far and,
  for each number of messages already sent, whether the next send succeeds
  (the client may close the socket at any time). `read_exact`, `aead_decrypt` and
  `process` are methods on it, proved against the functions above.
- **the TCP retry loop**. Candidates are the decoded address, then every
  `PROXY_IP` entry. A listed entry is split at its last `:` and its suffix
  is parsed as a `u16`, falling back to the decoded port. Attempts go in
  order until a copy completes; otherwise the error collects one entry per
  attempt (`Upstream.ConnectUpstream`).
- **the DNS-over-HTTPS branch**: one read of at most 65535 bytes, echoed
  back when the DoH call succeeds (`Vmess.VmessStream.RelayDatagram`).
- **the configuration rules of `main`**:
  - the `PROXY_IP` tokeniser (split on ASCII whitespace or `,`, trim, drop
    empty pieces);
  - the `REDIRECT_URL` default;
  - the `ENABLED_LINK` truthiness test;
  - the required `UUID`.

  The `Config` record of `src/config.rs:3-9` is `Configuration.Config`, with
  the UUID as its 16 bytes.
- **the two routes**: `tunnel` upgrades when the `Upgrade` header
  lower-cases to `websocket`, and `link` builds a `vmess://` link or
  redirects.

Cryptography (MD5, SHA-256, the VMess KDF, AES-128-GCM) is a parameter record
`Crypto.Crypto` of functions. The only AES-GCM facts used are stated as
predicates:
- `OpenLength`: an opened ciphertext is 16 bytes longer than its plaintext.
- `IsAead`: sealing adds 16 bytes and what was sealed opens again.

Network outcomes are parameters:
- the outcome of each TCP attempt (`Upstream.Network`);
- the DoH call;
- `parse_addr`;
- `Uuid::from_str`.

The files are:
- `common.dfy`: bytes, `u16`, `Option`/`Result` and errors;
- `crypto.dfy`: the crypto record;
- `config.dfy`: `Config`;
- `header.dfy`: the header and command formats;
- `upstream.dfy`: the candidate list and the retry loop;
- `stream.dfy`: the stream class and `process`;
- `worker.dfy`: `src/lib.rs`.

Three details of the code that the model keeps:
- **A failing `copy_bidirectional`** records its error and moves on to the
  next candidate (`src/proxy/vmess.rs:213-214`). It does not end the
  connection.
- **The key material** is MD5 of the UUID bytes followed by the 36 ASCII
  bytes of `c48619fe-8f02-49e0-b9e9-edf763e17e21` (`src/proxy/vmess.rs:52-55`).
- **A version byte other than 1** is an error of its own
  (`src/proxy/vmess.rs:143-145`), distinct from a failed tag check.

## Model

| member | source | states |
|---|---|---|
| Common.BigEndian16 | src/proxy/vmess.rs:97 | the two opened length bytes are read big-endian: the value's high byte is the first, its low byte the second |
| Common.ToBigEndian16 | src/proxy/vmess.rs:172 | `4u16.to_be_bytes()` is two bytes that read back big-endian as the value |
| Crypto.Kdf16 | src/proxy/vmess.rs:71-78 | a KDF output cut to `[..16]` is a 16-byte AES-128 key |
| Crypto.Kdf12 | src/proxy/vmess.rs:79-86 | a KDF output cut to `[..12]` is a 12-byte GCM nonce |
| VmessHeader.AuthKey | src/proxy/vmess.rs:52-55 | the key every request-header key is derived from is MD5 of the 16 UUID bytes followed by the ASCII text `c48619fe-8f02-49e0-b9e9-edf763e17e21`; no contract, as MD5 is a parameter |
| VmessHeader.LengthKey | src/proxy/vmess.rs:71-78 | the length field's key is 16 bytes, derived from the auth key, its salt, the Auth ID and the nonce |
| VmessHeader.LengthNonce | src/proxy/vmess.rs:79-86 | the length field's nonce is 12 bytes |
| VmessHeader.PayloadKey | src/proxy/vmess.rs:105-112 | the command payload's key is 16 bytes |
| VmessHeader.PayloadNonce | src/proxy/vmess.rs:113-116 | the command payload's nonce is 12 bytes |
| VmessHeader.CommandReadLength | src/proxy/vmess.rs:101 | `header_length + 16` taken as a `u16`: the sum itself when it is below 65536, otherwise the sum minus 65536, which is then under 16 |
| VmessHeader.DecodeHeader | src/proxy/vmess.rs:51-129 | the only outcomes are the command bytes, a short read or a failed tag check. Under 42 bytes is a short read. A short read consumes everything. Success consumes exactly 42 bytes plus the 16-bit-wrapped `header_length + 16`. A tag failure consumes at least the preamble |
| VmessHeader.OversizedLengthFails | src/proxy/vmess.rs:97-128 | a length field of 65520 or more wraps the read length below 16, too short to hold a tag: the header is then a short read or fails its tag check, and less than 42 + 16 bytes are consumed |
| VmessHeader.LengthFailureReadsOnlyPreamble | src/proxy/vmess.rs:62-97 | a length field that fails its tag check stops the read after the 42-byte preamble |
| VmessHeader.DecodeHeaderIgnoresTail | src/proxy/vmess.rs:101-102 | a header read to completion depends only on the bytes it consumed: appending anything leaves the outcome unchanged |
| VmessHeader.HeaderRoundTrip | src/proxy/vmess.rs:62-128 | a header sealed by a client around a command short enough that `len + 16` fits in 16 bits opens to the same command, consuming exactly the header, whatever follows it |
| VmessHeader.ParseCommand | src/proxy/vmess.rs:142-160 | an empty payload is a short read, a version other than 1 is `InvalidVersion`, a version-1 payload under 40 bytes is a short read. Success means the address parser accepted the bytes from offset 40, and the command is TCP exactly when byte 37 is 0x01 |
| VmessHeader.CommandRoundTrip | src/proxy/vmess.rs:142-160 | every command field is read back from the offset a client writes it at |
| VmessHeader.DecodeRequest | src/proxy/vmess.rs:131-160 | a header that fails to decode makes the whole request fail with the header's error |
| VmessHeader.RequestRoundTrip | src/proxy/vmess.rs:131-160 | a request a client builds from a command whose sealed section fits a 16-bit read length decodes to exactly that command, whatever follows it |
| VmessHeader.ResponseKey | src/proxy/vmess.rs:164 | the response key is the first 16 bytes of SHA-256 of the request's data key |
| VmessHeader.ResponseIv | src/proxy/vmess.rs:165 | the response IV is the first 16 bytes of SHA-256 of the request's data IV |
| VmessHeader.ResponseHeader | src/proxy/vmess.rs:164-187 | the two messages are the length `4u16` and `[options[0], 0, 0, 0]`, each sealed under keys derived from the response key and IV; no contract of its own, `ResponseHeaderOpens` states what a client gets from them |
| VmessHeader.ResponseHeaderOpens | src/proxy/vmess.rs:164-187 | the two response messages are 18 and 20 bytes long. Under the derived keys they open to the length `[0x00, 0x04]` and to `[options[0], 0, 0, 0]` |
| Upstream.LastIndexOf | src/proxy/vmess.rs:195 | the index found holds the character and nothing after it does; no index means the character does not occur |
| Upstream.RSplitOnce | src/proxy/vmess.rs:195 | no split exactly when the separator is absent; otherwise the parts joined by the separator give back the string and the right part has no separator |
| Upstream.RSplitOnceOf | src/proxy/vmess.rs:195-199 | splitting at the last separator is unique: prefix + separator + separator-free suffix splits into exactly those parts |
| Upstream.ParseU16 | src/proxy/vmess.rs:197 | an accepted port text is non-empty and carries no minus sign |
| Upstream.ParseU16Accepts | src/proxy/vmess.rs:197 | after dropping one leading `+`, a text parses exactly when what remains is a non-empty run of decimal digits whose value is below 65536, and the port is that value |
| Upstream.ParseU16Rejects | src/proxy/vmess.rs:197 | the empty text, a lone `+`, `-1`, `+-1`, `8o80` and `65536` are all rejected |
| Upstream.ParseU16LeadingZeros | src/proxy/vmess.rs:197 | leading zeros are accepted: any number of `0`s before a port's decimal digits parses to that port |
| Upstream.ParseU16Decimal | src/proxy/vmess.rs:197 | every port written in decimal, with or without a leading `+`, parses back to itself |
| Upstream.Candidates | src/proxy/vmess.rs:193 | the candidates are the decoded address first, then the `PROXY_IP` entries in order |
| Upstream.Resolve | src/proxy/vmess.rs:194-203 | where a candidate connects to; no contract of its own, `ResolveCases` states its cases |
| Upstream.ResolveCases | src/proxy/vmess.rs:194-203 | an unlisted candidate, or one without `:`, keeps the whole string and the decoded port. A listed `host:port` is split at its last `:`, and its port is the parsed suffix, else the decoded port |
| Upstream.ResolveHostPort | src/proxy/vmess.rs:194-199 | a listed `host:port` entry with a decimal port connects to exactly that host and port |
| Upstream.Endpoints | src/proxy/vmess.rs:193-203 | one endpoint per candidate, in candidate order, each the candidate's resolution |
| Upstream.ResolveExampleTarget | src/proxy/vmess.rs:201-203 | the decoded target `10.0.0.1` (not listed) goes to port 80 |
| Upstream.ResolveExampleWithPort | src/proxy/vmess.rs:194-197 | the listed entry `1.2.3.4:8080` goes to `1.2.3.4` port 8080 |
| Upstream.ResolveExampleWithoutPort | src/proxy/vmess.rs:194-199 | the listed entry `5.6.7.8` goes to the decoded port 80 |
| Upstream.CandidateOrderExample | src/proxy/vmess.rs:193-203 | with entries `1.2.3.4:8080` and `5.6.7.8` the attempts go to 10.0.0.1:80, 1.2.3.4:8080, 5.6.7.8:80 in that order |
| Upstream.ErrorText | src/proxy/vmess.rs:205-221 | a connect error and a copy error keep their message, an unopened socket reads "socket not open"; no contract of its own, `AttemptErrors` states how the texts are collected |
| Upstream.AttemptErrors | src/proxy/vmess.rs:205-223 | one error text per attempt, in attempt order; a socket that does not open reads "socket not open" |
| Upstream.AttemptErrorsExtend | src/proxy/vmess.rs:205-223 | one more failed attempt appends exactly its error text |
| Upstream.SomeCopySucceedsExtend | src/proxy/vmess.rs:213-216 | after one more attempt, some copy completed exactly when one did before or this one did |
| Upstream.SomeCopySucceedsPrefix | src/proxy/vmess.rs:213-216 | a copy that completed within the first attempts completed among all of them |
| Upstream.ConnectUpstream | src/proxy/vmess.rs:189-228 | the attempts are a prefix of the endpoint list, each connecting to its candidate's `Resolve` entry, none before the last one completed its copy. `Ok` exactly when the last attempt's copy completed, exactly when some endpoint's copy completes. On failure every candidate was tried and the error lists every attempt's text in order |
| Vmess.Poll | src/proxy/vmess.rs:254-267 | the `poll_read` loop on values; no contract of its own, `PollAdvances` and `PollSize` state what it hands over |
| Vmess.AfterEndFirstEnd | src/proxy/vmess.rs:261-266 | a read that meets a close or error consumes it: what remains is everything after the first such event |
| Vmess.AfterEndNoEnd | src/proxy/vmess.rs:254-267 | when no close or error is among the events, a read that ends empty has used up every event |
| Vmess.FirstChunkIsPrefix | src/proxy/vmess.rs:254-267 | the next non-empty message is the front of the bytes deliverable before the end, and it is empty only when they are |
| Vmess.ReadSizeBounds | src/proxy/vmess.rs:254-267 | a read delivers at most what was asked and at most what is deliverable, and nothing only when nothing was asked or nothing is left |
| Vmess.PollAdvances | src/proxy/vmess.rs:254-267 | a read hands over the front of the readable bytes, at most the space offered, and leaves the rest readable with the same events after the end. A non-empty buffer is served without touching the events. A read that hands over nothing has drained everything up to the next close or error, and when space was offered there was nothing to read |
| Vmess.PollSize | src/proxy/vmess.rs:254-267 | the number of bytes a read hands over is `ReadSize`: the buffered bytes if any, else the next non-empty message, capped by the space offered |
| Vmess.VmessStream.constructor | src/proxy/vmess.rs:40-49 | a new stream has an empty buffer, the given events and send outcomes, and nothing sent |
| Vmess.VmessStream.PollRead | src/proxy/vmess.rs:246-269 | the loop's chunk, buffer and events are those of `Poll` on the old buffer and events, so `PollAdvances` and `PollSize` hold of them; nothing is sent |
| Vmess.VmessStream.Read | src/proxy/vmess.rs:236 | one read hands over the front of the readable bytes, at most `len` of them, and the readable bytes advance by it; an empty read means nothing was readable (when `len > 0`) and leaves the stream drained to its end |
| Vmess.VmessStream.ReadExact | src/proxy/vmess.rs:62-67 | `n` readable bytes give exactly the next `n` and advance past them; fewer give a short-read error and leave the stream drained to its end |
| Vmess.VmessStream.Write | src/proxy/vmess.rs:273-284 | a send appends the whole buffer as one message and reports its length when the socket accepts the next message; otherwise it fails with a send error and sends nothing |
| Vmess.VmessStream.Flush | src/proxy/vmess.rs:286-288 | flushing always succeeds |
| Vmess.VmessStream.ReadPreamble | src/proxy/vmess.rs:62-67 | with 42 bytes readable, the Auth ID, the sealed length and the nonce are bytes 0-16, 16-34 and 34-42, and the stream advances past them; fewer give a short-read error and leave the stream drained |
| Vmess.VmessStream.AeadDecrypt | src/proxy/vmess.rs:51-129 | the result is `DecodeHeader` of the readable bytes, and the stream advances by exactly the bytes it consumed; nothing is written |
| Vmess.VmessStream.RelayDatagram | src/proxy/vmess.rs:234-241 | the query is the front of the readable bytes, at most 65535 of them, empty only when nothing is readable, and the stream advances past it. It is echoed as one message exactly when DoH accepts it and the socket accepts that message. The branch ends `Ok` unless the echo fails to send |
| Vmess.VmessStream.ReadRequest | src/proxy/vmess.rs:131-160 | the result is `DecodeRequest` of the readable bytes; nothing is written |
| Vmess.VmessStream.WriteResponseHeader | src/proxy/vmess.rs:164-187 | the length message goes first and the header message second. A failed first send sends nothing; a failed second send leaves the length message sent; both failures are a send error, and only two successful sends end `Ok` |
| Vmess.VmessStream.Handshake | src/proxy/vmess.rs:131-187 | a request that does not decode returns its error with nothing sent; a decoded one is answered with the response header, with the three send outcomes of `WriteResponseHeader`. Either way the stream advances past exactly the bytes `DecodeHeader` consumed, or is drained on a short read |
| Vmess.VmessStream.Relay | src/proxy/vmess.rs:189-241 | only appends to what was sent. A TCP command ends as the retry loop over its endpoints does. Any other command reads a query from the front of the readable bytes (at most 65535, empty only when nothing is readable). When DoH accepts it and the socket takes it, it is echoed as one message and the result is `Ok`. When DoH accepts it but the send fails, nothing is sent and the result is a send error. When DoH rejects it, nothing is sent and the result is `Ok` |
| Vmess.VmessStream.Process | src/proxy/vmess.rs:131-243 | nothing is sent for a request that does not decode, whose error is returned. The response header comes first; a failed send of either message ends with a send error, having sent what went out before it, and reads nothing more. A TCP command ends as the retry loop does. Any other command reads a query from the front of the bytes after the header. It is echoed, with `Ok`, when DoH accepts it and the socket takes it; a failed echo sends nothing and is a send error; a query DoH rejects sends nothing and ends `Ok` |
| Worker.AsciiLower | src/lib.rs:75 | lower-casing keeps the length and maps each character by `to_ascii_lowercase` |
| Worker.Split | src/lib.rs:30 | splitting gives at least one piece, even for the empty string |
| Worker.SplitPieces | src/lib.rs:30 | no piece contains a separator |
| Worker.SplitKeepsText | src/lib.rs:30 | the pieces put together are the input with its separators removed |
| Worker.SplitWhole | src/lib.rs:30 | a string without separators is a single piece |
| Worker.SplitAtSeparator | src/lib.rs:30 | a separator splits the input into the pieces of its left part followed by those of its right part |
| Worker.Trim | src/lib.rs:32 | `str::trim`; no contract of its own, `TrimSlice` and `TrimmedIsFixed` state what it keeps |
| Worker.TrimStartSuffix | src/lib.rs:32 | trimming the start gives a suffix, everything dropped is whitespace, and it does not start with whitespace |
| Worker.TrimEndPrefix | src/lib.rs:32 | trimming the end gives a prefix, everything dropped is whitespace, and it does not end with whitespace |
| Worker.TrimSlice | src/lib.rs:32 | the trimmed string is a slice of the input with only whitespace around it, and it neither starts nor ends with whitespace |
| Worker.TrimKeepsNoSeparator | src/lib.rs:30-32 | trimming a separator-free piece leaves it separator-free |
| Worker.TrimmedIsFixed | src/lib.rs:32 | a string with no outer whitespace is its own trim (trim is idempotent) |
| Worker.TrimPiece | src/lib.rs:31-37 | a trimmed piece is empty or a valid entry |
| Worker.Keep | src/lib.rs:31-38 | the kept entries are no more than the pieces |
| Worker.KeepEntries | src/lib.rs:31-38 | from separator-free pieces, every kept entry is non-empty, separator-free and trimmed |
| Worker.Tokenise | src/lib.rs:28-39 | the `PROXY_IP` list: split, trim, drop empties; no contract of its own, the `Tokenise…` lemmas state its properties |
| Worker.TokeniseEntries | src/lib.rs:28-39 | every token of any string is non-empty, separator-free and trimmed |
| Worker.KeepAppend | src/lib.rs:31-39 | filtering preserves order: the entries of two piece lists are those of the first, then those of the second |
| Worker.ProxyIpList | src/lib.rs:25-41 | an absent `PROXY_IP` gives no entries; every entry is non-empty, separator-free and trimmed |
| Worker.TokeniseAtSeparator | src/lib.rs:28-39 | entries keep their order: the tokens around a separator are the left part's then the right part's |
| Worker.TokeniseEmpty | src/lib.rs:28-39 | the empty string gives no entries |
| Worker.TrimBlank | src/lib.rs:32 | whitespace alone trims to the empty string |
| Worker.SplitBlank | src/lib.rs:30 | text made only of separators and whitespace splits into whitespace-only pieces |
| Worker.KeepBlank | src/lib.rs:31-38 | whitespace-only pieces give no entries |
| Worker.TokeniseBlank | src/lib.rs:28-39 | text made only of separators and whitespace gives no entries |
| Worker.TokeniseEntry | src/lib.rs:28-39 | a single valid entry tokenises to itself |
| Worker.TokeniseJoin | src/lib.rs:28-39 | tokenising the comma-join of valid entries gives those entries back |
| Worker.TokeniseIdempotent | src/lib.rs:28-39 | re-tokenising the comma-join of the tokeniser's output reproduces it |
| Worker.TokeniseLeadingSeparator | src/lib.rs:28-39 | a leading separator is ignored |
| Worker.SplitTrailingSeparator | src/lib.rs:30 | a trailing separator adds one empty piece |
| Worker.KeepTrailingEmpty | src/lib.rs:31-38 | an empty last piece adds no entry |
| Worker.TokeniseTrailingSeparator | src/lib.rs:28-39 | a trailing separator is ignored |
| Worker.TokeniseLeadingRun | src/lib.rs:28-39 | any run of leading separators is ignored |
| Worker.TokeniseSeparatorRun | src/lib.rs:28-39 | a run of separators of any kind reads as one |
| Worker.TokeniseMixedSeparators | src/lib.rs:28-39 | `" x,, \ty\n"` tokenises to exactly `[x, y]` |
| Worker.RedirectUrl | src/lib.rs:43-46 | an absent `REDIRECT_URL` means `https://example.com`; a present one is used as is |
| Worker.LowerEqualsCaseVariant | src/lib.rs:52-53 | a lower-cased value equals a lower-case word exactly when it is that word with any letters upper-cased |
| Worker.DisplayLink | src/lib.rs:48-55 | `ENABLED_LINK` lower-cased is one of the truthy words; no contract of its own, `DisplayLinkCases` states its cases |
| Worker.DisplayLinkCases | src/lib.rs:48-55 | `display_link` holds exactly for case variants of `true`, `1`, `yes`, `on`, and is false when the variable is absent |
| Worker.DisplayLinkExamples | src/lib.rs:48-55 | `TRUE`, `Yes` and `oN` enable the link; absence, `enabled` and `" true"` do not |
| Worker.LoadConfig | src/lib.rs:15-64 | a missing `UUID` and an unparsable one are the two errors, and otherwise a config exists. Its fields come from the variables with their defaults, and its proxy entries are all valid |
| Worker.LoadConfigDefaults | src/lib.rs:24-57 | with only `UUID` set: no proxy entries, redirect to `https://example.com`, no link, empty host |
| Worker.Tunnel | src/lib.rs:73-93 | the `tunnel` route; no contract of its own, `TunnelCases` states when it upgrades |
| Worker.TunnelCases | src/lib.rs:73-93 | the WebSocket path is taken exactly when an `Upgrade` header is a case variant of `websocket`; every other request is redirected to `redirect_url` |
| Worker.TunnelExamples | src/lib.rs:74-92 | `WebSocket` upgrades; `h2c` and a missing header redirect |
| Worker.Link | src/lib.rs:95-128 | links switched off redirect to `redirect_url`; otherwise the link is `vmess://` followed by the encoded client configuration |

## Left out

- Cryptography: MD5, SHA-256, the VMess KDF and AES-128-GCM are library code and are parameters. The model relies only on the tag length and on the seal/open round trip.
- The byte values of the eight KDF salts, and `parse_addr` with its address types, live in `src/common`. That directory is not part of this model: salts are labels and `parse_addr` is a parameter. A `parse_addr` failure is one error, `Address`.
- Asynchrony: `Poll::Pending` is not modelled. The inbound side is the whole sequence of events the socket will still deliver, and an exhausted sequence is the end of the event stream.
- `poll_shutdown` is `unimplemented!()` in the source and has no counterpart. What that means for the TCP copy is on the `Upstream.ConnectUpstream` line below.
- `copy_bidirectional` is an oracle outcome per attempt. The bytes it moves between the client stream and the upstream socket are not modelled.
- Upstream.ConnectUpstream: its `CopyOk` outcome, which returns `Ok`, models the evident intent of `src/proxy/vmess.rs:213-216`, not what the program does. `copy_bidirectional` shuts down the client stream once the upstream reaches its end, and returns `Ok` only after both directions are shut down. `VmessStream::poll_shutdown` is `unimplemented!()` (`src/proxy/vmess.rs:290-292`). So in the source every copy that reaches the upstream's end panics, and no copy returns `Ok`. The same holds for the TCP outcome of `Vmess.VmessStream.Relay` and `Vmess.VmessStream.Process`.
- Vmess.VmessStream.Process: on the TCP path it states neither the bytes the stream reads nor the messages it sends after the response header, because `copy_bidirectional` is an oracle; only that earlier messages stay as they were. The datagram path does not restate the read position; `RelayDatagram` states it.
- Send failures: whether `send_with_bytes` succeeds is an oracle indexed by the number of messages already sent, so any send may fail; why it fails (a closed socket, a full buffer) is not modelled.
- A debug build panics when `header_length + 16` overflows `u16`; the model follows a release build, which wraps (`VmessHeader.CommandReadLength`).
- Vmess.VmessStream.Read: does not restate how many bytes one read hands over; `PollRead` with `PollSize` states that.
- Encryption errors (`encrypt(..)?`) cannot happen for AES-GCM with these lengths, so `seal` is total.
- The response header's tamper resistance, meaning that a bit flip makes `open` fail, is a property of GCM, not of this code.
- Worker.DisplayLink: Rust's `to_lowercase` is Unicode lower-casing, and the model uses ASCII lower-casing. They agree on this test. The only non-ASCII character whose lower case is ASCII is the Kelvin sign (to `k`), no truthy word contains `k`, and any other non-ASCII character stays non-ASCII under both.
- Worker.Link: the JSON document and its URL-safe base64 encoding are library calls, and `encode` is a parameter. Only the `vmess://` prefix and what follows it are stated.
- `Url::parse` failures of `redirect_url`, `Response::redirect` errors and header-lookup errors are not modelled: a redirect always succeeds.
- `req.url()` failing in `main` is not modelled; the host is given as an optional string.
- Logging (`console_log!`), `WebSocketPair` creation and `spawn_local` are I/O and are left out.
