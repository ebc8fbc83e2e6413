/** The TCP branch of `VmessStream::process`: the ordered list of upstream
    candidates (the decoded target, then every configured `PROXY_IP` entry),
    how each is resolved to a host and port, and the retry loop that tries
    them in turn. Connecting, waiting for the socket to open and the
    bidirectional copy are network I/O: an oracle tells the outcome of each
    attempt. */
module Upstream {
  import opened Common

  datatype Endpoint = Endpoint(host: string, port: U16)

  /** How one attempt ends: `Socket::builder().connect` fails, `opened()`
      fails, `copy_bidirectional` fails, or the copy completes. */
  datatype Attempt = ConnectErr(message: string) | NotOpen | CopyErr(message: string) | CopyOk

  /** The network, asked for the outcome of the i-th attempt at an endpoint. */
  type Network = (nat, Endpoint) -> Attempt

  // ---------------------------------------------------------------------
  // str::rsplit_once(':')

  function LastIndexOf(s: string, ch: char): (r: Option<nat>)
    ensures r.Some? ==> r.value < |s| && s[r.value] == ch && ch !in s[r.value + 1..]
    ensures r.None? ==> ch !in s
  {
    if |s| == 0 then None
    else if s[|s| - 1] == ch then Some(|s| - 1)
    else
      var r := LastIndexOf(s[..|s| - 1], ch);
      assert s == s[..|s| - 1] + [s[|s| - 1]];
      r
  }

  /** Split at the last occurrence of `sep`: the part after it never contains
      `sep`, and the two parts around `sep` give back the string. */
  function RSplitOnce(s: string, sep: char): (r: Option<(string, string)>)
    ensures r.None? <==> sep !in s
    ensures r.Some? ==> s == r.value.0 + [sep] + r.value.1 && sep !in r.value.1
  {
    match LastIndexOf(s, sep)
    case None => None
    case Some(i) =>
      assert s == s[..i] + [sep] + s[i + 1..];
      Some((s[..i], s[i + 1..]))
  }

  // ---------------------------------------------------------------------
  // str::parse::<u16>

  predicate IsDigit(ch: char) {
    '0' <= ch <= '9'
  }

  predicate AllDigits(s: string) {
    forall i :: 0 <= i < |s| ==> IsDigit(s[i])
  }

  function DigitValue(ch: char): nat
    requires IsDigit(ch)
  {
    ch as int - '0' as int
  }

  /** The value of a decimal digit string, most significant digit first. */
  function DecimalValue(s: string): nat
    requires AllDigits(s)
  {
    if s == [] then 0 else DecimalValue(s[..|s| - 1]) * 10 + DigitValue(s[|s| - 1])
  }

  /** Rust's `u16::from_str`: an optional `+`, then one or more ASCII digits
      (leading zeros allowed) whose value fits in 16 bits. Anything else,
      including the empty string, a lone `+` and a `-` sign, is an error. */
  function ParseU16(s: string): (r: Option<U16>)
    ensures r.Some? ==> |s| > 0 && s[0] != '-'
  {
    var digits := Unsigned(s);
    if |digits| == 0 || !AllDigits(digits) then None
    else if DecimalValue(digits) < 0x1_0000 then Some(DecimalValue(digits))
    else None
  }

  /** The text after an optional leading `+`. */
  function Unsigned(s: string): string {
    if |s| > 0 && s[0] == '+' then s[1..] else s
  }

  /** What `parse::<u16>` accepts and what it gives: the text after an
      optional `+` must be a non-empty run of digits whose value is below
      65536, and the result is that value. */
  lemma ParseU16Accepts(s: string)
    ensures var d := Unsigned(s);
            && (ParseU16(s).Some? <==> d != [] && AllDigits(d) && DecimalValue(d) < 0x1_0000)
            && (ParseU16(s).Some? ==> ParseU16(s).value == DecimalValue(d))
  {
  }

  /** Texts `parse::<u16>` rejects, so that the decoded port is used: the
      empty text, a lone sign, a minus sign, a non-digit, and 65536. */
  lemma ParseU16Rejects()
    ensures ParseU16("") == None && ParseU16("+") == None
    ensures ParseU16("-1") == None && ParseU16("+-1") == None
    ensures ParseU16("8o80") == None
    ensures ParseU16("65536") == None
  {
    assert !IsDigit("8o80"[1]);
    assert !IsDigit("-1"[0]) && !IsDigit("+-1"[1..][0]);
    assert DecimalValue("6553") == 6553 by {
      assert "6553"[..3] == "655" && "655"[..2] == "65" && "65"[..1] == "6" && "6"[..0] == "";
    }
    assert "65536"[..4] == "6553";
  }

  function Zeros(k: nat): (z: string)
    ensures |z| == k && AllDigits(z)
  {
    seq(k, _ => '0')
  }

  /** A leading zero does not change a digit string's value. */
  lemma {:induction false} LeadingZeroValue(d: string)
    requires AllDigits(d)
    ensures AllDigits(['0'] + d) && DecimalValue(['0'] + d) == DecimalValue(d)
  {
    if d != [] {
      LeadingZeroValue(d[..|d| - 1]);
      assert (['0'] + d)[..|d|] == ['0'] + d[..|d| - 1];
    }
  }

  lemma {:induction false} LeadingZerosValue(k: nat, d: string)
    requires AllDigits(d)
    ensures AllDigits(Zeros(k) + d) && DecimalValue(Zeros(k) + d) == DecimalValue(d)
  {
    if k > 0 {
      LeadingZerosValue(k - 1, d);
      assert Zeros(k) + d == ['0'] + (Zeros(k - 1) + d);
      LeadingZeroValue(Zeros(k - 1) + d);
    } else {
      assert Zeros(k) + d == d;
    }
  }

  /** Leading zeros are accepted: any number of them before a port printed
      in decimal still parses to that port. */
  lemma ParseU16LeadingZeros(k: nat, p: U16)
    ensures ParseU16(Zeros(k) + DecimalString(p)) == Some(p)
  {
    DecimalStringValue(p);
    LeadingZerosValue(k, DecimalString(p));
  }

  function DigitChar(d: nat): (ch: char)
    requires d < 10
    ensures IsDigit(ch) && DigitValue(ch) == d
  {
    ('0' as int + d) as char
  }

  /** The canonical decimal spelling of a number (what `format!("{}", n)`
      prints). */
  function DecimalString(n: nat): (s: string)
    ensures |s| > 0
  {
    if n < 10 then [DigitChar(n)] else DecimalString(n / 10) + [DigitChar(n % 10)]
  }

  lemma {:induction false} DecimalStringValue(n: nat)
    ensures AllDigits(DecimalString(n)) && DecimalValue(DecimalString(n)) == n
  {
    var s := DecimalString(n);
    if n >= 10 {
      DecimalStringValue(n / 10);
      assert s[..|s| - 1] == DecimalString(n / 10);
    }
  }

  /** `parse::<u16>` reads back every port printed in decimal, with or
      without a leading `+`. */
  lemma ParseU16Decimal(p: U16)
    ensures ParseU16(DecimalString(p)) == Some(p)
    ensures ParseU16("+" + DecimalString(p)) == Some(p)
  {
    DecimalStringValue(p);
    assert ("+" + DecimalString(p))[1..] == DecimalString(p);
  }

  // ---------------------------------------------------------------------
  // Candidates

  /** The candidate list `[addr] ++ proxy_ip`, in that order. */
  function Candidates(target: string, proxyIp: seq<string>): (cs: seq<string>)
    ensures |cs| == |proxyIp| + 1 && cs[0] == target && cs[1..] == proxyIp
  {
    [target] + proxyIp
  }

  /** Where a candidate connects to (the `if proxy_addr.contains(&target)`
      expression). */
  function Resolve(candidate: string, proxyIp: seq<string>, port: U16): Endpoint {
    if candidate in proxyIp then
      match RSplitOnce(candidate, ':')
      case Some((host, portText)) => Endpoint(host, ParseU16(portText).GetOr(port))
      case None => Endpoint(candidate, port)
    else Endpoint(candidate, port)
  }

  /** A candidate listed in `proxy_ip` is split at its last ':', and its port
      is the parsed suffix, or the decoded port when the suffix is not a u16.
      A listed candidate without ':' and any unlisted candidate (the decoded
      target, unless it is also listed) keep the whole string as host and the
      decoded port. */
  lemma ResolveCases(candidate: string, proxyIp: seq<string>, port: U16)
    ensures var e := Resolve(candidate, proxyIp, port);
            && (candidate !in proxyIp ==> e == Endpoint(candidate, port))
            && (':' !in candidate ==> e == Endpoint(candidate, port))
            && (candidate in proxyIp && ':' in candidate ==>
                  && |e.host| < |candidate|
                  && candidate == e.host + [':'] + candidate[|e.host| + 1..]
                  && ':' !in candidate[|e.host| + 1..]
                  && e.port == ParseU16(candidate[|e.host| + 1..]).GetOr(port))
  {
    if candidate in proxyIp {
      match RSplitOnce(candidate, ':')
      case Some((host, portText)) =>
        assert candidate[|host| + 1..] == portText;
      case None =>
    }
  }

  lemma {:induction false} LastIndexOfAfter(a: string, sep: char, b: string)
    requires sep !in b
    ensures LastIndexOf(a + [sep] + b, sep) == Some(|a|)
  {
    var s := a + [sep] + b;
    if b != [] {
      assert s[..|s| - 1] == a + [sep] + b[..|b| - 1];
      assert s[|s| - 1] == b[|b| - 1];
      LastIndexOfAfter(a, sep, b[..|b| - 1]);
    }
  }

  /** Splitting at the last separator is unique: a string put together from
      a prefix, the separator and a suffix without it splits back into those
      two parts. */
  lemma RSplitOnceOf(a: string, sep: char, b: string)
    requires sep !in b
    ensures RSplitOnce(a + [sep] + b, sep) == Some((a, b))
  {
    var s := a + [sep] + b;
    LastIndexOfAfter(a, sep, b);
    assert s[..|a|] == a && s[|a| + 1..] == b;
  }

  /** A listed `host:port` entry (port in decimal, host of any form) goes to
      that host and port. */
  lemma ResolveHostPort(host: string, p: U16, proxyIp: seq<string>, port: U16)
    requires host + ":" + DecimalString(p) in proxyIp
    ensures Resolve(host + ":" + DecimalString(p), proxyIp, port) == Endpoint(host, p)
  {
    var digits := DecimalString(p);
    DecimalStringValue(p);
    assert ':' !in digits;
    assert host + ":" + digits == host + [':'] + digits;
    RSplitOnceOf(host, ':', digits);
    ParseU16Decimal(p);
  }

  /** The endpoints the loop connects to, attempt by attempt. */
  function Endpoints(target: string, port: U16, proxyIp: seq<string>): (eps: seq<Endpoint>)
    ensures |eps| == |proxyIp| + 1
    ensures forall i :: 0 <= i < |eps| ==> eps[i] == Resolve(Candidates(target, proxyIp)[i], proxyIp, port)
  {
    var cs := Candidates(target, proxyIp);
    seq(|cs|, i requires 0 <= i < |cs| => Resolve(cs[i], proxyIp, port))
  }

  lemma DecimalString8080()
    ensures DecimalString(8080) == "8080"
  {
    assert DecimalString(8) == "8";
    assert DecimalString(80) == "80";
    assert DecimalString(808) == "808";
  }

  const ExampleProxyIp: seq<string> := ["1.2.3.4:8080", "5.6.7.8"]

  lemma ResolveExampleTarget()
    ensures Resolve("10.0.0.1", ExampleProxyIp, 80) == Endpoint("10.0.0.1", 80)
  {
    assert |"10.0.0.1"| == 8 && |ExampleProxyIp[0]| == 12 && |ExampleProxyIp[1]| == 7;
  }

  lemma ResolveExampleWithPort()
    ensures Resolve("1.2.3.4:8080", ExampleProxyIp, 80) == Endpoint("1.2.3.4", 8080)
  {
    DecimalString8080();
    assert "1.2.3.4" + ":" + DecimalString(8080) == "1.2.3.4:8080";
    ResolveHostPort("1.2.3.4", 8080, ExampleProxyIp, 80);
  }

  lemma ResolveExampleWithoutPort()
    ensures Resolve("5.6.7.8", ExampleProxyIp, 80) == Endpoint("5.6.7.8", 80)
  {
    assert ':' !in "5.6.7.8";
    ResolveCases("5.6.7.8", ExampleProxyIp, 80);
  }

  /** With the decoded target `10.0.0.1`, port 80 and `PROXY_IP` entries
      `1.2.3.4:8080` and `5.6.7.8`, the attempts go to 10.0.0.1:80,
      1.2.3.4:8080 and 5.6.7.8:80, in that order. */
  lemma CandidateOrderExample()
    ensures Endpoints("10.0.0.1", 80, ExampleProxyIp)
            == [Endpoint("10.0.0.1", 80), Endpoint("1.2.3.4", 8080), Endpoint("5.6.7.8", 80)]
  {
    var eps := Endpoints("10.0.0.1", 80, ExampleProxyIp);
    var cs := Candidates("10.0.0.1", ExampleProxyIp);
    assert cs == ["10.0.0.1", "1.2.3.4:8080", "5.6.7.8"];
    ResolveExampleTarget();
    ResolveExampleWithPort();
    ResolveExampleWithoutPort();
    assert eps[0] == Resolve(cs[0], ExampleProxyIp, 80);
    assert eps[1] == Resolve(cs[1], ExampleProxyIp, 80);
    assert eps[2] == Resolve(cs[2], ExampleProxyIp, 80);
  }

  // ---------------------------------------------------------------------
  // The retry loop

  /** The text pushed onto `errors` for a failed attempt. */
  function ErrorText(a: Attempt): string {
    match a
    case ConnectErr(m) => m
    case NotOpen => "socket not open"
    case CopyErr(m) => m
    case CopyOk => ""
  }

  /** One error entry per endpoint, in attempt order. */
  function AttemptErrors(eps: seq<Endpoint>, net: Network): (errors: seq<string>)
    ensures |errors| == |eps|
    ensures forall i :: 0 <= i < |eps| ==> errors[i] == ErrorText(net(i, eps[i]))
  {
    seq(|eps|, i requires 0 <= i < |eps| => ErrorText(net(i, eps[i])))
  }

  ghost predicate SomeCopySucceeds(eps: seq<Endpoint>, net: Network) {
    exists i :: 0 <= i < |eps| && net(i, eps[i]).CopyOk?
  }

  /** One more attempt adds its error text at the end. */
  lemma AttemptErrorsExtend(eps: seq<Endpoint>, i: nat, net: Network)
    requires i < |eps|
    ensures AttemptErrors(eps[..i + 1], net) == AttemptErrors(eps[..i], net) + [ErrorText(net(i, eps[i]))]
  {
  }

  /** One more attempt succeeds overall exactly when it or an earlier one
      completes its copy. */
  lemma SomeCopySucceedsExtend(eps: seq<Endpoint>, i: nat, net: Network)
    requires i < |eps|
    ensures SomeCopySucceeds(eps[..i + 1], net) <==> SomeCopySucceeds(eps[..i], net) || net(i, eps[i]).CopyOk?
  {
    if net(i, eps[i]).CopyOk? {
      assert eps[..i + 1][i] == eps[i];
    }
    if SomeCopySucceeds(eps[..i + 1], net) {
      var j :| 0 <= j < i + 1 && net(j, eps[..i + 1][j]).CopyOk?;
      if j < i {
        assert eps[..i][j] == eps[j];
      }
    }
    if SomeCopySucceeds(eps[..i], net) {
      var j :| 0 <= j < i && net(j, eps[..i][j]).CopyOk?;
      assert eps[..i + 1][j] == eps[j];
    }
  }

  lemma SomeCopySucceedsPrefix(eps: seq<Endpoint>, k: nat, net: Network)
    requires k <= |eps| && SomeCopySucceeds(eps[..k], net)
    ensures SomeCopySucceeds(eps, net)
  {
    var j :| 0 <= j < k && net(j, eps[..k][j]).CopyOk?;
    assert eps[..k][j] == eps[j];
  }

  lemma PrefixGrows(eps: seq<Endpoint>, i: nat)
    requires i < |eps|
    ensures eps[..i + 1] == eps[..i] + [eps[i]]
  {
  }

  /** The `for target in [...]` loop. It returns `Ok` at the first attempt
      whose copy completes, having attempted exactly the endpoints before it;
      any other outcome (a copy error too) records one entry and moves on; if
      nothing succeeds the error lists one entry per candidate, in order.
      Each candidate's `(remote_host, remote_port)` is its entry in
      `Endpoints`; resolving them all up front or one per turn is the same,
      as resolving is pure. */
  method ConnectUpstream(target: string, port: U16, proxyIp: seq<string>, net: Network)
    returns (r: Result<(), Error>, attempted: seq<Endpoint>)
    ensures 0 < |attempted| <= |proxyIp| + 1
    ensures attempted == Endpoints(target, port, proxyIp)[..|attempted|]
    ensures !SomeCopySucceeds(attempted[..|attempted| - 1], net)
    ensures r.Ok? <==> net(|attempted| - 1, attempted[|attempted| - 1]).CopyOk?
    ensures r.Ok? <==> SomeCopySucceeds(Endpoints(target, port, proxyIp), net)
    ensures r.Err? ==> |attempted| == |proxyIp| + 1
    ensures r.Err? ==> r.error == AllTcpAttemptsFailed(AttemptErrors(Endpoints(target, port, proxyIp), net))
  {
    var eps := Endpoints(target, port, proxyIp);
    var errors: seq<string> := [];
    attempted := [];
    for i := 0 to |eps|
      invariant attempted == eps[..i]
      invariant errors == AttemptErrors(eps[..i], net)
      invariant !SomeCopySucceeds(eps[..i], net)
    {
      var endpoint := eps[i];
      ghost var before := attempted;
      attempted := attempted + [endpoint];
      PrefixGrows(eps, i);
      SomeCopySucceedsExtend(eps, i, net);
      var outcome := net(i, endpoint);
      if outcome.CopyOk? {
        assert attempted[..|attempted| - 1] == before;
        SomeCopySucceedsPrefix(eps, i + 1, net);
        return Ok(()), attempted;
      }
      var text := ErrorText(outcome);
      AttemptErrorsExtend(eps, i, net);
      errors := errors + [text];
    }
    assert eps[..|eps|] == eps;
    assert attempted[..|attempted| - 1] == eps[..|eps| - 1];
    SomeCopySucceedsExtend(eps, |eps| - 1, net);
    r := Err(AllTcpAttemptsFailed(errors));
  }
}
