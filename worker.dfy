/** The Worker entry points of `src/lib.rs`: how `main` turns the
    environment's variables into a `Config`, and the two routes, `tunnel`
    ("/") and `link` ("/link"). The WebSocket itself, URL parsing, JSON and
    base64 are library calls and appear as parameters or not at all. */
module Worker {
  import opened Common
  import opened Configuration

  // ---------------------------------------------------------------------
  // Characters

  /** `char::is_ascii_whitespace`: space, tab, line feed, form feed and
      carriage return (not the vertical tab). */
  predicate IsAsciiWhitespace(ch: char) {
    ch == ' ' || ch == '\t' || ch == '\n' || ch == '\r' || ch as int == 0x0C
  }

  /** `char::is_whitespace`, which `str::trim` strips: the Unicode
      White_Space property. */
  predicate IsWhitespace(ch: char) {
    var n := ch as int;
    || (0x09 <= n <= 0x0D) || n == 0x20 || n == 0x85 || n == 0xA0 || n == 0x1680
    || (0x2000 <= n <= 0x200A) || n == 0x2028 || n == 0x2029 || n == 0x202F
    || n == 0x205F || n == 0x3000
  }

  /** The `PROXY_IP` split pattern. */
  predicate IsSeparator(ch: char) {
    IsAsciiWhitespace(ch) || ch == ','
  }

  predicate NoSeparator(s: string) {
    forall i :: 0 <= i < |s| ==> !IsSeparator(s[i])
  }

  /** `char::to_ascii_lowercase`. */
  function AsciiLowerChar(ch: char): char {
    if 'A' <= ch <= 'Z' then (ch as int + 32) as char else ch
  }

  function AsciiUpperChar(ch: char): char {
    if 'a' <= ch <= 'z' then (ch as int - 32) as char else ch
  }

  /** `str::to_ascii_lowercase`. */
  function AsciiLower(s: string): (t: string)
    ensures |t| == |s| && forall i :: 0 <= i < |s| ==> t[i] == AsciiLowerChar(s[i])
  {
    seq(|s|, i requires 0 <= i < |s| => AsciiLowerChar(s[i]))
  }

  // ---------------------------------------------------------------------
  // `str::split` on a character predicate

  /** `s.split(|c| c.is_ascii_whitespace() || c == ',')`: the pieces between
      separators, empty pieces included; the empty string is one empty
      piece. */
  function Split(s: string): (parts: seq<string>)
    ensures |parts| >= 1
    decreases |s|
  {
    if s == [] then [[]]
    else
      var rest := Split(s[1..]);
      if IsSeparator(s[0]) then [[]] + rest
      else [[s[0]] + rest[0]] + rest[1..]
  }

  /** No piece contains a separator. */
  lemma {:induction false} SplitPieces(s: string)
    ensures forall k :: 0 <= k < |Split(s)| ==> NoSeparator(Split(s)[k])
    decreases |s|
  {
    if s != [] {
      SplitPieces(s[1..]);
    }
  }

  function Concat(parts: seq<string>): string {
    if parts == [] then [] else parts[0] + Concat(parts[1..])
  }

  function WithoutSeparators(s: string): string {
    if s == [] then []
    else (if IsSeparator(s[0]) then [] else [s[0]]) + WithoutSeparators(s[1..])
  }

  lemma {:induction false} ConcatAppend(a: seq<string>, b: seq<string>)
    ensures Concat(a + b) == Concat(a) + Concat(b)
  {
    if a == [] {
      assert a + b == b;
    } else {
      assert (a + b)[0] == a[0] && (a + b)[1..] == a[1..] + b;
      ConcatAppend(a[1..], b);
    }
  }

  /** Splitting loses the separators and nothing else: the pieces, put back
      together, are the input with its separators taken out. */
  lemma {:induction false} SplitKeepsText(s: string)
    ensures Concat(Split(s)) == WithoutSeparators(s)
    decreases |s|
  {
    if s != [] {
      var rest := Split(s[1..]);
      SplitKeepsText(s[1..]);
      if IsSeparator(s[0]) {
        assert Split(s)[1..] == rest;
      } else {
        assert Split(s)[1..] == rest[1..];
        assert rest == [rest[0]] + rest[1..];
        ConcatAppend([rest[0]], rest[1..]);
      }
    }
  }

  /** A string without separators is one piece. */
  lemma {:induction false} SplitWhole(x: string)
    requires NoSeparator(x)
    ensures Split(x) == [x]
    decreases |x|
  {
    if x != [] {
      SplitWhole(x[1..]);
      assert [x[0]] + x[1..] == x;
    }
  }

  /** One separator splits the input in two independent halves: the pieces
      of `a`, then the pieces of `b`. */
  lemma {:induction false} SplitAtSeparator(a: string, sep: char, b: string)
    requires IsSeparator(sep)
    ensures Split(a + [sep] + b) == Split(a) + Split(b)
    decreases |a|
  {
    var s := a + [sep] + b;
    if a == [] {
      assert s[1..] == b;
    } else {
      assert s[0] == a[0];
      assert s[1..] == a[1..] + [sep] + b;
      SplitAtSeparator(a[1..], sep, b);
    }
  }

  // ---------------------------------------------------------------------
  // `str::trim`

  /** `str::trim_start`: drops the leading whitespace. */
  function TrimStart(s: string): string
    decreases |s|
  {
    if s != [] && IsWhitespace(s[0]) then TrimStart(s[1..]) else s
  }

  /** What `trim_start` leaves is a suffix that does not start with
      whitespace, and everything it dropped is whitespace. */
  lemma {:induction false} TrimStartSuffix(s: string)
    ensures var t := TrimStart(s);
            && |t| <= |s| && t == s[|s| - |t|..]
            && (forall i :: 0 <= i < |s| - |t| ==> IsWhitespace(s[i]))
            && (t == [] || !IsWhitespace(t[0]))
    decreases |s|
  {
    if s != [] && IsWhitespace(s[0]) {
      TrimStartSuffix(s[1..]);
    }
  }

  /** `str::trim_end`: drops the trailing whitespace. */
  function TrimEnd(s: string): string
    decreases |s|
  {
    if s != [] && IsWhitespace(s[|s| - 1]) then TrimEnd(s[..|s| - 1]) else s
  }

  /** What `trim_end` leaves is a prefix that does not end with whitespace,
      and everything it dropped is whitespace. */
  lemma {:induction false} TrimEndPrefix(s: string)
    ensures var t := TrimEnd(s);
            && |t| <= |s| && t == s[..|t|]
            && (forall i :: |t| <= i < |s| ==> IsWhitespace(s[i]))
            && (t == [] || !IsWhitespace(t[|t| - 1]))
    decreases |s|
  {
    if s != [] && IsWhitespace(s[|s| - 1]) {
      TrimEndPrefix(s[..|s| - 1]);
      var t := TrimEnd(s);
      assert s[..|s| - 1][..|t|] == s[..|t|];
    }
  }

  /** `str::trim`. */
  function Trim(s: string): string {
    TrimEnd(TrimStart(s))
  }

  /** `trim` gives the slice of `s` between its leading and its trailing
      whitespace: that slice has no whitespace at either end, and what lies
      outside it is all whitespace. */
  lemma TrimSlice(s: string)
    ensures var a := |s| - |TrimStart(s)|;
            var t := Trim(s);
            && 0 <= a && a + |t| <= |s| && t == s[a..a + |t|]
            && (forall i :: 0 <= i < a ==> IsWhitespace(s[i]))
            && (forall i :: a + |t| <= i < |s| ==> IsWhitespace(s[i]))
            && (t == [] || (!IsWhitespace(t[0]) && !IsWhitespace(t[|t| - 1])))
  {
    var u := TrimStart(s);
    TrimStartSuffix(s);
    TrimEndPrefix(u);
    var a := |s| - |u|;
    var t := Trim(s);
    assert u[..|t|] == s[a..a + |t|];
    forall i | a + |t| <= i < |s|
      ensures IsWhitespace(s[i])
    {
      assert s[i] == u[i - a];
    }
  }

  /** Trimming adds no separator. */
  lemma TrimKeepsNoSeparator(s: string)
    requires NoSeparator(s)
    ensures NoSeparator(Trim(s))
  {
    TrimSlice(s);
    var a := |s| - |TrimStart(s)|;
    var t := Trim(s);
    forall i | 0 <= i < |t|
      ensures !IsSeparator(t[i])
    {
      assert t[i] == s[a + i];
    }
  }

  /** A string that neither starts nor ends with whitespace is its own
      trim; in particular `Trim` is idempotent. */
  lemma TrimmedIsFixed(s: string)
    requires s == [] || (!IsWhitespace(s[0]) && !IsWhitespace(s[|s| - 1]))
    ensures Trim(s) == s
  {
  }

  // ---------------------------------------------------------------------
  // `PROXY_IP`

  /** What the tokeniser produces: non-empty, free of separators, and with
      nothing for `trim` to remove. */
  predicate IsEntry(e: string) {
    e != [] && NoSeparator(e) && Trim(e) == e
  }

  /** A trimmed piece is empty or an entry. */
  lemma TrimPiece(piece: string)
    requires NoSeparator(piece)
    ensures Trim(piece) == [] || IsEntry(Trim(piece))
  {
    TrimSlice(piece);
    TrimKeepsNoSeparator(piece);
    TrimmedIsFixed(Trim(piece));
  }

  /** `.filter_map(|s| { let t = s.trim(); if t.is_empty() { None } else { Some(t) } })`. */
  function Keep(pieces: seq<string>): (entries: seq<string>)
    ensures |entries| <= |pieces|
  {
    if pieces == [] then []
    else
      var t := Trim(pieces[0]);
      (if t == [] then [] else [t]) + Keep(pieces[1..])
  }

  /** Pieces without separators become entries. */
  lemma {:induction false} KeepEntries(pieces: seq<string>)
    requires forall k :: 0 <= k < |pieces| ==> NoSeparator(pieces[k])
    ensures forall k :: 0 <= k < |Keep(pieces)| ==> IsEntry(Keep(pieces)[k])
  {
    if pieces != [] {
      TrimPiece(pieces[0]);
      KeepEntries(pieces[1..]);
    }
  }

  lemma {:induction false} KeepAppend(a: seq<string>, b: seq<string>)
    ensures Keep(a + b) == Keep(a) + Keep(b)
  {
    if a == [] {
      assert a + b == b;
    } else {
      assert (a + b)[0] == a[0] && (a + b)[1..] == a[1..] + b;
      KeepAppend(a[1..], b);
    }
  }

  /** The `PROXY_IP` value as a list of upstream addresses. */
  function Tokenise(s: string): seq<string> {
    Keep(Split(s))
  }

  /** Every token is non-empty, free of separators and trimmed. */
  lemma TokeniseEntries(s: string)
    ensures forall k :: 0 <= k < |Tokenise(s)| ==> IsEntry(Tokenise(s)[k])
  {
    SplitPieces(s);
    KeepEntries(Split(s));
  }

  /** `env.var("PROXY_IP").ok().map(tokenise).unwrap_or_default()`. */
  function ProxyIpList(v: Option<string>): (entries: seq<string>)
    ensures v.None? ==> entries == []
    ensures forall k :: 0 <= k < |entries| ==> IsEntry(entries[k])
  {
    match v
    case None => []
    case Some(s) =>
      TokeniseEntries(s);
      Tokenise(s)
  }

  /** Entries keep their order: the tokens of two parts joined by a
      separator are the tokens of the left part followed by those of the
      right part. */
  lemma TokeniseAtSeparator(a: string, sep: char, b: string)
    requires IsSeparator(sep)
    ensures Tokenise(a + [sep] + b) == Tokenise(a) + Tokenise(b)
  {
    SplitAtSeparator(a, sep, b);
    KeepAppend(Split(a), Split(b));
  }

  /** The empty string gives no entries. */
  lemma TokeniseEmpty()
    ensures Tokenise("") == []
  {
    assert Split("") == [""];
  }

  predicate AllWhitespace(s: string) {
    forall i :: 0 <= i < |s| ==> IsWhitespace(s[i])
  }

  /** Text made only of separators and whitespace. */
  predicate Blank(s: string) {
    forall i :: 0 <= i < |s| ==> IsSeparator(s[i]) || IsWhitespace(s[i])
  }

  /** Whitespace alone trims to nothing. */
  lemma TrimBlank(s: string)
    requires AllWhitespace(s)
    ensures Trim(s) == []
  {
    TrimStartSuffix(s);
    assert TrimStart(s) == [];
  }

  /** The pieces of blank text are whitespace alone. */
  lemma {:induction false} SplitBlank(s: string)
    requires Blank(s)
    ensures forall k :: 0 <= k < |Split(s)| ==> AllWhitespace(Split(s)[k])
    decreases |s|
  {
    if s != [] {
      assert Blank(s[1..]);
      SplitBlank(s[1..]);
    }
  }

  /** Whitespace-only pieces give no entries. */
  lemma {:induction false} KeepBlank(pieces: seq<string>)
    requires forall k :: 0 <= k < |pieces| ==> AllWhitespace(pieces[k])
    ensures Keep(pieces) == []
  {
    if pieces != [] {
      TrimBlank(pieces[0]);
      KeepBlank(pieces[1..]);
    }
  }

  /** Nothing but separators and whitespace gives no entries. */
  lemma TokeniseBlank(s: string)
    requires Blank(s)
    ensures Tokenise(s) == []
  {
    SplitBlank(s);
    KeepBlank(Split(s));
  }

  /** A single well-formed entry tokenises to itself. */
  lemma TokeniseEntry(e: string)
    requires IsEntry(e)
    ensures Tokenise(e) == [e]
  {
    SplitWhole(e);
    assert Keep([e]) == [e] + Keep([]);
  }

  /** `entries.join(",")`. */
  function Join(entries: seq<string>): string {
    if entries == [] then []
    else if |entries| == 1 then entries[0]
    else entries[0] + [','] + Join(entries[1..])
  }

  /** Tokenising a comma-join of entries gives the entries back. */
  lemma {:induction false} TokeniseJoin(entries: seq<string>)
    requires forall k :: 0 <= k < |entries| ==> IsEntry(entries[k])
    ensures Tokenise(Join(entries)) == entries
  {
    if entries == [] {
      assert Split([]) == [[]];
    } else if |entries| == 1 {
      TokeniseEntry(entries[0]);
    } else {
      TokeniseAtSeparator(entries[0], ',', Join(entries[1..]));
      TokeniseEntry(entries[0]);
      TokeniseJoin(entries[1..]);
    }
  }

  /** The tokeniser is idempotent: re-tokenising the comma-join of its
      output reproduces the output. */
  lemma TokeniseIdempotent(s: string)
    ensures Tokenise(Join(Tokenise(s))) == Tokenise(s)
  {
    TokeniseEntries(s);
    TokeniseJoin(Tokenise(s));
  }

  /** A leading separator is ignored. */
  lemma TokeniseLeadingSeparator(sep: char, s: string)
    requires IsSeparator(sep)
    ensures Tokenise([sep] + s) == Tokenise(s)
  {
    var t := [sep] + s;
    assert t[0] == sep && t[1..] == s;
    assert Split(t) == [[]] + Split(s);
    assert Trim([]) == [];
    assert ([[]] + Split(s))[1..] == Split(s);
  }

  lemma SplitTrailingSeparator(sep: char, s: string)
    requires IsSeparator(sep)
    ensures Split(s + [sep]) == Split(s) + [[]]
  {
    SplitAtSeparator(s, sep, []);
    assert s + [sep] + [] == s + [sep];
  }

  lemma KeepTrailingEmpty(pieces: seq<string>)
    ensures Keep(pieces + [[]]) == Keep(pieces)
  {
    KeepAppend(pieces, [[]]);
    assert Trim([]) == [];
  }

  /** A trailing separator is ignored. */
  lemma TokeniseTrailingSeparator(sep: char, s: string)
    requires IsSeparator(sep)
    ensures Tokenise(s + [sep]) == Tokenise(s)
  {
    SplitTrailingSeparator(sep, s);
    KeepTrailingEmpty(Split(s));
  }

  /** Any number of leading separators are ignored. */
  lemma {:induction false} TokeniseLeadingRun(run: string, s: string)
    requires forall i :: 0 <= i < |run| ==> IsSeparator(run[i])
    ensures Tokenise(run + s) == Tokenise(s)
  {
    if run == [] {
      assert run + s == s;
    } else {
      TokeniseLeadingRun(run[1..], s);
      assert run + s == [run[0]] + (run[1..] + s);
      TokeniseLeadingSeparator(run[0], run[1..] + s);
    }
  }

  /** A run of separators, of any kind, reads as one. */
  lemma TokeniseSeparatorRun(a: string, run: string, b: string)
    requires |run| > 0 && forall i :: 0 <= i < |run| ==> IsSeparator(run[i])
    ensures Tokenise(a + run + b) == Tokenise(a) + Tokenise(b)
  {
    assert a + run + b == a + [run[0]] + (run[1..] + b);
    TokeniseAtSeparator(a, run[0], run[1..] + b);
    TokeniseLeadingRun(run[1..], b);
  }

  /** Separators in any number and any mix, with whitespace around them,
      read the same as a single comma. */
  lemma TokeniseMixedSeparators(x: string, y: string)
    requires IsEntry(x) && IsEntry(y)
    ensures Tokenise([' '] + x + [',', ',', ' ', '\t'] + y + ['\n']) == [x] + [y]
  {
    var middle := x + [',', ',', ' ', '\t'] + y;
    TokeniseSeparatorRun(x, [',', ',', ' ', '\t'], y);
    TokeniseEntry(x);
    TokeniseEntry(y);
    TokeniseLeadingSeparator(' ', middle + ['\n']);
    TokeniseTrailingSeparator('\n', middle);
    assert [' '] + x + [',', ',', ' ', '\t'] + y + ['\n'] == [' '] + (middle + ['\n']);
  }

  // ---------------------------------------------------------------------
  // `REDIRECT_URL` and `ENABLED_LINK`

  const DefaultRedirectUrl: string := "https://example.com"

  /** `env.var("REDIRECT_URL").map(..).unwrap_or_else(|_| "https://example.com")`. */
  function RedirectUrl(v: Option<string>): (url: string)
    ensures v.None? ==> url == "https://example.com"
    ensures v.Some? ==> url == v.value
  {
    v.GetOr(DefaultRedirectUrl)
  }

  const TruthyValues: seq<string> := ["true", "1", "yes", "on"]

  /** `ENABLED_LINK`: its lower-cased value is one of the truthy words; an
      absent variable means false. */
  function DisplayLink(v: Option<string>): bool {
    v.Some? && AsciiLower(v.value) in TruthyValues
  }

  /** `s` is `w` with any of its letters written in upper case. */
  predicate CaseVariant(s: string, w: string) {
    |s| == |w| && forall i :: 0 <= i < |s| ==> s[i] == w[i] || s[i] == AsciiUpperChar(w[i])
  }

  predicate IsLowerWord(w: string) {
    forall i :: 0 <= i < |w| ==> 'a' <= w[i] <= 'z' || '0' <= w[i] <= '9'
  }

  /** Comparing the lower-cased value with a lower-case word accepts
      exactly the case variants of that word. */
  lemma LowerEqualsCaseVariant(s: string, w: string)
    requires IsLowerWord(w)
    ensures AsciiLower(s) == w <==> CaseVariant(s, w)
  {
    if CaseVariant(s, w) {
      forall i | 0 <= i < |s|
        ensures AsciiLower(s)[i] == w[i]
      {
        assert s[i] == w[i] || s[i] == AsciiUpperChar(w[i]);
      }
    }
    if AsciiLower(s) == w {
      forall i | 0 <= i < |s|
        ensures s[i] == w[i] || s[i] == AsciiUpperChar(w[i])
      {
        assert AsciiLowerChar(s[i]) == w[i];
      }
    }
  }

  /** `display_link` holds exactly for the case variants of "true", "1",
      "yes" and "on". */
  lemma DisplayLinkCases(v: Option<string>)
    ensures DisplayLink(v) <==>
              v.Some? && (CaseVariant(v.value, "true") || CaseVariant(v.value, "1")
                          || CaseVariant(v.value, "yes") || CaseVariant(v.value, "on"))
  {
    if v.Some? {
      LowerEqualsCaseVariant(v.value, "true");
      LowerEqualsCaseVariant(v.value, "1");
      LowerEqualsCaseVariant(v.value, "yes");
      LowerEqualsCaseVariant(v.value, "on");
    }
  }

  lemma DisplayLinkExamples()
    ensures DisplayLink(Some("TRUE")) && DisplayLink(Some("Yes")) && DisplayLink(Some("oN"))
    ensures !DisplayLink(None) && !DisplayLink(Some("enabled")) && !DisplayLink(Some(" true"))
  {
    DisplayLinkCases(Some("TRUE"));
    DisplayLinkCases(Some("Yes"));
    DisplayLinkCases(Some("oN"));
    DisplayLinkCases(Some("enabled"));
    DisplayLinkCases(Some(" true"));
  }

  // ---------------------------------------------------------------------
  // `main`: the environment to a `Config`

  /** The Worker's environment variables. */
  type Env = map<string, string>

  function Var(env: Env, name: string): Option<string> {
    if name in env then Some(env[name]) else None
  }

  /** Why `main` gives up before routing. */
  datatype ConfigError = UuidRequired | InvalidUuid

  /** `main` up to the router: `UUID` is required and must parse
      (`parseUuid` stands for `Uuid::from_str`); the other variables have
      defaults. `host` is the request URL's host, if it has one. */
  function LoadConfig(env: Env, parseUuid: string -> Option<Uuid>, host: Option<string>): (r: Result<Config, ConfigError>)
    ensures "UUID" !in env ==> r == Err(UuidRequired)
    ensures "UUID" in env && parseUuid(env["UUID"]).None? ==> r == Err(InvalidUuid)
    ensures r.Ok? <==> "UUID" in env && parseUuid(env["UUID"]).Some?
    ensures r.Ok? ==>
              && r.value.uuid == parseUuid(env["UUID"]).value
              && r.value.host == host.GetOr("")
              && r.value.proxyIp == ProxyIpList(Var(env, "PROXY_IP"))
              && r.value.redirectUrl == RedirectUrl(Var(env, "REDIRECT_URL"))
              && r.value.displayLink == DisplayLink(Var(env, "ENABLED_LINK"))
    ensures r.Ok? ==> forall k :: 0 <= k < |r.value.proxyIp| ==> IsEntry(r.value.proxyIp[k])
  {
    match Var(env, "UUID")
    case None => Err(UuidRequired)
    case Some(text) =>
      match parseUuid(text)
      case None => Err(InvalidUuid)
      case Some(uuid) =>
        Ok(Config(uuid, host.GetOr(""), ProxyIpList(Var(env, "PROXY_IP")),
                  RedirectUrl(Var(env, "REDIRECT_URL")), DisplayLink(Var(env, "ENABLED_LINK"))))
  }

  /** A minimal environment: only `UUID`, so every default applies. */
  lemma LoadConfigDefaults(uuidText: string, parseUuid: string -> Option<Uuid>)
    requires parseUuid(uuidText).Some?
    ensures var r := LoadConfig(map["UUID" := uuidText], parseUuid, None);
            && r.Ok?
            && r.value.proxyIp == [] && r.value.redirectUrl == "https://example.com"
            && !r.value.displayLink && r.value.host == ""
  {
  }

  // ---------------------------------------------------------------------
  // Routes

  /** What a route answers with. */
  datatype Response =
    | WebSocketUpgrade      // 101: the VMess stream runs on the server half
    | Redirect(url: string) // 302 to the configured URL
    | LinkJson(link: string) // `{"link": .., "description": ..}`

  const WebSocketToken: string := "websocket"

  /** `tunnel`: an `Upgrade` header whose ASCII-lower-cased value is
      "websocket" gets the WebSocket; every other request is redirected. */
  function Tunnel(upgrade: Option<string>, config: Config): Response {
    if upgrade.Some? && AsciiLower(upgrade.value) == WebSocketToken then WebSocketUpgrade
    else Redirect(config.redirectUrl)
  }

  /** The upgrade test ignores letter case and nothing else. */
  lemma TunnelCases(upgrade: Option<string>, config: Config)
    ensures Tunnel(upgrade, config) == WebSocketUpgrade <==> upgrade.Some? && CaseVariant(upgrade.value, "websocket")
    ensures Tunnel(upgrade, config) != WebSocketUpgrade ==> Tunnel(upgrade, config) == Redirect(config.redirectUrl)
  {
    if upgrade.Some? {
      LowerEqualsCaseVariant(upgrade.value, "websocket");
    }
  }

  lemma TunnelExamples(config: Config)
    ensures Tunnel(Some("WebSocket"), config) == WebSocketUpgrade
    ensures Tunnel(Some("h2c"), config) == Redirect(config.redirectUrl)
    ensures Tunnel(None, config) == Redirect(config.redirectUrl)
  {
    TunnelCases(Some("WebSocket"), config);
    TunnelCases(Some("h2c"), config);
  }

  const LinkScheme: string := "vmess://"

  /** `link`: the client configuration, or a redirect when links are
      switched off. `encode` stands for the JSON document of host and UUID
      in URL-safe base64. */
  function Link(config: Config, encode: (string, Uuid) -> string): (r: Response)
    ensures !config.displayLink ==> r == Redirect(config.redirectUrl)
    ensures config.displayLink ==>
              r.LinkJson? && |r.link| >= 8 && r.link[..8] == "vmess://"
              && r.link[8..] == encode(config.host, config.uuid)
  {
    if !config.displayLink then Redirect(config.redirectUrl)
    else LinkJson(LinkScheme + encode(config.host, config.uuid))
  }
}
