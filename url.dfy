/** A simplified model of Go's net/url: how url.Parse splits text into the fields of
    a url.URL, and how URL.String puts them back together. Components other than
    the host are kept as written (still escaped), and url.Parse only checks that
    their escapes are well formed; the host is unescaped when parsed and escaped
    again when written. */
module Url {
  import opened Wrappers
  import opened Text
  import opened Escape

  /** url.URL. `user` is the user information before the last `@` of the authority
      (nil in Go when there is none). */
  datatype Url = Url(
    scheme: string,
    opaquePart: string,
    user: Option<string>,
    host: string,
    path: string,
    omitHost: bool,
    forceQuery: bool,
    rawQuery: string,
    fragment: string)

  /** The reasons url.Parse fails. */
  datatype ParseError =
    | MissingScheme        // the text starts with ':'
    | ControlCharacter     // an ASCII control character before the fragment
    | InvalidEscape        // a '%' not followed by two hexadecimal digits
    | ColonInFirstSegment  // a relative reference whose first segment holds ':'
    | InvalidUserinfo      // a character user information may not contain
    | InvalidHost          // an ASCII character a host may not hold unescaped
    | NonUtf8Host          // host escapes that do not decode as UTF-8

  predicate IsAlpha(c: char) {
    'a' <= c <= 'z' || 'A' <= c <= 'Z'
  }

  predicate IsSchemeChar(c: char) {
    IsAlpha(c) || '0' <= c <= '9' || c == '+' || c == '-' || c == '.'
  }

  /** A scheme as RFC 3986 section 3.1 writes it: a letter, then letters, digits,
      `+`, `-` and `.`. */
  predicate IsSchemeName(s: string) {
    |s| > 0 && IsAlpha(s[0]) && forall i :: 0 <= i < |s| ==> IsSchemeChar(s[i])
  }

  /** A scheme name in lower case, as url.Parse stores it. */
  predicate IsLowerSchemeName(s: string) {
    IsSchemeName(s) && forall i :: 0 <= i < |s| ==> !('A' <= s[i] <= 'Z')
  }

  /** The scan of getScheme in net/url, from position `i` on. */
  function SchemeScan(raw: string, i: nat): (r: Result<(string, string), ParseError>)
    requires i <= |raw|
    requires forall j :: 0 <= j < i ==> IsSchemeChar(raw[j])
    requires i > 0 ==> IsAlpha(raw[0])
    ensures r.Err? ==> i == 0 && HasPrefix(raw, ":") && r.error == MissingScheme
    ensures r.Ok? ==>
      (r.value.0 == "" && r.value.1 == raw) || (IsSchemeName(r.value.0) && raw == r.value.0 + ":" + r.value.1)
    decreases |raw| - i
  {
    if i == |raw| then Ok(("", raw))
    else
      var c := raw[i];
      if IsAlpha(c) then SchemeScan(raw, i + 1)
      else if '0' <= c <= '9' || c == '+' || c == '-' || c == '.' then
        if i == 0 then Ok(("", raw)) else SchemeScan(raw, i + 1)
      else if c == ':' then
        if i == 0 then Err(MissingScheme)
        else
          assert raw == raw[..i] + ":" + raw[i + 1..];
          Ok((raw[..i], raw[i + 1..]))
      else Ok(("", raw))
  }

  /** getScheme: the scheme in front of the first ':' if everything before it can
      be a scheme, otherwise no scheme at all; a leading ':' is an error. */
  function GetScheme(raw: string): (r: Result<(string, string), ParseError>)
    ensures r.Err? <==> HasPrefix(raw, ":")
    ensures r.Ok? ==>
      (r.value.0 == "" && r.value.1 == raw) || (IsSchemeName(r.value.0) && raw == r.value.0 + ":" + r.value.1)
  {
    SchemeScan(raw, 0)
  }

  /** validUserinfo in net/url. */
  predicate ValidUserinfo(s: string) {
    forall i :: 0 <= i < |s| ==> UserinfoChar(s[i])
  }

  predicate UserinfoChar(c: char) {
    'a' <= c <= 'z' || 'A' <= c <= 'Z' || '0' <= c <= '9' || c in "-._:~!$&'()*+,;=%@"
  }

  // ---------------------------------------------------------------------------
  // Host escaping: escape and unescape of net/url in encodeHost mode

  /** The ASCII characters URL.String leaves unescaped in a host: letters, digits,
      `-`, `_`, `.`, `~`, the sub-delimiters of RFC 3986 section 3.2.2, `:` before a
      port, `[` and `]` around an IPv6 literal, and `<`, `>` and `"`. */
  predicate HostSafe(c: char) {
    || 'a' <= c <= 'z' || 'A' <= c <= 'Z' || '0' <= c <= '9'
    || '&' <= c <= '.'  // & ' ( ) * + , - .
    || ':' <= c <= '>'  // : ; < = >
    || c == '!' || c == '"' || c == '$' || c == '[' || c == ']' || c == '_' || c == '~'
  }

  /** A character url.Parse can leave in a host: anything outside ASCII, `%` (read
      from `%25`), and the ASCII characters of HostSafe. */
  predicate HostChar(c: char) {
    c as int >= 0x80 || c == '%' || HostSafe(c)
  }

  /** A host as url.Parse stores it, unescaped. */
  predicate StoredHost(h: string) {
    forall i :: 0 <= i < |h| ==> HostChar(h[i])
  }

  /** Written host text: HostSafe characters and escapes. */
  predicate HostText(w: string) {
    (forall i :: 0 <= i < |w| ==> HostSafe(w[i]) || w[i] == '%') && ValidEscapes(w)
  }

  function EscapeHostChar(c: char): string {
    if HostSafe(c) then [c] else EscapeBytes(Utf8(c))
  }

  /** escape in encodeHost mode, as URL.String writes the host: each UTF-8 byte of a
      character outside HostSafe becomes `%XX`. */
  function EscapeHost(h: string): (w: string)
    ensures |h| <= |w|
    decreases |h|
  {
    if h == [] then "" else EscapeHostChar(h[0]) + EscapeHost(h[1..])
  }

  /** URL.String writes a host as host text. */
  lemma {:induction false} EscapeHostText(h: string)
    ensures HostText(EscapeHost(h))
    decreases |h|
  {
    if h != [] {
      var head, tail := EscapeHostChar(h[0]), EscapeHost(h[1..]);
      EscapeHostText(h[1..]);
      if HostSafe(h[0]) {
        assert (head + tail)[1..] == tail;
      } else {
        EscapeBytesHostText(Utf8(h[0]), tail);
      }
    } else {
      assert ValidEscapes("");
    }
  }

  lemma {:induction false} EscapeBytesHostText(bs: seq<byte>, rest: string)
    requires HostText(rest)
    ensures HostText(EscapeBytes(bs) + rest)
    decreases |bs|
  {
    if bs != [] {
      var s := EscapeBytes(bs) + rest;
      assert s[3..] == EscapeBytes(bs[1..]) + rest;
      EscapeBytesHostText(bs[1..], rest);
    } else {
      assert EscapeBytes(bs) + rest == rest;
    }
  }

  function PrependOk(p: seq<byte>, r: Result<seq<byte>, ParseError>): Result<seq<byte>, ParseError> {
    match r
    case Err(e) => Err(e)
    case Ok(t) => Ok(p + t)
  }

  /** unescape in encodeHost mode, as url.Parse reads a host, left to right: `%`
      must be followed by two hexadecimal digits and, unless it is `%25`, stand for a
      byte outside ASCII; an ASCII character outside HostSafe may not appear
      unescaped. The first offence decides the error. */
  function UnescapeHostBytes(w: string): (r: Result<seq<byte>, ParseError>)
    ensures r.Ok? && w != [] ==> r.value != []
    decreases |w|
  {
    if w == [] then Ok([])
    else if w[0] == '%' then
      if |w| < 3 || !IsHex(w[1]) || !IsHex(w[2]) then Err(InvalidEscape)
      else if Unhex(w[1]) < 8 && w[..3] != "%25" then Err(InvalidEscape)
      else PrependOk([Unhex(w[1]) * 16 + Unhex(w[2])], UnescapeHostBytes(w[3..]))
    else if w[0] as int < 0x80 && !HostSafe(w[0]) then Err(InvalidHost)
    else PrependOk(Utf8(w[0]), UnescapeHostBytes(w[1..]))
  }

  /** The host url.Parse stores for written host text. */
  function UnescapeHost(w: string): (r: Result<string, ParseError>)
    ensures r.Ok? ==> StoredHost(r.value)
    ensures r.Ok? && r.value == "" ==> w == ""
  {
    match UnescapeHostBytes(w)
    case Err(e) => Err(e)
    case Ok(b) =>
      match Utf8Decode(b)
      case None => Err(NonUtf8Host)
      case Some(h) =>
        UnescapeHostBytesChars(w);
        DecodeHostChars(b, h);
        Ok(h)
  }

  /** Every byte an accepted host text stands for is outside ASCII, `%`, or HostSafe. */
  lemma {:induction false} UnescapeHostBytesChars(w: string)
    ensures UnescapeHostBytes(w).Ok? ==>
      forall j :: 0 <= j < |UnescapeHostBytes(w).value| ==> HostChar(UnescapeHostBytes(w).value[j] as char)
    decreases |w|
  {
    if w != [] && UnescapeHostBytes(w).Ok? {
      if w[0] == '%' {
        UnescapeHostBytesChars(w[3..]);
        if Unhex(w[1]) < 8 {
          assert w[1] == '2' && w[2] == '5' by {
            assert w[..3] == "%25";
            assert w[..3][1] == w[1] && w[..3][2] == w[2];
          }
        }
      } else {
        UnescapeHostBytesChars(w[1..]);
      }
    }
  }

  /** UTF-8 decoding of such bytes gives characters of the same kind: an ASCII
      character is decoded from its own byte. */
  lemma {:induction false} DecodeHostChars(b: seq<byte>, h: string)
    requires forall j :: 0 <= j < |b| ==> HostChar(b[j] as char)
    requires Utf8Decode(b) == Some(h)
    ensures StoredHost(h)
    decreases |b|
  {
    if b != [] {
      var (c, n) := DecodeOne(b).value;
      var t := Utf8Decode(b[n..]).value;
      assert h == [c] + t;
      DecodeHostChars(b[n..], t);
      assert HostChar(c) by {
        if c as int < 0x80 {
          assert b[0] == c as int;
        }
      }
    }
  }

  /** Reading back the escapes URL.String writes for bytes outside ASCII or `%`. */
  lemma {:induction false} UnescapeHostEscapeBytes(bs: seq<byte>, rest: string)
    requires forall j :: 0 <= j < |bs| ==> bs[j] >= 0x80 || bs[j] == 0x25
    ensures UnescapeHostBytes(EscapeBytes(bs) + rest) == PrependOk(bs, UnescapeHostBytes(rest))
    decreases |bs|
  {
    if bs != [] {
      var tail := EscapeBytes(bs[1..]) + rest;
      assert EscapeBytes(bs) + rest == ['%', HexDigit(bs[0] / 16), HexDigit(bs[0] % 16)] + tail;
      UnescapeHostEscapedByte(bs[0], tail);
      UnescapeHostEscapeBytes(bs[1..], rest);
      assert bs == [bs[0]] + bs[1..];
      PrependOkConcat([bs[0]], bs[1..], UnescapeHostBytes(rest));
    } else {
      assert EscapeBytes(bs) + rest == rest;
      PrependOkConcat([], [], UnescapeHostBytes(rest));
    }
  }

  lemma PrependOkConcat(p: seq<byte>, q: seq<byte>, r: Result<seq<byte>, ParseError>)
    ensures PrependOk(p, PrependOk(q, r)) == PrependOk(p + q, r)
    ensures PrependOk([], r) == r
  {
    if r.Ok? {
      assert p + (q + r.value) == (p + q) + r.value;
      assert [] + r.value == r.value;
    }
  }

  lemma UnescapeHostEscapedByte(b: byte, rest: string)
    requires b >= 0x80 || b == 0x25
    ensures UnescapeHostBytes(['%', HexDigit(b / 16), HexDigit(b % 16)] + rest) == PrependOk([b], UnescapeHostBytes(rest))
  {
    var s := ['%', HexDigit(b / 16), HexDigit(b % 16)] + rest;
    assert s[3..] == rest;
    assert Unhex(s[1]) * 16 + Unhex(s[2]) == b;
    if b == 0x25 {
      assert s[..3] == "%25";
    }
  }

  lemma {:induction false} UnescapeEscapeHost(h: string)
    requires StoredHost(h)
    ensures UnescapeHostBytes(EscapeHost(h)) == Ok(Utf8Encode(h))
    decreases |h|
  {
    if h != [] {
      var head, tail := EscapeHostChar(h[0]), EscapeHost(h[1..]);
      UnescapeEscapeHost(h[1..]);
      if HostSafe(h[0]) {
        assert (head + tail)[1..] == tail;
      } else {
        UnescapeHostEscapeBytes(Utf8(h[0]), tail);
      }
    }
  }

  /** Reading a written host gives it back exactly when url.Parse could have stored
      it; otherwise the written text is refused as an invalid escape. */
  lemma HostRoundTrip(h: string)
    ensures StoredHost(h) ==> UnescapeHost(EscapeHost(h)) == Ok(h)
    ensures !StoredHost(h) ==> UnescapeHost(EscapeHost(h)) == Err(InvalidEscape)
  {
    if StoredHost(h) {
      UnescapeEscapeHost(h);
      Utf8RoundTrip(h);
    } else {
      EscapeUnstoredHost(h);
    }
  }

  /** A host of HostSafe characters is stored and written as it is. */
  lemma {:induction false} EscapeHostSafe(h: string)
    requires forall i :: 0 <= i < |h| ==> HostSafe(h[i])
    ensures StoredHost(h) && EscapeHost(h) == h
    decreases |h|
  {
    if h != [] {
      EscapeHostSafe(h[1..]);
      assert h == [h[0]] + h[1..];
    }
  }

  /** The escape URL.String writes for an ASCII character a host may not hold is
      refused, and nothing written before it is refused first. */
  lemma {:induction false} EscapeUnstoredHost(h: string)
    requires !StoredHost(h)
    ensures UnescapeHostBytes(EscapeHost(h)) == Err(InvalidEscape)
    decreases |h|
  {
    var head, tail := EscapeHostChar(h[0]), EscapeHost(h[1..]);
    if HostChar(h[0]) {
      assert !StoredHost(h[1..]) by {
        var i :| 0 <= i < |h| && !HostChar(h[i]);
        assert h[1..][i - 1] == h[i];
      }
      EscapeUnstoredHost(h[1..]);
      if HostSafe(h[0]) {
        assert (head + tail)[1..] == tail;
      } else {
        UnescapeHostEscapeBytes(Utf8(h[0]), tail);
      }
    } else {
      var s := head + tail;
      var n := h[0] as int;
      assert head == EscapeBytes([n]);
      assert s[1] == HexDigit(n / 16) && n / 16 < 8;
      assert s[..3][1] == s[1] && s[..3][2] == s[2] == HexDigit(n % 16);
      assert s[..3] != "%25";
    }
  }

  /** parseAuthority in net/url: user information before the last `@`, the host
      after it, unescaped. Ports and IPv6 literals are not checked here. */
  function ParseAuthority(authority: string): Result<(Option<string>, string), ParseError> {
    var (userinfo, afterAt, hasUser) := LastCut(authority, '@');
    var hostText := if hasUser then afterAt else authority;
    match UnescapeHost(hostText)
    case Err(e) => Err(e)
    case Ok(host) =>
      if !hasUser then Ok((None, host))
      else if !ValidUserinfo(userinfo) then Err(InvalidUserinfo)
      else if !ValidEscapes(userinfo) then Err(InvalidEscape)
      else Ok((Some(userinfo), host))
  }

  /** The text after `//`: an authority up to the next '/', and a path. */
  function ParseAuthorityPath(scheme: string, s: string, query: string, forceQuery: bool): Result<Url, ParseError> {
    var (authority, tail, hasPath) := Cut(s, '/');
    var path := if hasPath then "/" + tail else "";
    match ParseAuthority(authority)
    case Err(e) => Err(e)
    case Ok((user, host)) =>
      if ValidEscapes(path) then Ok(Url(scheme, "", user, host, path, false, forceQuery, query, ""))
      else Err(InvalidEscape)
  }

  /** The part of parse in net/url after the scheme and the query have been split
      off: opaque text, an authority and a path, or a path alone. */
  function ParseRest(scheme: string, rest: string, query: string, forceQuery: bool): Result<Url, ParseError> {
    if !HasPrefix(rest, "/") && scheme != "" then
      // a rootless path after a scheme is opaque
      Ok(Url(scheme, rest, None, "", "", false, forceQuery, query, ""))
    else if !HasPrefix(rest, "/") && ':' in Cut(rest, '/').0 then
      Err(ColonInFirstSegment)
    else if (scheme != "" || !HasPrefix(rest, "///")) && HasPrefix(rest, "//") then
      ParseAuthorityPath(scheme, rest[2..], query, forceQuery)
    else if ValidEscapes(rest) then
      Ok(Url(scheme, "", None, "", rest, scheme != "" && HasPrefix(rest, "/"), forceQuery, query, ""))
    else Err(InvalidEscape)
  }

  /** The query split off the text after the scheme, and the rest parsed. Go splits
      off the query at the last '?' when it is the only one and ends the text
      (setting ForceQuery), and at the first '?' otherwise; both are the first '?'. */
  function ParseAfterScheme(scheme: string, afterScheme: string): Result<Url, ParseError> {
    var (rest, query, hasQuery) := Cut(afterScheme, '?');
    ParseRest(scheme, rest, query, hasQuery && query == "")
  }

  /** parse in net/url, on the text before the fragment. */
  function ParseReference(s: string): Result<Url, ParseError> {
    if HasCtl(s) then Err(ControlCharacter)
    else
      match GetScheme(s)
      case Err(e) => Err(e)
      case Ok((scheme, afterScheme)) => ParseAfterScheme(ToLower(scheme), afterScheme)
  }

  /** The fragment checked and set on a parsed reference. */
  function WithFragment(r: Result<Url, ParseError>, fragment: string): Result<Url, ParseError> {
    match r
    case Err(e) => Err(e)
    case Ok(u) =>
      if ValidEscapes(fragment) then Ok(u.(fragment := fragment)) else Err(InvalidEscape)
  }

  /** url.Parse. */
  function UrlParse(raw: string): Result<Url, ParseError> {
    var (s, fragment, _) := Cut(raw, '#');
    WithFragment(ParseReference(s), fragment)
  }

  /** The user information with its `@`, as URL.String writes it. */
  function UserinfoText(user: Option<string>): string {
    match user case Some(ui) => ui + "@" case None => ""
  }

  /** `userinfo@host`, or the host alone. */
  function UserHost(user: Option<string>, host: string): string {
    UserinfoText(user) + EscapeHost(host)
  }

  /** The `//userinfo@host` part URL.String writes, if any. */
  function AuthorityText(u: Url): string {
    if u.scheme == "" && u.host == "" && u.user.None? then ""
    else if u.omitHost && u.host == "" && u.user.None? then ""
    else
      (if u.host != "" || u.path != "" || u.user.Some? then "//" else "")
      + UserHost(u.user, u.host)
  }

  /** What URL.String writes when the URL is not opaque. */
  function HierText(u: Url): string {
    var auth := AuthorityText(u);
    var slash := if u.path != "" && u.path[0] != '/' && u.host != "" then "/" else "";
    var dot := if u.scheme == "" && auth + slash == "" && ':' in Cut(u.path, '/').0 then "./" else "";
    auth + slash + dot + u.path
  }

  /** What URL.String writes between the scheme and the query. */
  function MainText(u: Url): string {
    if u.opaquePart != "" then u.opaquePart else HierText(u)
  }

  function QueryText(u: Url): string {
    if u.forceQuery || u.rawQuery != "" then "?" + u.rawQuery else ""
  }

  function SchemeText(u: Url): string {
    if u.scheme != "" then u.scheme + ":" else ""
  }

  function FragmentText(u: Url): string {
    if u.fragment != "" then "#" + u.fragment else ""
  }

  /** URL.String. */
  function Format(u: Url): string {
    SchemeText(u) + MainText(u) + QueryText(u) + FragmentText(u)
  }

  /** The URLs url.Parse can produce. */
  predicate WellFormed(u: Url) {
    && (u.scheme == "" || IsLowerSchemeName(u.scheme))
    && !HasCtl(u.opaquePart) && !HasCtl(u.path) && !HasCtl(u.rawQuery)
    && '?' !in u.opaquePart && '#' !in u.opaquePart
    && StoredHost(u.host)
    && '?' !in u.path && '#' !in u.path
    && '#' !in u.rawQuery
    && ValidEscapes(u.path) && ValidEscapes(u.fragment)
    && (u.user.Some? ==> ValidUserinfo(u.user.value) && ValidEscapes(u.user.value))
    && (u.forceQuery ==> u.rawQuery == "")
    && (u.opaquePart != "" ==>
          u.scheme != "" && u.opaquePart[0] != '/' && u.user.None? && u.host == "" && u.path == "" && !u.omitHost)
    && (u.omitHost ==>
          u.scheme != "" && u.host == "" && u.user.None? && HasPrefix(u.path, "/") && !HasPrefix(u.path, "//"))
    && (u.scheme != "" || u.host != "" || u.user.Some? ==> u.path == "" || u.path[0] == '/')
    && (u.scheme == "" && u.host == "" && u.user.None? ==>
          ':' !in Cut(u.path, '/').0 && (HasPrefix(u.path, "//") ==> HasPrefix(u.path, "///")))
  }

  // ---------------------------------------------------------------------------
  // url.Parse produces well-formed URLs

  lemma LowerSchemeName(s: string)
    requires IsSchemeName(s)
    ensures IsLowerSchemeName(ToLower(s))
  {
  }

  lemma ParseAuthorityFacts(authority: string)
    requires ParseAuthority(authority).Ok?
    requires !HasCtl(authority) && '?' !in authority && '#' !in authority && '/' !in authority
    ensures var (user, host) := ParseAuthority(authority).value;
      && StoredHost(host)
      && (user.Some? ==> ValidUserinfo(user.value) && ValidEscapes(user.value))
      && (host == "" && user.None? ==> authority == "")
  {
  }

  /** The shape of a URL with an authority, from url.Parse's point of view. */
  lemma AuthorityUrlWellFormed(scheme: string, user: Option<string>, host: string, path: string,
                               forceQuery: bool, query: string)
    requires scheme == "" || IsLowerSchemeName(scheme)
    requires StoredHost(host)
    requires user.Some? ==> ValidUserinfo(user.value) && ValidEscapes(user.value)
    requires !HasCtl(path) && '?' !in path && '#' !in path && ValidEscapes(path)
    requires path == "" || path[0] == '/'
    requires !HasCtl(query) && '#' !in query && (forceQuery ==> query == "")
    requires scheme == "" && host == "" && user.None? ==> path == ""
    ensures WellFormed(Url(scheme, "", user, host, path, false, forceQuery, query, ""))
  {
  }

  lemma AuthorityWellFormed(scheme: string, rest: string, query: string, forceQuery: bool)
    requires scheme == "" || IsLowerSchemeName(scheme)
    requires !HasCtl(rest) && !HasCtl(query)
    requires '?' !in rest && '#' !in rest && '#' !in query
    requires forceQuery ==> query == ""
    requires (scheme != "" || !HasPrefix(rest, "///")) && HasPrefix(rest, "//")
    requires ParseRest(scheme, rest, query, forceQuery).Ok?
    ensures WellFormed(ParseRest(scheme, rest, query, forceQuery).value)
  {
    ParseRestAfterSlashes(scheme, rest, query, forceQuery);
    var s := rest[2..];
    assert forall c :: c in s ==> c in rest;
    assert scheme == "" ==> !HasPrefix(s, "/");
    AuthorityPathWellFormed(scheme, s, query, forceQuery);
  }

  /** The text after `//` is parsed as an authority and a path. */
  lemma ParseRestAfterSlashes(scheme: string, rest: string, query: string, forceQuery: bool)
    requires (scheme != "" || !HasPrefix(rest, "///")) && HasPrefix(rest, "//")
    ensures ParseRest(scheme, rest, query, forceQuery) == ParseAuthorityPath(scheme, rest[2..], query, forceQuery)
  {
    assert rest[..1] == rest[..2][..1] == "/";
  }

  lemma AuthorityPathWellFormed(scheme: string, s: string, query: string, forceQuery: bool)
    requires scheme == "" || IsLowerSchemeName(scheme)
    requires !HasCtl(s) && !HasCtl(query)
    requires '?' !in s && '#' !in s && '#' !in query
    requires forceQuery ==> query == ""
    requires scheme == "" ==> !HasPrefix(s, "/")
    requires ParseAuthorityPath(scheme, s, query, forceQuery).Ok?
    ensures WellFormed(ParseAuthorityPath(scheme, s, query, forceQuery).value)
  {
    var (authority, tail, hasPath) := Cut(s, '/');
    var path := if hasPath then "/" + tail else "";
    assert forall c :: c in path ==> c == '/' || c in tail;
    if hasPath && authority == "" {
      assert s[..1] == "/";
    }
    ParseAuthorityFacts(authority);
    AuthorityUrlWellFormed(scheme, ParseAuthority(authority).value.0, ParseAuthority(authority).value.1, path, forceQuery, query);
  }

  lemma PathWellFormed(scheme: string, rest: string, query: string, forceQuery: bool)
    requires scheme == "" || IsLowerSchemeName(scheme)
    requires !HasCtl(rest) && !HasCtl(query)
    requires '?' !in rest && '#' !in rest && '#' !in query
    requires forceQuery ==> query == ""
    requires HasPrefix(rest, "/") || scheme == ""
    requires !HasPrefix(rest, "/") ==> ':' !in Cut(rest, '/').0
    requires !((scheme != "" || !HasPrefix(rest, "///")) && HasPrefix(rest, "//"))
    requires ValidEscapes(rest)
    ensures WellFormed(Url(scheme, "", None, "", rest, scheme != "" && HasPrefix(rest, "/"), forceQuery, query, ""))
  {
    if HasPrefix(rest, "/") {
      assert Cut(rest, '/').0 == "";
    }
  }

  lemma ParseRestWellFormed(scheme: string, rest: string, query: string, forceQuery: bool)
    requires scheme == "" || IsLowerSchemeName(scheme)
    requires !HasCtl(rest) && !HasCtl(query)
    requires '?' !in rest && '#' !in rest && '#' !in query
    requires forceQuery ==> query == ""
    requires ParseRest(scheme, rest, query, forceQuery).Ok?
    ensures WellFormed(ParseRest(scheme, rest, query, forceQuery).value)
  {
    if !HasPrefix(rest, "/") && scheme != "" {
    } else if (scheme != "" || !HasPrefix(rest, "///")) && HasPrefix(rest, "//") {
      AuthorityWellFormed(scheme, rest, query, forceQuery);
    } else {
      PathWellFormed(scheme, rest, query, forceQuery);
    }
  }

  lemma ParseReferenceWellFormed(s: string)
    requires '#' !in s
    requires ParseReference(s).Ok?
    ensures WellFormed(ParseReference(s).value)
  {
    var (scheme, afterScheme) := GetScheme(s).value;
    if scheme != "" {
      LowerSchemeName(scheme);
    }
    var (rest, query, hasQuery) := Cut(afterScheme, '?');
    assert ParseReference(s) == ParseAfterScheme(ToLower(scheme), afterScheme);
    ParseRestWellFormed(ToLower(scheme), rest, query, hasQuery && query == "");
  }

  /** Every URL url.Parse returns is well formed. */
  lemma ParseWellFormed(raw: string)
    requires UrlParse(raw).Ok?
    ensures WellFormed(UrlParse(raw).value)
  {
    var (s, fragment, _) := Cut(raw, '#');
    ParseReferenceWellFormed(s);
  }

  // ---------------------------------------------------------------------------
  // URL.String is undone by url.Parse on well-formed URLs

  lemma {:induction false} SchemeScanName(name: string, rest: string, i: nat)
    requires IsSchemeName(name) && i <= |name|
    ensures var s := name + ":" + rest;
      (forall j :: 0 <= j < i ==> IsSchemeChar(s[j])) && (i > 0 ==> IsAlpha(s[0]))
      && SchemeScan(s, i) == Ok((name, rest))
    decreases |name| - i
  {
    var s := name + ":" + rest;
    if i < |name| {
      SchemeScanName(name, rest, i + 1);
    } else {
      assert s[..i] == name && s[i + 1..] == rest;
    }
  }

  /** A scheme name followed by ':' is read back as that scheme. */
  lemma SchemeOfName(name: string, rest: string)
    requires IsSchemeName(name)
    ensures GetScheme(name + ":" + rest) == Ok((name, rest))
  {
    SchemeScanName(name, rest, 0);
  }

  lemma {:induction false} SchemeScanNone(s: string, k: nat, i: nat)
    requires i <= k <= |s|
    requires forall j :: 0 <= j < k ==> s[j] != ':'
    requires k < |s| ==> !IsSchemeChar(s[k]) && s[k] != ':'
    requires forall j :: 0 <= j < i ==> IsSchemeChar(s[j])
    requires i > 0 ==> IsAlpha(s[0])
    ensures SchemeScan(s, i) == Ok(("", s))
    decreases k - i
  {
    if i < k {
      if IsSchemeChar(s[i]) && (i > 0 || IsAlpha(s[i])) {
        SchemeScanNone(s, k, i + 1);
      }
    }
  }

  /** Text with no ':' before its first character that cannot be part of a scheme
      has no scheme. */
  lemma NoSchemeOf(s: string, k: nat)
    requires k <= |s|
    requires forall j :: 0 <= j < k ==> s[j] != ':'
    requires k < |s| ==> !IsSchemeChar(s[k]) && s[k] != ':'
    ensures GetScheme(s) == Ok(("", s))
  {
    SchemeScanNone(s, k, 0);
  }

  lemma LowerOfLower(s: string)
    requires IsLowerSchemeName(s)
    ensures ToLower(s) == s
  {
  }

  /** The URLs URL.String writes with a `//` authority. */
  predicate HasAuthorityText(u: Url) {
    && u.opaquePart == ""
    && !(u.omitHost && u.host == "" && u.user.None?)
    && (u.scheme != "" || u.host != "" || u.user.Some?)
    && (u.host != "" || u.path != "" || u.user.Some?)
  }

  lemma UserinfoChars(ui: string)
    requires ValidUserinfo(ui)
    ensures '/' !in ui && '?' !in ui && '#' !in ui && !HasCtl(ui)
  {
    assert forall c :: c in ui ==> UserinfoChar(c);
  }

  /** The authority URL.String writes holds no delimiter of the URL around it. */
  lemma UserHostChars(user: Option<string>, host: string)
    requires user.Some? ==> ValidUserinfo(user.value)
    ensures var a := UserHost(user, host);
      '/' !in a && '?' !in a && '#' !in a && !HasCtl(a)
  {
    var w := EscapeHost(host);
    EscapeHostText(host);
    HostTextChars(w);
    if user.Some? {
      UserinfoChars(user.value);
      assert UserHost(user, host) == user.value + ['@'] + w;
      assert !HasCtl(['@']) by {
        forall c | c in ['@'] ensures !IsCtl(c) { }
      }
      NoCtlConcat(user.value, ['@']);
      NoCtlConcat(user.value + ['@'], w);
    } else {
      assert UserHost(user, host) == w;
    }
  }

  /** The authority URL.String writes is read back as the same user and host. */
  lemma UserHostFacts(user: Option<string>, host: string)
    requires StoredHost(host)
    requires user.Some? ==> ValidUserinfo(user.value) && ValidEscapes(user.value)
    ensures var a := UserHost(user, host);
      '/' !in a && '?' !in a && '#' !in a && !HasCtl(a) && ParseAuthority(a) == Ok((user, host))
  {
    var w := EscapeHost(host);
    UserHostChars(user, host);
    HostRoundTrip(host);
    EscapeHostText(host);
    HostTextChars(w);
    ParseAuthorityOf(user, w, host);
  }

  /** User information, `@` and host text are read back as that user and the host
      the text stands for. */
  lemma ParseAuthorityOf(user: Option<string>, w: string, host: string)
    requires '@' !in w && UnescapeHost(w) == Ok(host)
    requires user.Some? ==> ValidUserinfo(user.value) && ValidEscapes(user.value)
    ensures ParseAuthority(UserinfoText(user) + w) == Ok((user, host))
  {
    match user
    case None =>
      assert "" + w == w;
    case Some(ui) =>
      assert UserinfoText(user) + w == ui + ['@'] + w;
      LastCutAt(ui, '@', w);
  }

  /** Written host text holds no delimiter of the URL around it. */
  lemma HostTextChars(w: string)
    requires HostText(w)
    ensures '/' !in w && '?' !in w && '#' !in w && '@' !in w && !HasCtl(w)
  {
    assert forall c :: c in w ==> HostSafe(c) || c == '%';
  }

  lemma ParseAuthorityOnly(scheme: string, a: string, user: Option<string>, host: string,
                            forceQuery: bool, query: string)
    requires '/' !in a && ParseAuthority(a) == Ok((user, host))
    ensures ParseAuthorityPath(scheme, a + "", query, forceQuery) == Ok(Url(scheme, "", user, host, "", false, forceQuery, query, ""))
  {
    assert a + "" == a;
    assert Cut(a, '/') == (a, "", false);
  }

  lemma ParseAuthorityThenPath(scheme: string, a: string, user: Option<string>, host: string, path: string,
                               forceQuery: bool, query: string)
    requires '/' !in a && ParseAuthority(a) == Ok((user, host))
    requires path != "" && path[0] == '/' && ValidEscapes(path)
    ensures ParseAuthorityPath(scheme, a + path, query, forceQuery)
         == Ok(Url(scheme, "", user, host, path, false, forceQuery, query, ""))
  {
    SlashSplit(a, path);
    CutAt(a, '/', path[1..]);
  }

  lemma SlashSplit(a: string, path: string)
    requires path != "" && path[0] == '/'
    ensures path == "/" + path[1..] && a + path == a + ['/'] + path[1..]
  {
  }

  lemma ParseAuthorityPathOf(scheme: string, user: Option<string>, host: string, path: string,
                              forceQuery: bool, query: string)
    requires StoredHost(host)
    requires user.Some? ==> ValidUserinfo(user.value) && ValidEscapes(user.value)
    requires path == "" || path[0] == '/'
    requires ValidEscapes(path)
    ensures ParseAuthorityPath(scheme, UserHost(user, host) + path, query, forceQuery)
         == Ok(Url(scheme, "", user, host, path, false, forceQuery, query, ""))
  {
    UserHostFacts(user, host);
    ParseAuthorityAndPath(scheme, UserHost(user, host), user, host, path, forceQuery, query);
  }

  lemma ParseAuthorityAndPath(scheme: string, a: string, user: Option<string>, host: string, path: string,
                              forceQuery: bool, query: string)
    requires '/' !in a && ParseAuthority(a) == Ok((user, host))
    requires path == "" || path[0] == '/'
    requires ValidEscapes(path)
    ensures ParseAuthorityPath(scheme, a + path, query, forceQuery)
         == Ok(Url(scheme, "", user, host, path, false, forceQuery, query, ""))
  {
    if path == "" {
      ParseAuthorityOnly(scheme, a, user, host, forceQuery, query);
    } else {
      ParseAuthorityThenPath(scheme, a, user, host, path, forceQuery, query);
    }
  }

  /** Text after `//` is an authority and a path, unless a relative reference
      starts with `///`. */
  lemma ParseRestSlashSlash(scheme: string, x: string, query: string, forceQuery: bool)
    requires scheme != "" || (x != "" && x[0] != '/')
    ensures ParseRest(scheme, "//" + x, query, forceQuery) == ParseAuthorityPath(scheme, x, query, forceQuery)
  {
    var rest := "//" + x;
    assert rest[2..] == x;
    assert rest[..1] == "/";
    assert rest[..2] == "//";
    assert scheme == "" ==> !HasPrefix(rest, "///");
  }

  lemma ParseRestAuthority(scheme: string, user: Option<string>, host: string, path: string,
                            forceQuery: bool, query: string)
    requires StoredHost(host)
    requires user.Some? ==> ValidUserinfo(user.value) && ValidEscapes(user.value)
    requires path == "" || path[0] == '/'
    requires ValidEscapes(path)
    requires scheme == "" ==> host != "" || user.Some?
    ensures ParseRest(scheme, "//" + UserHost(user, host) + path, query, forceQuery)
         == Ok(Url(scheme, "", user, host, path, false, forceQuery, query, ""))
  {
    var a := UserHost(user, host);
    assert "//" + a + path == "//" + (a + path);
    if scheme == "" {
      UserHostFacts(user, host);
      assert a == UserinfoText(user) + EscapeHost(host);
      assert a != "" && (a + path)[0] == a[0];
      if user.Some? {
        assert a[0] == (user.value + "@")[0];
      }
    }
    ParseRestSlashSlash(scheme, a + path, query, forceQuery);
    ParseAuthorityPathOf(scheme, user, host, path, forceQuery, query);
  }

  lemma ParseRestRelative(u: Url)
    requires WellFormed(u) && u.opaquePart == "" && u.scheme == "" && u.host == "" && u.user.None?
    ensures MainText(u) == u.path
    ensures ParseRest(u.scheme, MainText(u), u.rawQuery, u.forceQuery) == Ok(u.(fragment := ""))
  {
  }

  lemma ParseRestOmitHost(u: Url)
    requires WellFormed(u) && u.opaquePart == "" && u.omitHost
    ensures MainText(u) == u.path
    ensures ParseRest(u.scheme, MainText(u), u.rawQuery, u.forceQuery) == Ok(u.(fragment := ""))
  {
  }

  /** The parse of what URL.String writes between scheme and query. */
  lemma ParseRestMain(u: Url)
    requires WellFormed(u)
    ensures ParseRest(u.scheme, MainText(u), u.rawQuery, u.forceQuery) == Ok(u.(fragment := ""))
  {
    if u.opaquePart != "" {
    } else if HasAuthorityText(u) {
      assert MainText(u) == "//" + UserHost(u.user, u.host) + u.path;
      ParseRestAuthority(u.scheme, u.user, u.host, u.path, u.forceQuery, u.rawQuery);
    } else if u.omitHost {
      ParseRestOmitHost(u);
    } else if u.scheme == "" {
      ParseRestRelative(u);
    } else {
      assert u.host == "" && u.path == "" && u.user.None?;
      assert MainText(u) == "";
    }
  }

  // ---------------------------------------------------------------------------
  // URL.String is read back by url.Parse

  lemma NoCtlConcat(a: string, b: string)
    requires !HasCtl(a) && !HasCtl(b)
    ensures !HasCtl(a + b)
  {
    forall c | c in a + b ensures !IsCtl(c) {
      assert c in a || c in b;
    }
  }

  /** What URL.String writes between scheme and query for `scheme://host/path`: the
      host escaped, then the path. */
  lemma HostMainText(u: Url)
    requires u.opaquePart == "" && u.scheme != "" && u.user.None? && !u.omitHost
    requires u.path != "" && u.path[0] == '/'
    ensures MainText(u) == "//" + EscapeHost(u.host) + u.path
  {
    var w := EscapeHost(u.host);
    assert UserHost(None, u.host) == w;
    assert AuthorityText(u) == "//" + w;
    assert HierText(u) == "//" + w + "" + "" + u.path;
    EmptyTwice("//" + w, u.path);
  }

  /** Regroups string literals and concatenations only; kept apart to keep the
      proofs that use it small. */
  lemma EmptyTwice(a: string, b: string)
    ensures a + "" + "" + b == a + b
  {
  }

  /** The text between scheme and query holds neither `?` nor `#` nor a control
      character. */
  lemma MainTextChars(u: Url)
    requires WellFormed(u)
    ensures '?' !in MainText(u) && '#' !in MainText(u) && !HasCtl(MainText(u))
  {
    if u.opaquePart == "" {
      var auth := AuthorityText(u);
      assert HierText(u) == auth + u.path;
      UserHostChars(u.user, u.host);
      var a := UserHost(u.user, u.host);
      assert auth == "" || auth == a || auth == "//" + a;
      AuthorityPathChars(auth, a, u.path);
    }
  }

  lemma AuthorityPathChars(auth: string, a: string, path: string)
    requires auth == "" || auth == a || auth == "//" + a
    requires '?' !in a && '#' !in a && !HasCtl(a)
    requires '?' !in path && '#' !in path && !HasCtl(path)
    ensures '?' !in auth + path && '#' !in auth + path && !HasCtl(auth + path)
  {
    assert !HasCtl("//") by {
      forall c | c in "//" ensures !IsCtl(c) { }
    }
    NoCtlConcat("//", a);
    NoCtlConcat(auth, path);
  }

  lemma NoSchemeRelative(path: string, q: string)
    requires ':' !in Cut(path, '/').0 && '?' !in path
    requires q == "" || q[0] == '?'
    ensures GetScheme(path + q) == Ok(("", path + q))
  {
    var s := path + q;
    var (seg, tail, found) := Cut(path, '/');
    if found {
      assert s == seg + ['/'] + (tail + q);
      assert s[|seg|] == '/' && s[..|seg|] == seg;
      NoSchemeOf(s, |seg|);
    } else if q != "" {
      assert s[|path|] == '?' && s[..|path|] == path;
      NoSchemeOf(s, |path|);
    } else {
      assert s == path;
      NoSchemeOf(s, |s|);
    }
  }

  /** Without a scheme, what URL.String writes before the query is empty, starts
      with '/', or is a path whose first segment holds no ':'. */
  lemma MainTextNoScheme(u: Url)
    requires WellFormed(u) && u.scheme == ""
    ensures || MainText(u) == ""
            || MainText(u)[0] == '/'
            || (MainText(u) == u.path && ':' !in Cut(u.path, '/').0)
  {
    if u.host != "" || u.user.Some? {
      assert HasAuthorityText(u);
      assert MainText(u) == "//" + UserHost(u.user, u.host) + u.path;
    }
  }

  /** Without a scheme, URL.String writes nothing url.Parse could read as one. */
  lemma NoSchemeText(u: Url)
    requires WellFormed(u) && u.scheme == ""
    ensures GetScheme(MainText(u) + QueryText(u)) == Ok(("", MainText(u) + QueryText(u)))
  {
    MainTextChars(u);
    MainTextNoScheme(u);
    NoSchemeBeforeQuery(MainText(u), QueryText(u));
  }

  /** Text that is empty, starts with '/' or has no ':' in its first segment,
      followed by a query, has no scheme. */
  lemma NoSchemeBeforeQuery(m: string, q: string)
    requires m == "" || m[0] == '/' || ':' !in Cut(m, '/').0
    requires '?' !in m && (q == "" || q[0] == '?')
    ensures GetScheme(m + q) == Ok(("", m + q))
  {
    if m != "" && m[0] == '/' {
      assert (m + q)[0] == '/' && !IsSchemeChar('/');
      NoSchemeOf(m + q, 0);
    } else if m == "" {
      assert m + q == q && !IsSchemeChar('?');
      NoSchemeOf(q, 0);
    } else {
      NoSchemeRelative(m, q);
    }
  }

  /** The query URL.String writes is split off again, with the same ForceQuery. */
  lemma QueryTextCut(u: Url)
    requires WellFormed(u)
    ensures var (rest, query, hasQuery) := Cut(MainText(u) + QueryText(u), '?');
      rest == MainText(u) && query == u.rawQuery && (hasQuery && query == "") == u.forceQuery
  {
    MainTextChars(u);
    if QueryText(u) != "" {
      assert MainText(u) + QueryText(u) == MainText(u) + ['?'] + u.rawQuery;
      CutAt(MainText(u), '?', u.rawQuery);
    } else {
      assert MainText(u) + QueryText(u) == MainText(u);
    }
  }

  lemma ParseReferenceOf(s: string, scheme: string, mq: string, rest: string, query: string, forceQuery: bool)
    requires !HasCtl(s) && GetScheme(s) == Ok((scheme, mq)) && ToLower(scheme) == scheme
    requires var (r, q, hasQuery) := Cut(mq, '?'); r == rest && q == query && (hasQuery && q == "") == forceQuery
    ensures ParseReference(s) == ParseRest(scheme, rest, query, forceQuery)
  {
  }

  /** The scheme and its colon, as URL.String writes them, are read back. */
  lemma SchemeTextRead(u: Url, mq: string)
    requires WellFormed(u) && mq == MainText(u) + QueryText(u) && !HasCtl(mq)
    ensures var s := SchemeText(u) + mq;
      !HasCtl(s) && GetScheme(s) == Ok((u.scheme, mq)) && ToLower(u.scheme) == u.scheme
  {
    if u.scheme != "" {
      assert SchemeText(u) + mq == u.scheme + ":" + mq;
      assert !HasCtl(u.scheme + ":") by {
        forall c | c in u.scheme + ":" ensures !IsCtl(c) {
          if c in u.scheme {
            var i :| 0 <= i < |u.scheme| && u.scheme[i] == c;
          }
        }
      }
      NoCtlConcat(u.scheme + ":", mq);
      SchemeOfName(u.scheme, mq);
      LowerOfLower(u.scheme);
    } else {
      assert SchemeText(u) + mq == mq;
      NoSchemeText(u);
      assert ToLower("") == "";
    }
  }

  /** The text before the fragment is read back as the scheme, then the main text
      and the query. */
  lemma ReferenceSplit(u: Url)
    requires WellFormed(u)
    ensures ParseReference(SchemeText(u) + MainText(u) + QueryText(u))
         == ParseRest(u.scheme, MainText(u), u.rawQuery, u.forceQuery)
  {
    var mq := MainText(u) + QueryText(u);
    MainTextChars(u);
    NoCtlConcat(MainText(u), QueryText(u));
    var s := SchemeText(u) + mq;
    ConcatAssoc(SchemeText(u), MainText(u), QueryText(u));
    SchemeTextRead(u, mq);
    QueryTextCut(u);
    ParseReferenceOf(s, u.scheme, mq, MainText(u), u.rawQuery, u.forceQuery);
  }

  /** Regroups string literals and concatenations only; kept apart to keep the
      proofs that use it small. */
  lemma ConcatAssoc(a: string, b: string, c: string)
    ensures a + b + c == a + (b + c)
  {
  }

  /** Everything before the fragment. */
  lemma ReferenceRoundTrip(u: Url)
    requires WellFormed(u)
    ensures ParseReference(SchemeText(u) + MainText(u) + QueryText(u)) == Ok(u.(fragment := ""))
  {
    ReferenceSplit(u);
    ParseRestMain(u);
  }

  /** What URL.String writes, url.Parse reads back as the same URL. */
  lemma FormatRoundTrip(u: Url)
    requires WellFormed(u)
    ensures UrlParse(Format(u)) == Ok(u)
  {
    var pre := SchemeText(u) + MainText(u) + QueryText(u);
    MainTextChars(u);
    assert '#' !in pre by {
      assert '#' !in SchemeText(u) by {
        if u.scheme != "" {
          assert forall i :: 0 <= i < |u.scheme| ==> IsSchemeChar(u.scheme[i]);
        }
      }
    }
    if u.fragment != "" {
      assert Format(u) == pre + ['#'] + u.fragment;
      CutAt(pre, '#', u.fragment);
    } else {
      assert Format(u) == pre;
    }
    ReferenceRoundTrip(u);
  }

  // ---------------------------------------------------------------------------
  // Parsing text with a scheme put in front

  lemma SchemeTextNoCtl(name: string)
    requires IsSchemeName(name)
    ensures !HasCtl(name + ":") && '#' !in name + ":"
  {
    forall c | c in name + ":" ensures !IsCtl(c) && c != '#' {
      if c in name {
        var i :| 0 <= i < |name| && name[i] == c;
      }
    }
  }

  /** The fragment is split off text behind a prefix without '#' as it is split
      off the text alone. */
  lemma UrlParsePrefixed(p: string, raw: string)
    requires '#' !in p
    ensures UrlParse(p + raw) == WithFragment(ParseReference(p + Cut(raw, '#').0), Cut(raw, '#').1)
  {
    CutPrefixed(p, raw, '#');
  }

  /** Behind a lower-case scheme name and a colon, the rest is parsed with that
      scheme. */
  lemma SchemedReference(name: string, s: string)
    requires IsLowerSchemeName(name) && !HasCtl(s)
    ensures ParseReference(name + ":" + s) == ParseAfterScheme(name, s)
  {
    SchemeTextNoCtl(name);
    NoCtlConcat(name + ":", s);
    SchemeOfName(name, s);
    LowerOfLower(name);
  }

  /** A reference url.Parse reads without a scheme has no control character and no
      scheme prefix. */
  lemma UnschemedReference(s: string)
    requires ParseReference(s).Ok? && ParseReference(s).value.scheme == ""
    ensures !HasCtl(s) && ParseAfterScheme("", s) == ParseReference(s)
  {
    var (scheme, afterScheme) := GetScheme(s).value;
    assert ParseReference(s) == ParseAfterScheme(ToLower(scheme), afterScheme);
    ParseAfterSchemeKeepsScheme(ToLower(scheme), afterScheme);
  }

  /** What parses as a reference without a scheme also parses once a scheme is put
      in front: as opaque text, as an authority, or as the same path. */
  lemma ParseRestWithScheme(scheme: string, rest: string, query: string, forceQuery: bool)
    requires scheme != "" && ParseRest("", rest, query, forceQuery).Ok?
    ensures ParseRest(scheme, rest, query, forceQuery).Ok?
  {
    if HasPrefix(rest, "///") {
      TripleSlashWithScheme(scheme, rest, query, forceQuery);
    } else if HasPrefix(rest, "//") {
      ParseRestAfterSlashes(scheme, rest, query, forceQuery);
      ParseRestAfterSlashes("", rest, query, forceQuery);
      AuthorityPathAnyScheme(scheme, rest[2..], query, forceQuery);
    }
  }

  /** With a scheme, `///` starts an empty authority and a path. */
  lemma TripleSlashWithScheme(scheme: string, rest: string, query: string, forceQuery: bool)
    requires scheme != "" && HasPrefix(rest, "///") && ValidEscapes(rest)
    ensures ParseRest(scheme, rest, query, forceQuery).Ok?
  {
    ParseRestAfterSlashes(scheme, rest, query, forceQuery);
    var x := rest[2..];
    assert rest[..3][2] == x[0];
    ValidEscapesAfterSlashes(rest);
    assert UserHost(None, "") + x == x;
    ParseAuthorityPathOf(scheme, None, "", x, forceQuery, query);
  }

  lemma ValidEscapesAfterSlashes(rest: string)
    requires HasPrefix(rest, "//") && ValidEscapes(rest)
    ensures ValidEscapes(rest[2..])
  {
    assert rest[0] == rest[..2][0] && rest[1..][0] == rest[..2][1];
    assert rest[1..][1..] == rest[2..];
  }

  /** Whether the text after `//` parses does not depend on the scheme. */
  lemma AuthorityPathAnyScheme(scheme: string, s: string, query: string, forceQuery: bool)
    ensures ParseAuthorityPath(scheme, s, query, forceQuery).Ok? == ParseAuthorityPath("", s, query, forceQuery).Ok?
  {
  }

  lemma ParseAfterSchemeWithScheme(scheme: string, s: string)
    requires scheme != "" && ParseAfterScheme("", s).Ok?
    ensures ParseAfterScheme(scheme, s).Ok? && ParseAfterScheme(scheme, s).value.scheme == scheme
  {
    var (rest, query, hasQuery) := Cut(s, '?');
    ParseRestWithScheme(scheme, rest, query, hasQuery && query == "");
    ParseAfterSchemeKeepsScheme(scheme, s);
  }

  /** Text with neither `#`, `?`, `/` nor `:` is read as a relative path. */
  lemma RelativePathParse(raw: string)
    requires '#' !in raw && '?' !in raw && '/' !in raw && ':' !in raw
    requires !HasCtl(raw) && ValidEscapes(raw)
    ensures UrlParse(raw) == Ok(Url("", "", None, "", raw, false, false, "", ""))
  {
    RelativeReference(raw);
    assert Cut(raw, '#') == (raw, "", false);
    NoPercentValid("");
  }

  lemma RelativeReference(raw: string)
    requires '?' !in raw && '/' !in raw && ':' !in raw
    requires !HasCtl(raw) && ValidEscapes(raw)
    ensures ParseReference(raw) == Ok(Url("", "", None, "", raw, false, false, "", ""))
  {
    NoSchemeOf(raw, |raw|);
    assert ToLower("") == "";
    RelativeAfterScheme(raw);
  }

  lemma RelativeAfterScheme(raw: string)
    requires '?' !in raw && '/' !in raw && ':' !in raw && ValidEscapes(raw)
    ensures ParseAfterScheme("", raw) == Ok(Url("", "", None, "", raw, false, false, "", ""))
  {
    NoSlashPrefix(raw);
    var (rest, query, hasQuery) := Cut(raw, '?');
    assert rest == raw && !hasQuery;
    var (segment, _, _) := Cut(raw, '/');
    assert segment == raw;
  }

  /** Text without '/' starts with neither "/" nor "//". */
  lemma NoSlashPrefix(s: string)
    requires '/' !in s
    ensures !HasPrefix(s, "/") && !HasPrefix(s, "//") && !HasPrefix(s, "///")
  {
    if |s| > 0 {
      assert s[0] in s;
    }
  }

  /** Text url.Parse reads without a scheme is also read with a scheme put in front. */
  lemma SchemedParseOk(name: string, raw: string)
    requires IsLowerSchemeName(name) && UrlParse(raw).Ok? && UrlParse(raw).value.scheme == ""
    ensures UrlParse(name + ":" + raw).Ok?
  {
    var (s, fragment, _) := Cut(raw, '#');
    assert ValidEscapes(fragment) && ParseReference(s).Ok? && ParseReference(s).value.scheme == "";
    UnschemedReference(s);
    ParseAfterSchemeWithScheme(name, s);
    SchemedReference(name, s);
    SchemeTextNoCtl(name);
    UrlParsePrefixed(name + ":", raw);
  }

  /** Behind a scheme, text without '/' in front, '?' or '#' that url.Parse reads
      without a scheme is the opaque part. */
  lemma SchemedOpaque(name: string, raw: string)
    requires IsLowerSchemeName(name) && UrlParse(raw).Ok? && UrlParse(raw).value.scheme == ""
    requires '?' !in raw && '#' !in raw && !HasPrefix(raw, "/")
    ensures UrlParse(name + ":" + raw) == Ok(Url(name, raw, None, "", "", false, false, "", ""))
  {
    assert Cut(raw, '#') == (raw, "", false);
    UnschemedReference(raw);
    SchemeTextNoCtl(name);
    UrlParsePrefixed(name + ":", raw);
    SchemedReference(name, raw);
    assert Cut(raw, '?') == (raw, "", false);
    assert ParseAfterScheme(name, raw) == Ok(Url(name, raw, None, "", "", false, false, "", ""));
  }

  lemma ParseAuthorityPathKeepsScheme(scheme: string, s: string, query: string, forceQuery: bool)
    ensures ParseAuthorityPath(scheme, s, query, forceQuery).Ok? ==>
      ParseAuthorityPath(scheme, s, query, forceQuery).value.scheme == scheme
  {
  }

  /** A parse that succeeds has the scheme it was given. */
  lemma ParseAfterSchemeKeepsScheme(scheme: string, s: string)
    ensures ParseAfterScheme(scheme, s).Ok? ==> ParseAfterScheme(scheme, s).value.scheme == scheme
  {
    var (rest, query, hasQuery) := Cut(s, '?');
    ParseRestKeepsScheme(scheme, rest, query, hasQuery && query == "");
  }

  lemma ParseRestKeepsScheme(scheme: string, rest: string, query: string, forceQuery: bool)
    ensures ParseRest(scheme, rest, query, forceQuery).Ok? ==> ParseRest(scheme, rest, query, forceQuery).value.scheme == scheme
  {
    if |rest| >= 2 {
      ParseAuthorityPathKeepsScheme(scheme, rest[2..], query, forceQuery);
    }
  }

  // ---------------------------------------------------------------------------
  // A host url.Parse cannot store

  /** `scheme://host/path?query` written for a host url.Parse could not have
      stored is refused when read back: the escape URL.String writes for the
      offending character is one url.Parse does not accept in a host. */
  lemma UnstoredHostRefused(scheme: string, host: string, path: string, query: string)
    requires IsLowerSchemeName(scheme) && !StoredHost(host)
    requires path == "" || path[0] == '/'
    requires '?' !in path && '#' !in path && !HasCtl(path)
    requires '#' !in query && !HasCtl(query)
    ensures UrlParse(scheme + "://" + EscapeHost(host) + path + "?" + query) == Err(InvalidEscape)
  {
    var w := EscapeHost(host);
    HostRoundTrip(host);
    EscapeHostText(host);
    HostTextChars(w);
    assert UnescapeHost(w) == Err(InvalidEscape);
    RefusedHostText(scheme, w, path, query);
  }

  lemma RefusedHostText(scheme: string, w: string, path: string, query: string)
    requires IsLowerSchemeName(scheme) && UnescapeHost(w) == Err(InvalidEscape)
    requires '/' !in w && '?' !in w && '#' !in w && '@' !in w && !HasCtl(w)
    requires path == "" || path[0] == '/'
    requires '?' !in path && '#' !in path && !HasCtl(path)
    requires '#' !in query && !HasCtl(query)
    ensures UrlParse(scheme + "://" + w + path + "?" + query) == Err(InvalidEscape)
  {
    var m := "//" + (w + path);
    var s := m + ['?'] + query;
    RefusedTextParts(scheme, w, path, query);
    assert '#' !in s && '?' !in m;
    NoCtlConcat(w, path);
    NoCtlConcat("//", w + path);
    NoCtlConcat(m, ['?']);
    NoCtlConcat(m + ['?'], query);
    SchemeTextNoCtl(scheme);
    UrlParsePrefixed(scheme + ":", s);
    SchemedReference(scheme, s);
    CutAt(m, '?', query);
    ParseRestSlashSlash(scheme, w + path, query, false);
    UnstoredAuthorityRefused(scheme, w, path, query);
  }

  /** Regroups string literals and concatenations only; kept apart to keep the
      proofs that use it small. */
  lemma RefusedTextParts(scheme: string, w: string, path: string, query: string)
    ensures scheme + "://" + w + path + "?" + query == scheme + ":" + ("//" + (w + path) + ['?'] + query)
  {
  }

  lemma UnstoredAuthorityRefused(scheme: string, w: string, path: string, query: string)
    requires UnescapeHost(w) == Err(InvalidEscape) && '/' !in w && '@' !in w
    requires path == "" || path[0] == '/'
    ensures ParseAuthorityPath(scheme, w + path, query, false) == Err(InvalidEscape)
  {
    if path == "" {
      assert w + path == w;
    } else {
      SlashSplit(w, path);
      CutAt(w, '/', path[1..]);
    }
  }
}
