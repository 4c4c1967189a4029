/** WebFinger resources (client.go): parsing loose input into an absolute URI,
    choosing the host to query, and building the query URL of section 4 of RFC 7033. */
module Resource {
  import opened Wrappers
  import opened Text
  import opened Escape
  import opened Url
  import Query

  /** Why a resource could not be parsed. */
  datatype Error =
    | Syntax(cause: ParseError)   // url.Parse refused the text
    | NotAbsolute(raw: string)    // no scheme, and not email-like either

  /** The scheme given to email-like input (RFC 7565). */
  const AcctPrefix := "acct:"

  /** Parse: url.Parse, and when that finds no scheme but the text holds an `@`, the
      parse of the same text behind `acct:`. The second parse always finds a scheme
      (AcctParse), so the recursion happens at most once. */
  function Parse(raw: string): (r: Result<Url, Error>)
    ensures r.Ok? ==> r.value.scheme != "" && WellFormed(r.value)
    ensures UrlParse(raw).Err? ==> r == Err(Syntax(UrlParse(raw).error))
    ensures UrlParse(raw).Ok? && UrlParse(raw).value.scheme != "" ==> r == Ok(UrlParse(raw).value)
    ensures UrlParse(raw).Ok? && UrlParse(raw).value.scheme == "" && '@' !in raw ==> r == Err(NotAbsolute(raw))
    decreases if UrlParse(raw).Ok? && UrlParse(raw).value.scheme == "" then 1 else 0
  {
    match UrlParse(raw)
    case Err(e) => Err(Syntax(e))
    case Ok(u) =>
      ParseWellFormed(raw);
      if u.scheme == "" then
        var (_, _, found) := Cut(raw, '@');
        if !found then Err(NotAbsolute(raw))
        else
          AcctParse(raw);
          Parse(AcctPrefix + raw)
      else Ok(u)
  }

  // ---------------------------------------------------------------------------
  // Properties of Parse

  /** The parse of a scheme name, a colon and anything after has that scheme. */
  lemma SchemedParse(name: string, raw: string)
    requires IsLowerSchemeName(name)
    ensures UrlParse(name + ":" + raw).Ok? ==> UrlParse(name + ":" + raw).value.scheme == name
  {
    SchemeTextNoCtl(name);
    UrlParsePrefixed(name + ":", raw);
    var s := Cut(raw, '#').0;
    if !HasCtl(s) {
      SchemedReference(name, s);
      ParseAfterSchemeKeepsScheme(name, s);
    } else {
      assert HasCtl(name + ":" + s) by {
        var c :| c in s && IsCtl(c);
        assert c in name + ":" + s;
      }
    }
  }

  /** `acct:` followed by any text parses, if at all, with scheme acct. */
  lemma AcctParse(raw: string)
    ensures UrlParse(AcctPrefix + raw).Ok? ==> UrlParse(AcctPrefix + raw).value.scheme == "acct"
  {
    assert AcctPrefix + raw == "acct" + ":" + raw;
    SchemedParse("acct", raw);
  }

  lemma AcctSchemeName()
    ensures IsLowerSchemeName("acct") && AcctPrefix == "acct" + ":"
  {
  }

  /** Text url.Parse reads without a scheme is read with scheme `acct` too. */
  lemma AcctParseOk(raw: string)
    requires UrlParse(raw).Ok? && UrlParse(raw).value.scheme == ""
    ensures UrlParse(AcctPrefix + raw).Ok?
  {
    AcctSchemeName();
    SchemedParseOk("acct", raw);
  }

  /** Parse succeeds exactly when url.Parse does and finds a scheme, or when
      url.Parse succeeds on email-like text (text holding an `@`). */
  lemma ParseSucceeds(raw: string)
    ensures Parse(raw).Ok? <==> UrlParse(raw).Ok? && (UrlParse(raw).value.scheme != "" || '@' in raw)
  {
    if UrlParse(raw).Ok? && UrlParse(raw).value.scheme == "" && '@' in raw {
      AcctParseOk(raw);
      AcctParse(raw);
      assert Parse(raw) == Parse(AcctPrefix + raw);
    }
  }

  /** Email-like text with no `/` in front and no query or fragment becomes the
      opaque part of an `acct:` URI, exactly as written. */
  lemma ParseEmailLike(raw: string)
    requires UrlParse(raw).Ok? && UrlParse(raw).value.scheme == ""
    requires '@' in raw && '?' !in raw && '#' !in raw && !HasPrefix(raw, "/")
    ensures Parse(raw) == Ok(Url("acct", raw, None, "", "", false, false, "", ""))
  {
    EmailLikeRetried(raw);
    AcctOpaque(raw);
  }

  /** Email-like text is parsed again behind `acct:`. */
  lemma EmailLikeRetried(raw: string)
    requires UrlParse(raw).Ok? && UrlParse(raw).value.scheme == "" && '@' in raw
    ensures Parse(raw) == Parse(AcctPrefix + raw)
  {
    AcctParse(raw);
  }

  /** Behind `acct:`, text without '/' in front, '?' or '#' is the opaque part. */
  lemma AcctOpaque(raw: string)
    requires UrlParse(raw).Ok? && UrlParse(raw).value.scheme == ""
    requires '?' !in raw && '#' !in raw && !HasPrefix(raw, "/")
    ensures Parse(AcctPrefix + raw) == Ok(Url("acct", raw, None, "", "", false, false, "", ""))
  {
    AcctSchemeName();
    SchemedOpaque("acct", raw);
  }

  // ---------------------------------------------------------------------------
  // WebFingerHost, String and JRDURL

  /** WebFingerHost: the host if there is one; for acct and mailto URIs the text
      after the first `@` of the opaque part; otherwise nothing. */
  function WebFingerHost(r: Url): (host: string)
    ensures r.host != "" ==> host == r.host
    ensures r.host == "" && (r.scheme == "acct" || r.scheme == "mailto") && '@' in r.opaquePart ==>
      exists local :: '@' !in local && r.opaquePart == local + "@" + host
    ensures r.host == "" && !((r.scheme == "acct" || r.scheme == "mailto") && '@' in r.opaquePart) ==> host == ""
  {
    if r.host != "" then r.host
    else if r.scheme == "acct" || r.scheme == "mailto" then
      var (local, domain, found) := Cut(r.opaquePart, '@');
      if found then
        assert r.opaquePart == local + "@" + domain;
        domain
      else ""
    else ""
  }

  /** The domain of an email-like resource is the host to query. */
  lemma EmailLikeHost(local: string, domain: string)
    requires '@' !in local
    requires var raw := local + "@" + domain;
      UrlParse(raw).Ok? && UrlParse(raw).value.scheme == "" && '?' !in raw && '#' !in raw && !HasPrefix(raw, "/")
    ensures Parse(local + "@" + domain).Ok?
    ensures WebFingerHost(Parse(local + "@" + domain).value) == domain
  {
    var raw := local + "@" + domain;
    assert '@' in raw by {
      assert raw[|local|] == '@';
    }
    ParseEmailLike(raw);
    assert raw == local + ['@'] + domain;
    CutAt(local, '@', domain);
  }

  /** String: the resource written back as a URI. */
  function String(r: Url): (s: string)
    ensures WellFormed(r) ==> UrlParse(s) == Ok(r)
  {
    assert WellFormed(r) ==> UrlParse(Format(r)) == Ok(r) by {
      if WellFormed(r) {
        FormatRoundTrip(r);
      }
    }
    Format(r)
  }

  /** A parsed resource, written back and parsed again, is the same resource. */
  lemma StringParse(raw: string)
    requires Parse(raw).Ok?
    ensures Parse(String(Parse(raw).value)) == Parse(raw)
  {
  }

  const WellKnownPath := "/.well-known/webfinger"

  /** The query of JRDURL: `resource` and the `rel` values, as url.Values. */
  function QueryValues(r: Url, rels: seq<string>): Query.Values {
    map["resource" := [String(r)], "rel" := rels]
  }

  /** The query of JRDURL read back: the `rel` values in order, then the resource. */
  lemma JrdQuery(resource: string, rels: seq<string>)
    ensures Query.ParseQuery(Query.Encode(map["resource" := [resource], "rel" := rels]))
         == Some(Query.KeyPairs("rel", rels) + [("resource", resource)])
  {
    var v := map["resource" := [resource], "rel" := rels];
    RelBeforeResource();
    Query.PairsOfTwo("rel", rels, "resource", [resource]);
    assert v == map["rel" := rels, "resource" := [resource]];
    assert Query.KeyPairs("resource", [resource]) == [("resource", resource)];
    Query.ParseEncode(v);
  }

  /** JRDURL: `https://` + WebFingerHost + `/.well-known/webfinger`, with the
      encoded query. Reading the query back gives each `rel` value in order, then
      the resource. */
  function JrdUrl(r: Url, rels: seq<string>): (u: Url)
    ensures u.scheme == "https" && u.host == WebFingerHost(r) && u.path == WellKnownPath
    ensures u.user.None? && u.opaquePart == "" && u.fragment == ""
    ensures Query.ParseQuery(u.rawQuery) == Some(Query.KeyPairs("rel", rels) + [("resource", String(r))])
  {
    JrdQuery(String(r), rels);
    Url("https", "", None, WebFingerHost(r), WellKnownPath, false, false, Query.Encode(QueryValues(r, rels)), "")
  }

  /** URL.String of an https URL with a host, an absolute path and a query: the
      host is written escaped. */
  lemma HttpsText(host: string, path: string, query: string)
    requires path != "" && path[0] == '/' && query != ""
    ensures Format(Url("https", "", None, host, path, false, false, query, ""))
         == "https://" + EscapeHost(host) + path + "?" + query
  {
    var u := Url("https", "", None, host, path, false, false, query, "");
    HostMainText(u);
    HttpsConcat(MainText(u), EscapeHost(host), path, query);
  }

  /** Regroups string literals and concatenations only; kept apart to keep the
      proofs that use it small. */
  lemma HttpsConcat(main: string, w: string, path: string, query: string)
    requires main == "//" + w + path
    ensures "https" + ":" + main + ("?" + query) + "" == "https://" + w + path + "?" + query
  {
  }

  /** The first request of a lookup goes to `https://host/.well-known/webfinger?query`,
      with the host escaped and the query never empty since it holds the resource. */
  lemma JrdUrlText(r: Url, rels: seq<string>)
    ensures JrdUrl(r, rels).rawQuery != ""
    ensures Format(JrdUrl(r, rels))
         == "https://" + EscapeHost(WebFingerHost(r)) + WellKnownPath + "?" + JrdUrl(r, rels).rawQuery
  {
    var u := JrdUrl(r, rels);
    assert Split("", '&') == [""];
    assert Query.ParseQuery("") == Some([]);
    HttpsText(WebFingerHost(r), WellKnownPath, u.rawQuery);
  }

  /** When the host to query is one url.Parse could not have stored (an `@` in the
      domain of `acct:juliet@capulet.example@shoppingsite.example`, a `/` in that
      of `acct:bob@example.com/x`), URL.String escapes it and http.Client.Get,
      which parses the text it is given, refuses it as an invalid escape before
      sending anything. The `get` parameter of the client's methods is not
      constrained to fail on such text. */
  lemma JrdUrlRefused(r: Url, rels: seq<string>)
    requires !StoredHost(WebFingerHost(r))
    ensures UrlParse(Format(JrdUrl(r, rels))) == Err(InvalidEscape)
  {
    var q := JrdUrl(r, rels).rawQuery;
    JrdUrlText(r, rels);
    Query.QueryCharsSafe(q);
    WellKnownPathChars();
    HttpsScheme();
    UnstoredHostRefused("https", WebFingerHost(r), WellKnownPath, q);
  }

  /** Regroups string literals and concatenations only; kept apart to keep the
      proofs that use it small. */
  lemma HttpsScheme()
    ensures IsLowerSchemeName("https") && "https" + "://" == "https://"
  {
  }

  lemma WellKnownPathChars()
    ensures WellKnownPath[0] == '/' && '?' !in WellKnownPath && '#' !in WellKnownPath && !HasCtl(WellKnownPath)
  {
    assert '?' !in WellKnownPath;
    assert '#' !in WellKnownPath;
    assert !HasCtl(WellKnownPath);
  }

  /** Values.Encode writes keys in increasing order, and "rel" sorts before
      "resource". */
  lemma RelBeforeResource()
    ensures Query.Le("rel", "resource") && "rel" != "resource"
  {
    assert Query.Le("l", "source");
    assert Query.Le("el", "esource");
  }
}
