/** The resources client_test.go parses, and what WebFingerHost, String and JRDURL
    make of them, derived from the general properties of Parse and URL.String. */
module ResourceCases {
  import opened Wrappers
  import opened Text
  import opened Escape
  import opened Url
  import opened Resource
  import Query

  const HttpExample := Url("http", "", None, "example.com", "/", false, false, "", "")

  /** Text of letters, digits, '.', '-' and '/' only: no character url.Parse
      treats specially in a host or a path. */
  predicate PlainText(s: string) {
    forall i :: 0 <= i < |s| ==> PlainChar(s[i])
  }

  predicate PlainChar(c: char) {
    'a' <= c <= 'z' || 'A' <= c <= 'Z' || '0' <= c <= '9' || c == '.' || c == '-' || c == '/'
  }

  lemma PlainTextFacts(s: string)
    requires PlainText(s)
    ensures '?' !in s && '#' !in s && '@' !in s && ':' !in s && !HasCtl(s) && ValidEscapes(s)
  {
    assert forall c :: c in s ==> !IsCtl(c);
    NoPercentValid(s);
  }

  lemma SchemeNames()
    ensures IsLowerSchemeName("http") && IsLowerSchemeName("https")
    ensures IsLowerSchemeName("mailto") && IsLowerSchemeName("file")
  {
  }

  lemma PlainHost()
    ensures PlainText("example.com") && '/' !in "example.com"
  {
  }

  /** A plain host is stored and written as it is. */
  lemma PlainHostSafe(host: string)
    requires PlainText(host) && '/' !in host
    ensures StoredHost(host) && EscapeHost(host) == host
  {
    assert forall i :: 0 <= i < |host| ==> host[i] in host;
    EscapeHostSafe(host);
  }

  lemma PlainPaths()
    ensures PlainText("/") && HasPrefix("/", "/") && !HasPrefix("/", "//")
    ensures PlainText("/example") && HasPrefix("/example", "/") && !HasPrefix("/example", "//")
    ensures PlainText(WellKnownPath) && HasPrefix(WellKnownPath, "/") && !HasPrefix(WellKnownPath, "//")
  {
    assert "/example"[..1] == "/" && "/example"[1] == 'e';
    assert WellKnownPath[..1] == "/" && WellKnownPath[1] == '.';
  }

  /** scheme://host/path, with plain host and path. */
  lemma HostUrlWellFormed(scheme: string, host: string, path: string)
    requires IsLowerSchemeName(scheme) && PlainText(host) && '/' !in host
    requires PlainText(path) && HasPrefix(path, "/") && !HasPrefix(path, "//")
    ensures WellFormed(Url(scheme, "", None, host, path, false, false, "", ""))
  {
    PlainHostSafe(host);
    PlainTextFacts(path);
    NoPercentValid("");
    assert !HasCtl("");
  }

  lemma HttpExampleWellFormed()
    ensures WellFormed(HttpExample)
  {
    SchemeNames();
    PlainHost();
    PlainPaths();
    HostUrlWellFormed("http", "example.com", "/");
  }

  /** URL.String of `scheme://host/path` with a plain host. */
  lemma PlainHostText(scheme: string, host: string, path: string)
    requires scheme != "" && PlainText(host) && '/' !in host && path != "" && path[0] == '/'
    ensures Format(Url(scheme, "", None, host, path, false, false, "", "")) == scheme + "://" + host + path
  {
    PlainHostSafe(host);
    HostPathText(scheme, host, path);
  }

  /** URL.String of `scheme://host/path`: the host is written escaped. */
  lemma HostPathText(scheme: string, host: string, path: string)
    requires scheme != "" && path != "" && path[0] == '/'
    ensures Format(Url(scheme, "", None, host, path, false, false, "", ""))
         == scheme + "://" + EscapeHost(host) + path
  {
    var u := Url(scheme, "", None, host, path, false, false, "", "");
    HostMainText(u);
    HostPathConcat(scheme, MainText(u), EscapeHost(host), path);
  }

  /** Regroups string literals and concatenations only; kept apart to keep the
      proofs that use it small. */
  lemma HostPathConcat(scheme: string, main: string, w: string, path: string)
    requires main == "//" + w + path
    ensures scheme + ":" + main + "" + "" == scheme + "://" + w + path
  {
  }

  /** `scheme://host/path` with a plain host and path is read as that scheme, host
      and path, and written back as the same text. */
  lemma ParsePlainHost(scheme: string, host: string, path: string)
    requires IsLowerSchemeName(scheme) && PlainText(host) && '/' !in host
    requires PlainText(path) && HasPrefix(path, "/") && !HasPrefix(path, "//")
    ensures UrlParse(scheme + "://" + host + path) == Ok(Url(scheme, "", None, host, path, false, false, "", ""))
  {
    var u := Url(scheme, "", None, host, path, false, false, "", "");
    HostUrlWellFormed(scheme, host, path);
    assert path[0] == '/' by {
      assert path[..1][0] == path[0];
    }
    PlainHostText(scheme, host, path);
    FormatRoundTrip(u);
  }

  /** `http://example.com/` is absolute and is taken as it is. */
  lemma ParseHttp()
    ensures Parse("http://example.com/") == Ok(HttpExample)
  {
    SchemeNames();
    PlainHost();
    PlainPaths();
    ParsePlainHost("http", "example.com", "/");
    HttpExampleParts();
  }

  /** Regroups string literals and concatenations only; kept apart to keep the
      proofs that use it small. */
  lemma HttpExampleParts()
    ensures "http" + "://" + "example.com" + "/" == "http://example.com/"
  {
  }

  // ---------------------------------------------------------------------------
  // Email-like identifiers

  /** Plain text with `@` in it, the shape of `bob@example.com`. */
  predicate EmailText(s: string) {
    forall i :: 0 <= i < |s| ==> (PlainChar(s[i]) && s[i] != '/') || s[i] == '@'
  }

  lemma EmailTextFacts(raw: string)
    requires EmailText(raw)
    ensures '#' !in raw && '?' !in raw && '/' !in raw && ':' !in raw && !HasCtl(raw) && ValidEscapes(raw)
  {
    assert forall c :: c in raw ==> !IsCtl(c) && c != '%';
    NoPercentValid(raw);
  }

  /** url.Parse reads email-like text as a path with no scheme. */
  lemma ParseEmailText(raw: string)
    requires EmailText(raw)
    ensures UrlParse(raw) == Ok(Url("", "", None, "", raw, false, false, "", ""))
  {
    EmailTextFacts(raw);
    RelativePathParse(raw);
  }

  lemma EmailLikeResource(raw: string)
    requires EmailText(raw) && '@' in raw
    ensures Parse(raw) == Ok(Url("acct", raw, None, "", "", false, false, "", ""))
  {
    ParseEmailText(raw);
    ParseEmailLike(raw);
  }

  lemma NotEmailLike(raw: string)
    requires EmailText(raw) && '@' !in raw
    ensures Parse(raw) == Err(NotAbsolute(raw))
  {
    ParseEmailText(raw);
  }

  const Bob := Url("acct", "bob@example.com", None, "", "", false, false, "", "")

  /** `bob@example.com` becomes `acct:bob@example.com`. */
  lemma ParseBob()
    ensures Parse("bob@example.com") == Ok(Bob)
  {
    assert EmailText("bob@example.com");
    assert "bob@example.com"[3] == '@';
    EmailLikeResource("bob@example.com");
  }

  /** The host to query for `acct:bob@example.com` is example.com. */
  lemma BobHost()
    ensures WebFingerHost(Bob) == "example.com"
  {
    assert "bob@example.com" == "bob" + ['@'] + "example.com";
    CutAt("bob", '@', "example.com");
  }

  /** `acct:bob@example.com` is written back with its scheme. */
  lemma BobString()
    ensures String(Bob) == "acct:bob@example.com"
  {
    OpaqueText("acct", "bob@example.com");
    BobParts();
  }

  /** Regroups string literals and concatenations only; kept apart to keep the
      proofs that use it small. */
  lemma BobParts()
    ensures "acct" + ":" + "bob@example.com" == "acct:bob@example.com"
  {
  }

  /** Text with neither a scheme nor an `@` is refused. */
  lemma ParseHostOnly()
    ensures Parse("example.com") == Err(NotAbsolute("example.com"))
  {
    assert EmailText("example.com") && '@' !in "example.com";
    NotEmailLike("example.com");
  }

  lemma ParseLocalOnly()
    ensures Parse("bob") == Err(NotAbsolute("bob"))
  {
    assert EmailText("bob") && '@' !in "bob";
    NotEmailLike("bob");
  }

  /** An email-like identifier whose domain carries a port, as client_test.go
      builds from the address of its test server (`bob@127.0.0.1:8080`), is refused
      by url.Parse before any request: with no scheme, its first path segment holds
      a colon. */
  lemma ParseHostPort(local: string, host: string, port: string)
    requires ':' !in local && ':' !in host
    requires var raw := local + "@" + host + ":" + port;
      '/' !in raw && '?' !in raw && '#' !in raw && !HasCtl(raw)
    ensures Parse(local + "@" + host + ":" + port) == Err(Syntax(ColonInFirstSegment))
  {
    var raw := local + "@" + host + ":" + port;
    assert raw[|local|] == '@';
    assert forall j :: 0 <= j < |local| ==> raw[j] == local[j];
    NoSchemeOf(raw, |local|);
    assert ToLower("") == "";
    assert raw[|local| + 1 + |host|] == ':';
    NoSlashPrefix(raw);
    assert Cut(raw, '#') == (raw, "", false);
    assert Cut(raw, '?') == (raw, "", false);
    assert Cut(raw, '/') == (raw, "", false);
  }

  /** A bad escape is refused by url.Parse. */
  lemma ParseBadEscape()
    ensures Parse("%") == Err(Syntax(InvalidEscape))
  {
    assert !HasCtl("%") by {
      assert forall c :: c in "%" ==> !IsCtl(c);
    }
    assert Cut("%", '#') == ("%", "", false);
    NoSchemeOf("%", 0);
    assert Cut("%", '?') == ("%", "", false);
    assert Cut("%", '/') == ("%", "", false);
    assert !ValidEscapes("%");
    assert ParseAfterScheme("", "%") == Err(InvalidEscape);
  }

  // ---------------------------------------------------------------------------
  // Other schemes

  const Mailto := Url("mailto", "bob@example.com", None, "", "", false, false, "", "")

  /** An opaque URI: a scheme, then text without '/' in front. */
  lemma OpaqueWellFormed(scheme: string, text: string)
    requires IsLowerSchemeName(scheme) && EmailText(text) && text != ""
    ensures WellFormed(Url(scheme, text, None, "", "", false, false, "", ""))
  {
    assert !HasCtl(text) && '?' !in text && '#' !in text && text[0] != '/' by {
      assert forall c :: c in text ==> !IsCtl(c);
    }
    assert !HasCtl("");
    NoPercentValid("");
  }

  /** URL.String of an opaque URI is its scheme, a colon and the opaque text. */
  lemma OpaqueText(scheme: string, text: string)
    requires scheme != "" && text != ""
    ensures Format(Url(scheme, text, None, "", "", false, false, "", "")) == scheme + ":" + text
  {
  }

  lemma MailtoWellFormed()
    ensures WellFormed(Mailto)
  {
    SchemeNames();
    assert EmailText("bob@example.com");
    OpaqueWellFormed("mailto", "bob@example.com");
  }

  lemma MailtoText()
    ensures Format(Mailto) == "mailto:bob@example.com"
  {
    OpaqueText("mailto", "bob@example.com");
    MailtoParts();
  }

  /** Regroups string literals and concatenations only; kept apart to keep the
      proofs that use it small. */
  lemma MailtoParts()
    ensures "mailto" + ":" + "bob@example.com" == "mailto:bob@example.com"
  {
  }

  /** `mailto:bob@example.com` is opaque. */
  lemma ParseMailto()
    ensures Parse("mailto:bob@example.com") == Ok(Mailto)
  {
    MailtoWellFormed();
    MailtoText();
    FormatRoundTrip(Mailto);
  }

  /** The host to query for `mailto:bob@example.com` is after its `@`. */
  lemma MailtoHost()
    ensures WebFingerHost(Mailto) == "example.com"
  {
    assert "bob@example.com" == "bob" + ['@'] + "example.com";
    CutAt("bob", '@', "example.com");
  }

  const FileExample := Url("file", "", None, "", "/example", false, false, "", "")

  lemma FileExampleWellFormed()
    ensures WellFormed(FileExample)
  {
    SchemeNames();
    PlainPaths();
    assert PlainText("");
    HostUrlWellFormed("file", "", "/example");
  }

  lemma FileExampleText()
    ensures Format(FileExample) == "file:///example"
  {
    var slashes := "//";
    assert HasAuthorityText(FileExample);
    assert AuthorityText(FileExample) == slashes;
    assert HierText(FileExample) == slashes + "/example";
    assert "file" + ":" + (slashes + "/example") == "file:///example";
  }

  /** `file:///example` has an empty host, and nothing gives another. */
  lemma ParseFile()
    ensures Parse("file:///example") == Ok(FileExample)
    ensures WebFingerHost(FileExample) == ""
  {
    FileExampleWellFormed();
    FileExampleText();
    FormatRoundTrip(FileExample);
  }

  // ---------------------------------------------------------------------------
  // The query URL of an acct: resource, as for bob@example.com

  predicate UnreservedText(s: string) {
    forall i :: 0 <= i < |s| ==> Unreserved(s[i])
  }

  lemma EscapeColon()
    ensures QueryEscape(":") == "%3A"
  {
    assert !Unreserved(':') && Utf8(':') == [0x3A];
    assert EscapeBytes([0x3A]) == ['%', HexDigit(3), HexDigit(10)] + EscapeBytes([]);
  }

  lemma EscapeAt()
    ensures QueryEscape("@") == "%40"
  {
    assert !Unreserved('@') && Utf8('@') == [0x40];
    assert EscapeBytes([0x40]) == ['%', HexDigit(4), HexDigit(0)] + EscapeBytes([]);
  }

  /** Text of unreserved parts around one `:` and one `@` escapes only those two. */
  lemma EscapeAround(a: string, b: string, c: string)
    requires UnreservedText(a) && UnreservedText(b) && UnreservedText(c)
    ensures QueryEscape(a + ":" + b + "@" + c) == a + "%3A" + b + "%40" + c
  {
    EscapeParts(a, ":", b, "@", c);
    EscapeColon();
    EscapeAt();
  }

  /** Escaping unreserved text, then two separators between three such texts,
      escapes the separators alone. */
  lemma EscapeParts(a: string, x: string, b: string, y: string, c: string)
    requires UnreservedText(a) && UnreservedText(b) && UnreservedText(c)
    ensures QueryEscape(a + x + b + y + c) == a + QueryEscape(x) + b + QueryEscape(y) + c
  {
    var t := y + c;
    QueryEscapeConcat(y, c);
    QueryEscapeUnreserved(c);
    var u := b + t;
    EscapeAfterUnreserved(b, t);
    var v := x + u;
    QueryEscapeConcat(x, u);
    EscapeAfterUnreserved(a, v);
    RightNested(a, x, b, y, c);
    RightNested(a, QueryEscape(x), b, QueryEscape(y), c);
  }

  /** Regroups string literals and concatenations only; kept apart to keep the
      proofs that use it small. */
  lemma RightNested(a: string, b: string, c: string, d: string, e: string)
    ensures a + b + c + d + e == a + (b + (c + (d + e)))
  {
  }

  lemma EscapeAfterUnreserved(a: string, t: string)
    requires UnreservedText(a)
    ensures QueryEscape(a + t) == a + QueryEscape(t)
  {
    QueryEscapeConcat(a, t);
    QueryEscapeUnreserved(a);
  }

  /** An `acct:` URI. */
  function AcctUrl(local: string, domain: string): Url {
    Url("acct", local + "@" + domain, None, "", "", false, false, "", "")
  }

  lemma AcctString(local: string, domain: string)
    ensures String(AcctUrl(local, domain)) == "acct:" + local + "@" + domain
  {
    var u := AcctUrl(local, domain);
    assert u.opaquePart != "" by {
      assert u.opaquePart[|local|] == '@';
    }
    assert MainText(u) == local + "@" + domain;
  }

  lemma AcctHost(local: string, domain: string)
    requires '@' !in local
    ensures WebFingerHost(AcctUrl(local, domain)) == domain
  {
    assert local + "@" + domain == local + ['@'] + domain;
    CutAt(local, '@', domain);
  }

  /** A domain url.Parse could not store as a host makes the first request of the
      lookup one that http.Client.Get refuses to parse. */
  lemma AcctDomainRefused(local: string, domain: string, rels: seq<string>)
    requires '@' !in local && !StoredHost(domain)
    ensures UrlParse(Format(JrdUrl(AcctUrl(local, domain), rels))) == Err(InvalidEscape)
  {
    AcctHost(local, domain);
    JrdUrlRefused(AcctUrl(local, domain), rels);
  }

  /** The RFC 7565 example `acct:juliet@capulet.example@shoppingsite.example`
      (an `@` in the local part written unescaped): the host to query is
      everything after the first `@`, and its escaped `@` is refused. */
  lemma JulietRefused(rels: seq<string>)
    ensures UrlParse(Format(JrdUrl(AcctUrl("juliet", "capulet.example@shoppingsite.example"), rels)))
         == Err(InvalidEscape)
  {
    var domain := "capulet.example@shoppingsite.example";
    assert domain[15] == '@' && !HostChar(domain[15]);
    assert '@' !in "juliet";
    AcctDomainRefused("juliet", domain, rels);
  }

  lemma AcctValues(local: string, domain: string, rels: seq<string>)
    ensures QueryValues(AcctUrl(local, domain), rels)
         == map["rel" := rels, "resource" := ["acct:" + local + "@" + domain]]
  {
    AcctString(local, domain);
  }

  /** JRDURL for `acct:local@domain` writes each `rel` value, then the resource. */
  lemma AcctPairs(local: string, domain: string, rels: seq<string>)
    ensures Query.Pairs(QueryValues(AcctUrl(local, domain), rels))
         == Query.KeyPairs("rel", rels) + [("resource", "acct:" + local + "@" + domain)]
  {
    var res := "acct:" + local + "@" + domain;
    AcctValues(local, domain, rels);
    RelBeforeResource();
    Query.PairsOfTwo("rel", rels, "resource", [res]);
    assert Query.KeyPairs("resource", [res]) == [("resource", res)];
  }

  /** `acct:local@domain` with its `:` and its `@` escaped. */
  function EscapedAcct(local: string, domain: string): string {
    "acct%3A" + local + "%40" + domain
  }

  /** The escaped resource: only its `:` and its `@` change. */
  lemma EscapeAcct(local: string, domain: string)
    requires UnreservedText(local) && UnreservedText(domain)
    ensures QueryEscape("acct:" + local + "@" + domain) == EscapedAcct(local, domain)
  {
    var scheme := "acct";
    assert UnreservedText(scheme);
    EscapeAround(scheme, local, domain);
    assert "acct:" + local + "@" + domain == scheme + ":" + local + "@" + domain;
    assert "acct%3A" + local + "%40" + domain == scheme + "%3A" + local + "%40" + domain;
  }

  /** Joining three parts puts `&` between them. */
  lemma JoinThree(a: string, b: string, c: string)
    ensures Join([a, b, c], '&') == a + "&" + b + "&" + c
  {
    var parts := [a, b, c];
    assert parts[1..] == [b, c];
    assert parts[1..][1..] == [c];
  }

  /** The query of JRDURL for an `acct:` resource and two `rel` values, all of them
      unreserved apart from the resource's `:` and `@`. */
  function AcctQuery(local: string, domain: string, rel1: string, rel2: string): string {
    "rel=" + rel1 + "&" + "rel=" + rel2 + "&" + "resource=" + EscapedAcct(local, domain)
  }

  /** A pair of unreserved texts is written as it is. */
  lemma EncodePlainPair(key: string, value: string)
    requires UnreservedText(key) && UnreservedText(value)
    ensures Query.EncodePair((key, value)) == key + "=" + value
  {
    QueryEscapeUnreserved(key);
    QueryEscapeUnreserved(value);
  }

  lemma EncodeResource(local: string, domain: string)
    requires UnreservedText(local) && UnreservedText(domain)
    ensures Query.EncodePair(("resource", "acct:" + local + "@" + domain)) == "resource=" + EscapedAcct(local, domain)
  {
    var key, escaped := "resource", EscapedAcct(local, domain);
    ResourceKey();
    EscapeAcct(local, domain);
    EncodeEscapedPair(key, "acct:" + local + "@" + domain, escaped);
    ResourceKeyText(escaped);
  }

  /** Regroups string literals and concatenations only; kept apart to keep the
      proofs that use it small. */
  lemma ResourceKey()
    ensures UnreservedText("resource")
  {
  }

  /** Regroups string literals and concatenations only; kept apart to keep the
      proofs that use it small. */
  lemma ResourceKeyText(escaped: string)
    ensures "resource" + "=" + escaped == "resource=" + escaped
  {
  }

  /** A pair with an unreserved key is written as the key, `=` and the escaped value. */
  lemma EncodeEscapedPair(key: string, value: string, escaped: string)
    requires UnreservedText(key) && QueryEscape(value) == escaped
    ensures Query.EncodePair((key, value)) == key + "=" + escaped
  {
    QueryEscapeUnreserved(key);
  }

  lemma AcctEncodedPairs(local: string, domain: string, rel1: string, rel2: string)
    requires UnreservedText(local) && UnreservedText(domain) && UnreservedText(rel1) && UnreservedText(rel2)
    ensures Query.EncodePairs(Query.KeyPairs("rel", [rel1, rel2]) + [("resource", "acct:" + local + "@" + domain)])
         == ["rel=" + rel1, "rel=" + rel2, "resource=" + EscapedAcct(local, domain)]
  {
    var res := ("resource", "acct:" + local + "@" + domain);
    assert Query.KeyPairs("rel", [rel1, rel2]) + [res] == [("rel", rel1), ("rel", rel2), res];
    RelPair(rel1);
    RelPair(rel2);
    EncodeResource(local, domain);
    EncodeThree(("rel", rel1), ("rel", rel2), res);
  }

  /** A `rel` pair with an unreserved value. */
  lemma RelPair(rel: string)
    requires UnreservedText(rel)
    ensures Query.EncodePair(("rel", rel)) == "rel=" + rel
  {
    var key := "rel";
    assert UnreservedText(key);
    EncodePlainPair(key, rel);
    assert key + "=" == "rel=";
  }

  lemma EncodeThree(p: (string, string), q: (string, string), r: (string, string))
    ensures Query.EncodePairs([p, q, r]) == [Query.EncodePair(p), Query.EncodePair(q), Query.EncodePair(r)]
  {
    var e := Query.EncodePairs([p, q, r]);
    assert |e| == 3 && e[0] == Query.EncodePair(p) && e[1] == Query.EncodePair(q) && e[2] == Query.EncodePair(r);
  }

  lemma AcctQueryJoined(local: string, domain: string, rel1: string, rel2: string)
    ensures Join(["rel=" + rel1, "rel=" + rel2, "resource=" + EscapedAcct(local, domain)], '&')
         == AcctQuery(local, domain, rel1, rel2)
  {
    JoinThree("rel=" + rel1, "rel=" + rel2, "resource=" + EscapedAcct(local, domain));
  }

  lemma AcctJrdQuery(local: string, domain: string, rel1: string, rel2: string)
    requires UnreservedText(local) && UnreservedText(domain) && UnreservedText(rel1) && UnreservedText(rel2)
    ensures JrdUrl(AcctUrl(local, domain), [rel1, rel2]).rawQuery == AcctQuery(local, domain, rel1, rel2)
  {
    var r := AcctUrl(local, domain);
    var ps := Query.Pairs(QueryValues(r, [rel1, rel2]));
    assert JrdUrl(r, [rel1, rel2]).rawQuery == Join(Query.EncodePairs(ps), '&');
    AcctPairs(local, domain, [rel1, rel2]);
    AcctEncodedPairs(local, domain, rel1, rel2);
    AcctQueryJoined(local, domain, rel1, rel2);
  }

  /** Unreserved text has nothing url.Parse treats specially in a host. */
  lemma UnreservedFacts(s: string)
    requires UnreservedText(s)
    ensures !HasCtl(s) && ValidEscapes(s)
    ensures '?' !in s && '#' !in s && '/' !in s && '@' !in s && '%' !in s
    ensures StoredHost(s) && EscapeHost(s) == s
  {
    assert forall c :: c in s ==> Unreserved(c);
    NoPercentValid(s);
    EscapeHostSafe(s);
  }

  lemma AcctQueryFacts(local: string, domain: string, rel1: string, rel2: string)
    requires UnreservedText(local) && UnreservedText(domain) && UnreservedText(rel1) && UnreservedText(rel2)
    ensures var q := AcctQuery(local, domain, rel1, rel2); !HasCtl(q) && '#' !in q && q != ""
  {
    var q := AcctQuery(local, domain, rel1, rel2);
    assert forall c :: c in q ==> Unreserved(c) || c in "=&%" by {
      forall c | c in q ensures Unreserved(c) || c in "=&%" {
        assert c in "rel=" || c in rel1 || c in "&rel=" || c in rel2 || c in "&resource="
            || c in "acct%3A" || c in local || c in "%40" || c in domain;
      }
    }
  }

  /** The URL JRDURL builds for `acct:local@domain`. */
  function AcctJrd(local: string, domain: string, rel1: string, rel2: string): Url {
    Url("https", "", None, domain, WellKnownPath, false, false, AcctQuery(local, domain, rel1, rel2), "")
  }

  lemma AcctJrdWellFormed(local: string, domain: string, rel1: string, rel2: string)
    requires UnreservedText(local) && UnreservedText(domain) && UnreservedText(rel1) && UnreservedText(rel2)
    ensures WellFormed(AcctJrd(local, domain, rel1, rel2))
  {
    UnreservedFacts(domain);
    AcctQueryFacts(local, domain, rel1, rel2);
    PlainPaths();
    PlainTextFacts(WellKnownPath);
    SchemeNames();
  }

  lemma AcctJrdText(local: string, domain: string, rel1: string, rel2: string)
    requires UnreservedText(local) && UnreservedText(domain) && UnreservedText(rel1) && UnreservedText(rel2)
    ensures Format(AcctJrd(local, domain, rel1, rel2))
         == "https://" + domain + WellKnownPath + "?" + AcctQuery(local, domain, rel1, rel2)
  {
    AcctQueryFacts(local, domain, rel1, rel2);
    UnreservedFacts(domain);
    HttpsText(domain, WellKnownPath, AcctQuery(local, domain, rel1, rel2));
  }

  /** JRDURL for `acct:local@domain` and two `rel` values (client_test.go uses
      `bob@example.com`, `a` and `b`): `https://domain/.well-known/webfinger` with
      the query `rel=…&rel=…&resource=acct%3Alocal%40domain`, and that text is read
      back by url.Parse as the same URL. */
  lemma AcctJrdUrl(local: string, domain: string, rel1: string, rel2: string)
    requires UnreservedText(local) && UnreservedText(domain) && UnreservedText(rel1) && UnreservedText(rel2)
    ensures JrdUrl(AcctUrl(local, domain), [rel1, rel2]) == AcctJrd(local, domain, rel1, rel2)
    ensures UrlParse("https://" + domain + WellKnownPath + "?" + AcctQuery(local, domain, rel1, rel2))
         == Ok(AcctJrd(local, domain, rel1, rel2))
  {
    UnreservedFacts(local);
    AcctHost(local, domain);
    AcctJrdQuery(local, domain, rel1, rel2);
    AcctJrdWellFormed(local, domain, rel1, rel2);
    AcctJrdText(local, domain, rel1, rel2);
    FormatRoundTrip(AcctJrd(local, domain, rel1, rel2));
  }
}
