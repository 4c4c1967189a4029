# A verified model of a Go WebFinger client

The model covers the core of a WebFinger (RFC 7033) client library written in Go:

- **Resource normalisation.** `Parse` turns loose input into an absolute URI. Text
  without a scheme but with an `@` (`bob@example.com`) becomes an `acct:` URI
  (RFC 7565). Anything else without a scheme is refused.
- **Query target.** `WebFingerHost` picks the host to ask. `String` writes a resource
  back as a URI. `JRDURL` builds the query URL
  `https://host/.well-known/webfinger?rel=…&resource=…` of sections 4 and 4.1 of
  RFC 7033.
- **Fetch decision.** `fetchJRD` issues the GET. After certain transport errors it
  retries once over plain http, and only when the client allows HTTP. It then
  accepts only 2xx statuses. `LookupResource` and `Lookup` wrap it.
- **JRD accessors.** The JSON Resource Descriptor of section 4.4 of RFC 7033, with
  `GetProperty` on the document and on a link, and `GetLinkByRel`. Property values
  are tri-state: a string, null, or absent. The first matching link wins.

The parts of Go's standard library these functions depend on are modelled in their
own modules, so that the client's behaviour can be stated exactly:

- `url.Parse` and `URL.String` (module `Url`), with the round trip
  `UrlParse(Format(u)) == Ok(u)` proved for every URL url.Parse can produce.
- `url.Values.Encode` and `url.ParseQuery` (module `Query`). Keys are sorted, and
  reading the query back gives the pairs that were written, in order.
- `url.QueryEscape` and `url.QueryUnescape` over UTF-8 (module `Escape`).
  QueryUnescape is proved to undo QueryEscape.
- `strings.Cut`, `SplitN`, `ToLower`, `Contains`, `Split` and `Join` (module `Text`).

net/url and the strings package are not part of this model's sources. Their modules
follow Go's documented behaviour.

Files:

| file | module | contents |
|---|---|---|
| `wrappers.dfy` | `Wrappers` | `Option` and `Result` |
| `text.dfy` | `Text` | string search, cutting, lower-casing, splitting and joining |
| `escape.dfy` | `Escape` | escape validity, UTF-8, query escaping and its inverse |
| `url.dfy` | `Url` | the `Url` record, url.Parse, URL.String, well-formedness, round trip |
| `query.dfy` | `Query` | byte order of strings, sorted keys, Values.Encode, ParseQuery |
| `resource.dfy` | `Resource` | Parse, WebFingerHost, String, JRDURL (client.go) |
| `client.dfy` | `Client` | fetchJRD as a specification function and as a method of class `Client`, LookupResource, Lookup |
| `descriptor.dfy` | `Descriptor` | JRD and Link, GetProperty, GetLinkByRel, the RFC 6415 example document |
| `resource_cases.dfy` | `ResourceCases` | the resources of client_test.go and what Parse, WebFingerHost, String and JRDURL make of them |

The transport is a function parameter `get: string -> Reply`, and JRD decoding is a
function parameter `decode`. `Client` keeps only its `AllowHTTP` flag. fetchJRD
changes the scheme of the URL it was handed, so the method receives that URL through
a `UrlRef` object and changes its field.

## Model

| member | source | states |
|---|---|---|
| `Resource.Parse` | client.go:50-67 | A result always has a scheme and is a URL url.Parse can produce. A url.Parse error is passed on. A parse that finds a scheme is returned unchanged. Scheme-less text without `@` is refused as not absolute. |
| `Resource.AcctParse` | client.go:57-62 | `acct:` followed by anything parses, if at all, with scheme `acct`. So the retry never takes the `@` branch again: Parse recurses at most once. |
| `Resource.SchemedParse` | client.go:51 | Text starting with a scheme name and `:` parses, if at all, with that scheme. |
| `Resource.AcctParseOk` | client.go:62 | Text url.Parse accepts without a scheme is also accepted behind `acct:`. |
| `Resource.ParseSucceeds` | client.go:50-67 | Parse succeeds exactly when url.Parse succeeds and either finds a scheme or the text holds an `@`. |
| `Resource.ParseEmailLike` | client.go:56-62 | Scheme-less email-like text becomes the URI with scheme `acct`, opaque part exactly the input, and empty host, path, query and fragment. |
| `Resource.EmailLikeRetried` | client.go:57-62 | Scheme-less text with an `@` is parsed again behind `acct:`. |
| `Resource.AcctOpaque` | client.go:62 | Behind `acct:`, text without a leading `/`, `?` or `#` is kept whole as the opaque part. |
| `Resource.WebFingerHost` | client.go:75-85 | A non-empty host is returned verbatim. Otherwise, for `acct` or `mailto` with an `@` in the opaque part, the result is the text after the first `@`. In every other case it is "". |
| `Resource.EmailLikeHost` | client.go:75-85 | For parsed `local@domain` input, the host to query is `domain`. |
| `Resource.String` | client.go:88-91 | The text written for a well-formed resource parses back to the same resource. |
| `Resource.StringParse` | client.go:88-91 | Parsing a resource's String gives the resource again. |
| `Resource.JrdUrl` | client.go:95-105 | The query URL has scheme https, host WebFingerHost, path `/.well-known/webfinger`, and no user, opaque part or fragment. Its query reads back as each `rel` value in order, then the one `resource=String()`. |
| `Resource.JrdQuery` | client.go:100-103 | Values.Encode of `resource` and `rel`, read back with ParseQuery, gives the rel pairs in order, followed by the resource pair. |
| `Resource.HttpsText` | client.go:96-99 | An https URL with a host, an absolute path and a query is written `https://`, then the host escaped as URL.String escapes hosts, then `path?query`. |
| `Resource.JrdUrlText` | client.go:95-105 | The query URL is written `https://`, the escaped host, `/.well-known/webfinger?` and the query. The query is never empty. |
| `Resource.JrdUrlRefused` | client.go:175-176 | When the host to query is one url.Parse could not have stored (it holds `@`, `/`, a space or another character a host may not hold), the text fetchJRD hands to `Get` is refused by url.Parse as an invalid escape. Go's Get refuses this text before sending anything; the model's `get` parameter is not constrained to fail on it. |
| `Resource.QueryValues` | client.go:100-103 | The url.Values of JRDURL: `resource` with the one value String(), and `rel` with the rel values. What Encode makes of them is stated by `Resource.JrdQuery`. |
| `Resource.RelBeforeResource` | client.go:100-103 | `rel` sorts strictly before `resource`, so Encode writes the rel values first. |
| `Client.Outcome` | client.go:194-204 | The fetch succeeds exactly when the last reply is a response with a 2xx status whose body decodes, and then gives the decoded document. A transport error is reported as itself. A status outside [200,300) is reported with its status text. A 2xx body that does not decode is reported with the decoder's error. |
| `Client.Downgradable` | client.go:178-182 | The lower-cased transport error contains "connection refused" or "ssl_certificate_error". |
| `Client.DowngradableIgnoresCase` | client.go:178-182 | The test does not depend on the case of the message. |
| `Client.DowngradableAnyCase` | client.go:178-182 | A message holding "connection refused" anywhere, in any mix of upper and lower case (such as "Connection Refused"), allows the retry. |
| `Client.DowngradableSslAnyCase` | client.go:178-182 | A message holding "ssl_certificate_error" anywhere, in any mix of cases (such as App Engine's "SSL_CERTIFICATE_ERROR"), allows the retry. |
| `Client.Successful` | client.go:194 | Status codes from 200 to 299 inclusive. |
| `Client.FetchSpec` | client.go:170-205 | Either one or two GETs, the first always of the URL as given. There is a second GET exactly when HTTP is allowed and the first GET failed with an error whose lower-cased text contains "connection refused" or "ssl_certificate_error". The second GET goes to the same URL with scheme `http`. The result is that of the last reply. |
| `Client.NoDowngradeWithoutAllowHttp` | client.go:181-191 | Without AllowHTTP there is exactly one GET, of the https URL, and the URL is left unchanged. |
| `Client.UrlRef.constructor` | client.go:170 | A reference to a fresh copy of a URL, as fetchJRD receives `*url.URL`. |
| `Client.Client.constructor` | client.go:107-119 | A client with the given AllowHTTP flag. |
| `Client.Client.FetchJrd` | client.go:170-205 | The requests made, the result, and the URL's new scheme are those of FetchSpec for the client's flag. |
| `Client.Client.LookupResource` | client.go:159-168 | Looks up the resource's query URL. The requests and the result are those of FetchSpec, and the first request is for the JRDURL. |
| `Client.Client.Lookup` | client.go:147-154 | An identifier Parse refuses gives that parse error and makes no request. Otherwise the requests and the result are those of fetching the resource's JRDURL. |
| `Descriptor.PropertyValue` | jrd_test.go:21-23 | A property's string when it has one, and "" when it is null or absent. |
| `Descriptor.Jrd.GetProperty` | jrd_test.go:65-74 | A document property: its value when it is a string, "" when it is null or absent. |
| `Descriptor.Link.GetProperty` | jrd_test.go:86-94 | A link's own property: its value when it is a string, "" when it is null or absent. |
| `Descriptor.Jrd.GetLinkByRel` | jrd_test.go:76-91 | None exactly when no link has the relation type. Otherwise the link at the first position, in document order, with that relation type, with all its fields. |
| `Descriptor.FirstIndex` | jrd_test.go:83-85 | The first position whose link has the relation type, or None when there is none. |
| `Descriptor.FirstIndexAppend` | jrd_test.go:26-45 | First match wins. Links appended after a match do not change the answer. A match found only among appended links is offset by the length of the original list. |
| `Descriptor.FirstIndexIs` | jrd_test.go:83-85 | The position of the first link with the relation type is exactly what FirstIndex returns. |
| `Descriptor.GetLinkByRelAppend` | jrd_test.go:83-85 | Appending links does not change a link GetLinkByRel already finds. |
| `Descriptor.ExampleAccessors` | jrd_test.go:12-94 | On the RFC 6415 example document, every accessor result jrd_test.go checks. This includes the first of two "author" links and a null property that reads as "". |
| `ResourceCases.ParseHttp` | client_test.go:47-56 | `http://example.com/` parses to scheme http, host example.com, path "/". |
| `ResourceCases.ParsePlainHost` | client_test.go:47-56 | `scheme://host/path` with plain host and path parses to that scheme, host and path. |
| `ResourceCases.PlainHostText` | client_test.go:49-53 | That URL is written back as `scheme://host/path`, since a plain host needs no escaping. |
| `ResourceCases.HostPathText` | client.go:88-91 | `scheme://host/path` is written with its host escaped. |
| `ResourceCases.ParseEmailText` | client_test.go:58-59 | url.Parse reads email-like text as a scheme-less path. |
| `ResourceCases.EmailLikeResource` | client_test.go:58-66 | Email-like text with an `@` becomes `acct:` with the text as its opaque part. |
| `ResourceCases.NotEmailLike` | client_test.go:69-73 | Plain text without an `@` is refused as not absolute. |
| `ResourceCases.ParseBob` | client_test.go:58-66 | `bob@example.com` becomes scheme `acct`, opaque `bob@example.com`. |
| `ResourceCases.BobHost` | client_test.go:88-92 | Its host to query is example.com. |
| `ResourceCases.BobString` | client_test.go:117-122 | It is written back as `acct:bob@example.com`. |
| `ResourceCases.ParseHostOnly` | client_test.go:69-73 | `example.com` is refused. |
| `ResourceCases.ParseLocalOnly` | client_test.go:147-153 | `bob` is refused, so Lookup of it fails before any request. |
| `ResourceCases.ParseHostPort` | client_test.go:155-163 | `local@host:port`, as TestLookup_404 builds it from the test server's address, is refused by url.Parse because its first path segment holds a colon. Lookup fails before any request, not with a 404. |
| `ResourceCases.ParseBadEscape` | client_test.go:75-78 | `%` is refused with url.Parse's invalid-escape error. |
| `ResourceCases.ParseMailto` | client_test.go:94-98 | `mailto:bob@example.com` is opaque. |
| `ResourceCases.MailtoHost` | client_test.go:94-98 | Its host to query is example.com. |
| `ResourceCases.MailtoText` | client_test.go:94-98 | That URI is written back as `mailto:bob@example.com`. |
| `ResourceCases.ParseFile` | client_test.go:100-104 | `file:///example` parses with an empty host, and its host to query is "". |
| `ResourceCases.FileExampleText` | client_test.go:100-104 | The parsed `file:///example` is written back as `file:///example`. |
| `ResourceCases.AcctString` | client_test.go:117-122 | `acct:local@domain` is written back as itself. |
| `ResourceCases.AcctHost` | client.go:78-82 | The host to query for `acct:local@domain` is `domain`. |
| `ResourceCases.AcctDomainRefused` | client.go:78-82 | For `acct:local@domain` with a domain url.Parse could not store, the first request's text is refused by url.Parse. |
| `ResourceCases.JulietRefused` | client.go:78-82 | For `acct:juliet@capulet.example@shoppingsite.example`, the host to query is `capulet.example@shoppingsite.example`, and the request text is refused as an invalid escape. |
| `ResourceCases.AcctValues` | client.go:100-103 | The url.Values JRDURL encodes for `acct:local@domain` hold the rel values and the one resource `acct:local@domain`. |
| `ResourceCases.AcctPairs` | client.go:100-103 | For an acct resource, Encode writes every rel pair, then the resource pair. |
| `ResourceCases.EscapeColon` | client_test.go:110-111 | QueryEscape writes `:` as `%3A`. |
| `ResourceCases.EscapeAt` | client_test.go:110-111 | QueryEscape writes `@` as `%40`. |
| `ResourceCases.EscapeAcct` | client_test.go:110-111 | `acct:local@domain` with unreserved parts escapes to `acct%3Alocal%40domain`. |
| `ResourceCases.AcctJrdQuery` | client_test.go:107-111 | For two unreserved rel values, the query is `rel=r1&rel=r2&resource=acct%3Alocal%40domain`. |
| `ResourceCases.AcctEncodedPairs` | client.go:100-103 | The pairs are written `rel=r1`, `rel=r2`, then the escaped resource. |
| `ResourceCases.AcctJrdText` | client_test.go:107-115 | That query URL is written `https://domain/.well-known/webfinger?` followed by the query. |
| `ResourceCases.AcctJrdUrl` | client_test.go:107-115 | JRDURL of `acct:local@domain` with two rel values is `https://domain/.well-known/webfinger` with that query. url.Parse of that text gives the same URL. |
| `Url.ParseWellFormed` | client.go:51 | Every URL url.Parse produces satisfies WellFormed. |
| `Url.FormatRoundTrip` | client.go:88-91 | URL.String of a well-formed URL parses back to that URL. |
| `Url.UrlParse` | client.go:51 | url.Parse: the fragment is split off at the first `#`, then control characters, the scheme, the query, the authority and the path are read. Its properties are stated by `Url.ParseWellFormed`, `Url.FormatRoundTrip` and the lemmas below. |
| `Url.Format` | client.go:90 | URL.String: scheme and `:`, then the opaque part or `//`, user information, escaped host and path, then `?query` and `#fragment`. Its properties are stated by `Url.FormatRoundTrip` and `Url.HostRoundTrip`. |
| `Url.EscapeHost` | client.go:90 | The host as URL.String writes it: characters a host may hold stay as they are, every other character becomes the `%XX` escapes of its UTF-8 bytes. The text is never shorter than the host. |
| `Url.EscapeHostText` | client.go:90 | A written host holds only characters a host may hold, and `%` in well-formed escapes. |
| `Url.UnescapeHost` | client.go:51 | The host url.Parse stores: an accepted host is made of characters a host may hold, `%`, and non-ASCII characters. Only the empty text gives the empty host. |
| `Url.HostRoundTrip` | client.go:88-91 | Reading a written host gives it back exactly when url.Parse could have stored it. Otherwise the written text is refused as an invalid escape. |
| `Url.EscapeHostSafe` | client.go:88-91 | A host made only of characters a host may hold unescaped is stored and written as it is. |
| `Url.UnstoredHostRefused` | client.go:175-176 | `scheme://host/path?query`, written for a host url.Parse could not have stored, is refused when read back. |
| `Url.GetScheme` | client.go:51 | The scheme is refused exactly when the text starts with `:`. Otherwise it is a scheme name followed by `:`, or empty with the whole text left. |
| `Url.SchemeOfName` | client.go:57 | A scheme name followed by `:` is read as the scheme. |
| `Url.NoSchemeOf` | client.go:57 | Text with no `:` before its first non-scheme character has no scheme. |
| `Url.SchemedReference` | client.go:62 | Parsing `name:rest` is parsing `rest` after the scheme `name`. |
| `Url.ParseAfterSchemeWithScheme` | client.go:62 | With a scheme, the rest of the text always parses, and keeps that scheme. |
| `Url.UrlParsePrefixed` | client.go:62 | Prefixing text without `#` or control characters leaves the fragment split unchanged. |
| `Url.SchemedParseOk` | client.go:62 | Text url.Parse accepts without a scheme is also accepted behind any lower-case scheme name and `:`. |
| `Url.SchemedOpaque` | client.go:62 | Behind a scheme, text without a leading `/`, `?` or `#` becomes the opaque part, with everything else empty. |
| `Url.RelativePathParse` | client.go:51 | Text without `#`, `?`, `/` or `:` is read as a scheme-less path and nothing else. |
| `Url.ReferenceRoundTrip` | client.go:88-91 | URL.String without the fragment is read back as the URL without its fragment. |
| `Query.SortedKeys` | client.go:100-103 | Every key exactly once, in strictly increasing byte order. |
| `Query.Least` | client.go:100-103 | The smallest key of a non-empty set. |
| `Query.LeTotal` | client.go:100-103 | The byte order of strings is total. |
| `Query.LeAntisymmetric` | client.go:100-103 | The byte order of strings is antisymmetric. |
| `Query.LeTransitive` | client.go:100-103 | The byte order of strings is transitive. |
| `Query.KeyPairs` | client.go:100-103 | One pair per value of a key, in the values' order. What Encode makes of them is stated by `Query.PairsOfTwo` and `Query.ParseEncode`. |
| `Query.EncodePairs` | client.go:100-103 | Each pair written as `key=value`, both escaped. `Query.ParseEncode` states that the written pairs read back in order, and `ResourceCases.AcctEncodedPairs` gives them for the JRDURL query. |
| `Query.Encode` | client.go:100-103 | The encoding is empty exactly when there are no pairs. It holds only unreserved characters, `+`, `%`, `=` and `&`. |
| `Query.QueryCharsSafe` | client.go:100-103 | Such text holds no `#` and no control character, so it stays inside the query of the URL it is written into. |
| `Query.ParseQuery` | client_test.go:128-131 | url.ParseQuery: the query split at `&`; empty segments skipped, a segment holding `;` refused, every other one cut at its first `=` with both sides unescaped. `Query.ParseEncode` states that it reads back what Encode wrote. |
| `Query.ParseEncode` | client.go:100-103 | ParseQuery of Encode gives back every pair, in the order written. |
| `Query.PairsOfTwo` | client.go:100-103 | With two keys, all pairs of the smaller key come first, each key's values in order. |
| `Escape.QueryEscape` | client.go:100-103 | The escaped text holds only unreserved characters, `+` and `%`. |
| `Escape.QueryRoundTrip` | client.go:100-103 | QueryUnescape undoes QueryEscape. |
| `Escape.QueryUnescape` | client_test.go:128-131 | url.QueryUnescape: `+` read as a space, `%XX` as a byte, and the bytes read as UTF-8. `Escape.QueryRoundTrip` states that it undoes QueryEscape. |
| `Escape.QueryEscapeInjective` | client.go:100-103 | Different values never escape to the same text. |
| `Escape.QueryEscapeConcat` | client.go:100-103 | Escaping works character by character. |
| `Escape.QueryEscapeUnreserved` | client.go:100-103 | Unreserved text is left as it is. |
| `Escape.Utf8RoundTrip` | client.go:100-103 | Decoding the UTF-8 encoding of text gives the text back. |
| `Escape.HexDigit` | client.go:100-103 | The hexadecimal digit written for a value reads back as that value. |
| `Text.Cut` | client.go:58 | SplitN(s, "@", 2) gives two parts exactly when the separator occurs. The text is then the part before the first occurrence, the separator, and the part after it. |
| `Text.CutAt` | client.go:79-81 | The text after the first `@` is found when no `@` precedes it. |
| `Text.LastCut` | client.go:51 | Cutting at the last occurrence, as url.Parse splits user information from the host. |
| `Text.IndexOf` | client.go:58 | The first occurrence of a character, or None when it does not occur. |
| `Text.LastIndexOf` | client.go:51 | The last occurrence of a character, or None when it does not occur. |
| `Text.ToLower` | client.go:178 | The result has the length of the text and holds no ASCII capital letter. `Text.ToLowerAnyCase`, `Text.ToLowerUnchanged` and `Text.ContainsAnyCase` state what fetchJRD relies on. |
| `Text.LowerChar` | client.go:178 | The result is never an ASCII capital letter, and an ASCII character stays ASCII. `Text.ToLowerAnyCase` states that each capital becomes its lower-case letter and `Text.ToLowerUnchanged` that other characters are kept. |
| `Text.Contains` | client.go:181-182 | True exactly when the pattern occurs at some position. |
| `Text.SplitJoin` | client.go:100-103 | Splitting joined parts that do not contain the separator gives the parts back. |
| `Text.Split` | client.go:58 | At least one part. No part contains the separator, and joining the parts with it gives the text back. |
| `Text.Join` | client.go:100-103 | strings.Join: one part is returned as it is. Splitting undoes it (`Text.SplitJoin`). |
| `Text.ToLowerIdempotent` | client.go:178 | Lower-casing twice is lower-casing once. |
| `Text.ToLowerUnchanged` | client.go:178 | Text with no ASCII capital, no Kelvin sign and no dotted capital I is its own lower case. |
| `Text.ToLowerAnyCase` | client.go:178 | Text that spells an ASCII pattern without capitals, each letter in either case, lower-cases to exactly that pattern. |
| `Text.ToLowerConcat` | client.go:178 | Lower-casing works piece by piece over concatenation. |
| `Text.ContainsAnyCase` | client.go:178-182 | Such a pattern, capitalised in any way anywhere in the text, is found in the lower-cased text. |

## Left out

- Host syntax: ports, IPv6 literals and zone identifiers are not checked. url.Parse's host escapes are modelled: a host is stored unescaped and written escaped by URL.String. A `%XX` escape below `%80` other than `%25` is refused, and so is an ASCII character a host may not hold unescaped. Escapes that do not decode as UTF-8 are refused as well (`NonUtf8Host`), where Go keeps the raw bytes.
- Stored form of components: Go unescapes the path and fragment into `Path` and `Fragment`, keeping `RawPath` and `RawFragment` beside them, and URL.String escapes them again. Go also unescapes user information and escapes it again when writing. The model keeps the path, fragment and user information as written, still escaped, and writes them back verbatim. Only the host is unescaped and escaped again. `RawPath` and `RawFragment` are therefore not fields of `Url`.
- Non-UTF-8 text: a Go string may hold any bytes, while a Dafny string is Unicode text. Escaping works on the UTF-8 encoding of that text.
- Text.LowerChar: maps only ASCII capitals and the two non-ASCII characters that lower to ASCII letters. Other characters are left as they are. That cannot change whether the two ASCII patterns of fetchJRD occur.
- Query.ParseQuery: returns None where url.ParseQuery reports an error. It gives the pairs as a sequence in the order they are added to the map, rather than a map. It does not model that url.ParseQuery keeps reading after a bad segment.
- The HTTP transport (`http.Client.Get`, redirects, TLS), `ioutil.ReadAll` and `Body.Close` (client.go:176-202) are I/O. A reply is given by the `get` parameter together with its body, so a failure to read the body is not modelled.
- `ParseJRD` and its JSON decoding, including the `Expires` time format (jrd_test.go:53-63, 97-102), are the `decode` parameter. jrd.go is not part of this model, so the accessors follow the behaviour jrd_test.go checks.
- Logging (`logf`), `DefaultClient`, `NewClient` and the package-level `Lookup` (client.go:121-142, 207-213) are wiring around `Client.Lookup`.
- The HTTP client inside `Client` is the `get` parameter of its methods.
- The test server of client_test.go (TestLookup, TestLookup_404) is not modelled. What TestLookup relies on is in the contracts of `Client.Client.Lookup` and `Client.Outcome`. TestLookup_404 never reaches the server: its identifier `bob@127.0.0.1:PORT` has no scheme and a colon in its first path segment, so url.Parse refuses it (`ResourceCases.ParseHostPort`) and the error the test expects is that parse error, not a 404.
- The command-line programs under cmd/ and examples/ only handle flags and print results.
- Resource.Parse: the error for text that is neither absolute nor email-like carries the input. The message text Go formats around it is not modelled.
- ResourceCases.AcctJrdUrl: states the JRDURL case of client_test.go for any `acct:local@domain` with unreserved local part and domain and any two unreserved rel values. It is not instantiated at the literal `bob@example.com`, `a` and `b`.
- Descriptor.Jrd.GetLinkByRel: returns the link as a value. Go returns a `*Link`; aliasing through it is not modelled.
