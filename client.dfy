/** The WebFinger client (client.go): the GET of fetchJRD with its one downgrade
    from https to http, the status check, and Lookup and LookupResource around it.
    The HTTP transport and the JSON decoder are parameters: `get` gives the reply to
    a GET of a URL, `decode` the document a response body holds. */
module Client {
  import opened Wrappers
  import opened Text
  import opened Escape
  import opened Url
  import opened Descriptor
  import Resource

  /** What the transport gives back for a GET: the error it reports, or a response
      with its status code, its status line and its body. */
  datatype Reply =
    | Failure(message: string)
    | Response(statusCode: int, status: string, body: seq<byte>)

  /** Why fetchJRD fails: the transport's error, a status outside 2xx (carrying the
      status text), or a body that does not decode. */
  datatype FetchError =
    | Transport(message: string)
    | Status(status: string)
    | Decode(message: string)

  /** Why Lookup fails: the identifier is not a resource, or the fetch failed. */
  datatype LookupError =
    | BadResource(parseError: Resource.Error)
    | FetchFailed(fetchError: FetchError)

  /** The transport errors after which a client that allows HTTP tries again over
      http: their lower-cased text mentions a refused connection or (as App Engine
      reports one) an SSL certificate error. */
  predicate Downgradable(message: string) {
    var text := ToLower(message);
    Contains(text, "connection refused") || Contains(text, "ssl_certificate_error")
  }

  /** The test ignores case: a message and its lower-cased text are treated alike. */
  lemma DowngradableIgnoresCase(message: string)
    ensures Downgradable(ToLower(message)) == Downgradable(message)
  {
    ToLowerIdempotent(message);
  }

  /** "connection refused" in any mix of cases, anywhere in the message, makes the
      error one that allows the retry. */
  lemma DowngradableAnyCase(pre: string, mid: string, post: string)
    requires |mid| == 18
    requires forall i :: 0 <= i < 18 ==> CaseOf(mid[i], "connection refused"[i])
    ensures Downgradable(pre + mid + post)
  {
    var p := "connection refused";
    assert forall i :: 0 <= i < |p| ==> p[i] as int < 0x80 && !('A' <= p[i] <= 'Z');
    ContainsAnyCase(pre, mid, post, p);
  }

  /** So does App Engine's "SSL_CERTIFICATE_ERROR", in any mix of cases. */
  lemma DowngradableSslAnyCase(pre: string, mid: string, post: string)
    requires |mid| == 21
    requires forall i :: 0 <= i < 21 ==> CaseOf(mid[i], "ssl_certificate_error"[i])
    ensures Downgradable(pre + mid + post)
  {
    var p := "ssl_certificate_error";
    assert forall i :: 0 <= i < |p| ==> p[i] as int < 0x80 && !('A' <= p[i] <= 'Z');
    ContainsAnyCase(pre, mid, post, p);
  }

  predicate Successful(statusCode: int) {
    200 <= statusCode < 300
  }

  /** The last reply turned into the result of fetchJRD. */
  function Outcome(reply: Reply, decode: seq<byte> -> Result<Jrd, string>): (r: Result<Jrd, FetchError>)
    ensures r.Ok? <==> reply.Response? && Successful(reply.statusCode) && decode(reply.body).Ok?
    ensures r.Ok? ==> decode(reply.body) == Ok(r.value)
    ensures reply.Failure? ==> r == Err(Transport(reply.message))
    ensures reply.Response? && !Successful(reply.statusCode) ==> r == Err(Status(reply.status))
    ensures reply.Response? && Successful(reply.statusCode) && decode(reply.body).Err? ==>
      r == Err(Decode(decode(reply.body).error))
  {
    match reply
    case Failure(message) => Err(Transport(message))
    case Response(statusCode, status, body) =>
      if !Successful(statusCode) then Err(Status(status))
      else
        match decode(body)
        case Ok(jrd) => Ok(jrd)
        case Err(message) => Err(Decode(message))
  }

  /** What fetchJRD does: the URLs it requests, the query URL afterwards (its scheme
      may have been changed), and the result. */
  datatype Fetch = Fetch(requests: seq<string>, target: Url, result: Result<Jrd, FetchError>)

  /** fetchJRD as a function of the client's AllowHTTP flag, the query URL, the
      transport and the decoder. A failed GET is tried once more over http, and only
      when HTTP is allowed and the error is one of the two above; the result is that
      of the last reply. */
  function FetchSpec(allowHttp: bool, target: Url, get: string -> Reply,
                     decode: seq<byte> -> Result<Jrd, string>): (f: Fetch)
    ensures 1 <= |f.requests| <= 2 && f.requests[0] == Format(target)
    ensures |f.requests| == 2 <==>
      allowHttp && get(Format(target)).Failure? && Downgradable(get(Format(target)).message)
    ensures |f.requests| == 1 ==> f.target == target
    ensures |f.requests| == 2 ==> f.target == target.(scheme := "http") && f.requests[1] == Format(f.target)
    ensures f.result == Outcome(get(f.requests[|f.requests| - 1]), decode)
  {
    var first := get(Format(target));
    if first.Failure? && Downgradable(first.message) && allowHttp then
      var http := target.(scheme := "http");
      Fetch([Format(target), Format(http)], http, Outcome(get(Format(http)), decode))
    else
      Fetch([Format(target)], target, Outcome(first, decode))
  }

  /** Without AllowHTTP every lookup is a single GET of the https URL. */
  lemma NoDowngradeWithoutAllowHttp(target: Url, get: string -> Reply, decode: seq<byte> -> Result<Jrd, string>)
    ensures var f := FetchSpec(false, target, get, decode);
      f.requests == [Format(target)] && f.target == target
  {
  }

  /** A URL held by reference: fetchJRD changes the scheme of the URL it is given. */
  class UrlRef {
    var url: Url

    constructor(url: Url)
      ensures this.url == url
    {
      this.url := url;
    }
  }

  /** Client, reduced to its AllowHTTP flag: the HTTP client it wraps is the `get`
      parameter of its methods, and its logger is not part of this model. */
  class Client {
    var allowHttp: bool

    constructor(allowHttp: bool)
      ensures this.allowHttp == allowHttp
    {
      this.allowHttp := allowHttp;
    }

    /** fetchJRD: GET the query URL; on an error that allows it, set its scheme to
        http and GET it again; then check the status and decode the body. */
    method FetchJrd(target: UrlRef, get: string -> Reply, decode: seq<byte> -> Result<Jrd, string>)
      returns (result: Result<Jrd, FetchError>, requests: seq<string>)
      modifies target
      ensures var f := FetchSpec(allowHttp, old(target.url), get, decode);
        result == f.result && requests == f.requests && target.url == f.target
    {
      var address := Format(target.url);
      requests := [address];
      var reply := get(address);
      if reply.Failure? {
        if Downgradable(reply.message) && allowHttp {
          target.url := target.url.(scheme := "http");
          address := Format(target.url);
          requests := requests + [address];
          reply := get(address);
          if reply.Failure? {
            result := Err(Transport(reply.message));
            return;
          }
        } else {
          result := Err(Transport(reply.message));
          return;
        }
      }
      if !Successful(reply.statusCode) {
        result := Err(Status(reply.status));
        return;
      }
      match decode(reply.body)
      case Ok(jrd) =>
        result := Ok(jrd);
      case Err(message) =>
        result := Err(Decode(message));
    }

    /** LookupResource: fetch the JRD from the resource's query URL. */
    method LookupResource(resource: Url, rels: seq<string>, get: string -> Reply,
                          decode: seq<byte> -> Result<Jrd, string>)
      returns (result: Result<Jrd, FetchError>, requests: seq<string>)
      ensures var f := FetchSpec(allowHttp, Resource.JrdUrl(resource, rels), get, decode);
        result == f.result && requests == f.requests
      ensures requests[0] == Format(Resource.JrdUrl(resource, rels))
    {
      var target := new UrlRef(Resource.JrdUrl(resource, rels));
      result, requests := FetchJrd(target, get, decode);
    }

    /** Lookup: parse the identifier as a resource and look it up; nothing is
        requested when it does not parse. */
    method Lookup(identifier: string, rels: seq<string>, get: string -> Reply,
                  decode: seq<byte> -> Result<Jrd, string>)
      returns (result: Result<Jrd, LookupError>, requests: seq<string>)
      ensures Resource.Parse(identifier).Err? ==>
        result == Err(BadResource(Resource.Parse(identifier).error)) && requests == []
      ensures Resource.Parse(identifier).Ok? ==>
        var f := FetchSpec(allowHttp, Resource.JrdUrl(Resource.Parse(identifier).value, rels), get, decode);
        requests == f.requests
        && (f.result.Ok? ==> result == Ok(f.result.value))
        && (f.result.Err? ==> result == Err(FetchFailed(f.result.error)))
    {
      match Resource.Parse(identifier)
      case Err(e) =>
        result, requests := Err(BadResource(e)), [];
      case Ok(resource) =>
        var fetched;
        fetched, requests := LookupResource(resource, rels, get, decode);
        match fetched
        case Ok(jrd) => result := Ok(jrd);
        case Err(e) => result := Err(FetchFailed(e));
    }
  }
}
