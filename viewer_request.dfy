/**
 * The viewer-request handler of edge/viewer-request.js: it maps a request
 * URI onto the object stored at the origin, and sends non-canonical URIs a
 * permanent redirect.
 *
 *  - a URI ending in `/` is forwarded as `uri + "index.html"`;
 *  - a URI ending in `/index.html` is redirected to itself minus `index.html`;
 *  - a URI whose last `/`-separated segment has no `.` is redirected to `uri + "/"`;
 *  - any other URI is forwarded unchanged.
 *
 * `Route` states the decision as a function of the URI; `Handler` is the
 * source's handler, which rewrites the request object in place.
 */
module ViewerRequest {
  import opened Strings
  import opened Http

  /** The document served for a directory URI. */
  const IndexDocument: string := "index.html"

  /** The response object the handler builds for a redirect. */
  datatype Response = Response(statusCode: int, statusDescription: string, headers: map<string, HeaderEntry>)

  /** What the handler does with a request URI: forward it (possibly rewritten) or answer it. */
  datatype Outcome = Forward(uri: string) | Respond(response: Response)

  /** A 301 response with a single `location` header. */
  function Redirect(location: string): Response {
    Response(301, "Found", map["location" := HeaderEntry(location)])
  }

  /** `uri.split('/').slice(-1).pop()`: the last `/`-separated segment of the URI. */
  function Filename(uri: string): (f: string)
    ensures '/' !in f
    ensures EndsWith(uri, f)
  {
    SplitLast(uri, '/');
    var parts := Split(uri, '/');
    parts[|parts| - 1]
  }

  /** `uri.slice(0, uri.lastIndexOf('index.html'))`. */
  function StrippedLocation(uri: string): string {
    Slice(uri, 0, LastIndexOf(uri, IndexDocument))
  }

  /** The handler's decision for a request URI. */
  function Route(uri: string): (r: Outcome)
    ensures r.Respond? ==>
              && r.response.statusCode == 301
              && r.response.headers.Keys == {"location"}
              && EndsWith(r.response.headers["location"].value, "/")
    ensures r.Forward? ==> r.uri == uri || r.uri == uri + IndexDocument
  {
    if EndsWith(uri, "/") then
      Forward(uri + IndexDocument)
    else if EndsWith(uri, "/" + IndexDocument) then
      StripsIndexDocument(uri);
      Respond(Redirect(StrippedLocation(uri)))
    else if !Includes(Filename(uri), ".") then
      Respond(Redirect(uri + "/"))
    else
      Forward(uri)
  }

  /** For a URI ending in `/index.html`, the redirect location drops exactly the final `index.html`. */
  lemma StripsIndexDocument(uri: string)
    requires EndsWith(uri, "/" + IndexDocument)
    ensures StrippedLocation(uri) == uri[..|uri| - |IndexDocument|]
    ensures StrippedLocation(uri) + IndexDocument == uri
    ensures EndsWith(StrippedLocation(uri), "/")
  {
    EndsWithSuffix(uri, "/", IndexDocument);
    LastIndexOfSuffix(uri, IndexDocument);
    var loc := uri[..|uri| - |IndexDocument|];
    assert uri == loc + uri[|uri| - |IndexDocument|..];
    assert loc[|loc| - 1] == uri[|uri| - |IndexDocument| - 1];
    assert loc[|loc| - 1..] == "/";
  }

  /**
   * Some `.` in the URI has no `/` after it: the last path segment contains
   * a dot, stated without splitting.
   */
  predicate DotInLastSegment(uri: string) {
    exists i :: 0 <= i < |uri| && uri[i] == '.' && '/' !in uri[i + 1..]
  }

  /** The last segment is the text after the last `/`, or the whole URI when it has none. */
  lemma FilenameAfterLastSlash(uri: string)
    ensures Filename(uri) == uri[LastIndexOf(uri, "/") + 1..]
  {
    var f := Filename(uri);
    var k := |uri| - |f|;
    SplitLast(uri, '/');
    assert uri[k..] == f;
    var r := LastIndexOf(uri, "/");
    if k > 0 {
      assert uri[k - 1] == '/';
      assert uri[k - 1..k] == "/";
      assert OccursAt(uri, "/", k - 1);
      forall j | k <= j < |uri|
        ensures !OccursAt(uri, "/", j)
      {
        OccursAtChar(uri, '/', j);
        assert uri[j] == f[j - k];
      }
    } else {
      IncludesChar(uri, '/');
    }
  }

  /** The source's `filename.includes('.')` test agrees with `DotInLastSegment`. */
  lemma FilenameHasDot(uri: string)
    ensures Includes(Filename(uri), ".") <==> DotInLastSegment(uri)
  {
    var f := Filename(uri);
    var k := |uri| - |f|;
    SplitLast(uri, '/');
    IncludesChar(f, '.');
    assert uri[k..] == f;
    if '.' in f {
      var j :| 0 <= j < |f| && f[j] == '.';
      assert uri[k + j + 1..] == f[j + 1..];
      assert uri[k + j] == '.';
    }
    if DotInLastSegment(uri) {
      var i :| 0 <= i < |uri| && uri[i] == '.' && '/' !in uri[i + 1..];
      assert f[i - k] == '.';
    }
  }

  /** A URI ending in `/` is forwarded with `index.html` appended. */
  lemma RouteDirectory(uri: string)
    requires EndsWith(uri, "/")
    ensures Route(uri) == Forward(uri + IndexDocument)
  {
  }

  /**
   * A URI ending in `/index.html` is redirected to the prefix of the URI
   * before that final `index.html`, which ends in `/`.
   */
  lemma RouteIndexDocument(uri: string)
    requires EndsWith(uri, "/" + IndexDocument)
    ensures var loc := uri[..|uri| - |IndexDocument|];
            && Route(uri) == Respond(Redirect(loc))
            && loc + IndexDocument == uri
            && EndsWith(loc, "/")
  {
    StripsIndexDocument(uri);
    assert uri[|uri| - 1] == 'l';
  }

  /** Any other URI whose last segment has no `.` is redirected to `uri + "/"`. */
  lemma RouteAddsSlash(uri: string)
    requires !EndsWith(uri, "/") && !EndsWith(uri, "/" + IndexDocument)
    requires !DotInLastSegment(uri)
    ensures Route(uri) == Respond(Redirect(uri + "/"))
  {
    FilenameHasDot(uri);
  }

  /** Any other URI whose last segment has a `.` is forwarded unchanged. */
  lemma RouteKeepsFile(uri: string)
    requires !EndsWith(uri, "/") && !EndsWith(uri, "/" + IndexDocument)
    requires DotInLastSegment(uri)
    ensures Route(uri) == Forward(uri)
  {
    FilenameHasDot(uri);
  }

  /**
   * Exactly one outcome per URI: it is redirected precisely when it does not
   * end in `/` and either ends in `/index.html` or has no `.` in its last
   * segment, and it is forwarded unchanged precisely in the remaining case
   * besides a trailing `/`.
   */
  lemma RouteOutcomes(uri: string)
    ensures Route(uri).Respond? <==>
              !EndsWith(uri, "/") && (EndsWith(uri, "/" + IndexDocument) || !DotInLastSegment(uri))
    ensures Route(uri) == Forward(uri) <==>
              !EndsWith(uri, "/") && !EndsWith(uri, "/" + IndexDocument) && DotInLastSegment(uri)
  {
    FilenameHasDot(uri);
    if EndsWith(uri, "/") {
      assert |uri + IndexDocument| != |uri|;
    }
  }

  /** Every redirect target is canonical: routing it forwards it to its index document. */
  lemma RedirectIsCanonical(uri: string)
    requires Route(uri).Respond?
    ensures var loc := Route(uri).response.headers["location"].value;
            Route(loc) == Forward(loc + IndexDocument)
  {
  }

  /**
   * Stripping `index.html` and then forwarding the redirect target fetches
   * the very object the original URI named.
   */
  lemma IndexRedirectRoundTrip(uri: string)
    requires EndsWith(uri, "/" + IndexDocument)
    ensures Route(uri).Respond?
    ensures var loc := Route(uri).response.headers["location"].value;
            Route(loc) == Forward(uri)
  {
    RouteIndexDocument(uri);
  }

  /** The rewritten URI of a forwarded directory request, if requested directly, redirects back. */
  lemma RewriteRedirectsBack(uri: string)
    requires EndsWith(uri, "/")
    ensures Route(uri + IndexDocument) == Respond(Redirect(uri))
  {
    var u := uri + IndexDocument;
    assert u[|u| - |"/" + IndexDocument|..] == "/" + IndexDocument by {
      assert u[|u| - |IndexDocument|..] == IndexDocument;
      assert u[|u| - |IndexDocument| - 1] == uri[|uri| - 1];
    }
    RouteIndexDocument(u);
    assert u[..|u| - |IndexDocument|] == uri;
  }

  /** The request object the runtime passes in; the handler may rewrite its `uri`. */
  class Request {
    var uri: string

    constructor (uri: string)
      ensures this.uri == uri
    {
      this.uri := uri;
    }
  }

  /** What the handler returns: the (same) request object, or a fresh response. */
  datatype HandlerResult = PassOn(request: Request) | Reply(response: Response)

  /**
   * The handler of edge/viewer-request.js. On a forward it appends
   * `index.html` to `request.uri` in place when the URI ends in `/`, and
   * returns the request itself; a redirect leaves the request untouched.
   */
  method Handler(request: Request) returns (result: HandlerResult)
    modifies request
    ensures match Route(old(request.uri))
            case Forward(u) => result == PassOn(request) && request.uri == u
            case Respond(response) => result == Reply(response) && request.uri == old(request.uri)
  {
    var uri := request.uri;
    if EndsWith(uri, "/") {
      request.uri := request.uri + IndexDocument;
    } else if EndsWith(uri, "/" + IndexDocument) {
      return Reply(Redirect(StrippedLocation(uri)));
    } else {
      var filename := Filename(uri);
      if !Includes(filename, ".") {
        return Reply(Redirect(uri + "/"));
      }
    }
    return PassOn(request);
  }
}
