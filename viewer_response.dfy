/**
 * The CloudFront Functions viewer-response handler of edge/viewer-response.js:
 * it overwrites five security headers of the response, each with a bare
 * `{value}` record, and returns the same response object.
 */
module ViewerResponse {
  import opened Strings
  import opened Http
  import LambdaEdge

  /** The directives of the content security policy, in the order they are sent. */
  const CspDirectives: seq<string> := [
    "default-src 'none';",
    "img-src 'self';",
    "style-src 'self';",
    "block-all-mixed-content;",
    "frame-ancestors 'none';",
    "base-uri 'none';",
    "form-action 'none';"
  ]

  /** `[...].join(' ')` of the directives. */
  const CspValue: string := Join(CspDirectives, " ")

  const HstsValue: string := "max-age=63072000; includeSubDomains; preload"

  /** The header names the handler sets. */
  const Governed: set<string> :=
    {"content-security-policy", "x-frame-options", "x-content-type-options",
     "referrer-policy", "strict-transport-security"}

  /** Header name to its single occurrence. */
  type Headers = map<string, HeaderEntry>

  /** The header map after the handler: the five governed names replaced, everything else kept. */
  function Secure(headers: Headers): (r: Headers)
    ensures r.Keys == headers.Keys + Governed
    ensures r["content-security-policy"] == HeaderEntry(CspValue)
    ensures r["x-frame-options"] == HeaderEntry("DENY")
    ensures r["x-content-type-options"] == HeaderEntry("nosniff")
    ensures r["referrer-policy"] == HeaderEntry("same-origin")
    ensures r["strict-transport-security"] == HeaderEntry(HstsValue)
    ensures forall name :: name in headers && name !in Governed ==> r[name] == headers[name]
  {
    headers["content-security-policy" := HeaderEntry(CspValue)]
           ["x-frame-options" := HeaderEntry("DENY")]
           ["x-content-type-options" := HeaderEntry("nosniff")]
           ["referrer-policy" := HeaderEntry("same-origin")]
           ["strict-transport-security" := HeaderEntry(HstsValue)]
  }

  /**
   * This policy is the Lambda@Edge policy with the `require-sri-for`
   * directive taken out, the other seven in the same order.
   */
  lemma DirectivesDropSri()
    ensures CspDirectives == LambdaEdge.CspDirectives[..4] + LambdaEdge.CspDirectives[5..]
    ensures LambdaEdge.CspDirectives[4] == "require-sri-for script style;"
  {
  }

  /** Every directive appears in the policy value. */
  lemma CspHasDirectives(i: nat)
    requires i < |CspDirectives|
    ensures Includes(CspValue, CspDirectives[i])
  {
    JoinIncludesPart(CspDirectives, " ", i);
  }

  /** The policy value carries no `require-sri-for` directive. */
  lemma CspOmitsSri()
    ensures !Includes(CspValue, "require-sri-for")
  {
    assert 'q' !in " ";
    assert forall i :: 0 <= i < |CspDirectives| ==> 'q' !in CspDirectives[i];
    if Includes(CspValue, "require-sri-for") {
      IncludesChars(CspValue, "require-sri-for", 'q');
    }
  }

  /** Applying the handler twice leaves the same headers as applying it once. */
  lemma SecureIdempotent(headers: Headers)
    ensures Secure(Secure(headers)) == Secure(headers)
  {
  }

  /**
   * Earlier values of a governed header are replaced outright: whatever the
   * response carried under that name, the result is the same.
   */
  lemma SecureOverwrites(headers: Headers, name: string, earlier: HeaderEntry)
    requires name in Governed
    ensures Secure(headers[name := earlier]) == Secure(headers)
  {
  }

  /** A response without headers ends up with exactly the five policy headers. */
  lemma SecureEmpty()
    ensures Secure(map[]).Keys == Governed
    ensures |Secure(map[])| == 5
  {
  }

  /** The response object the runtime hands over; the handler mutates its `headers`. */
  class Response {
    var headers: Headers

    constructor (headers: Headers)
      ensures this.headers == headers
    {
      this.headers := headers;
    }
  }

  /**
   * `handler`: five successive assignments into `event.response.headers`,
   * then that same response is returned.
   */
  method Handler(response: Response) returns (r: Response)
    modifies response
    ensures r == response
    ensures response.headers == Secure(old(response.headers))
  {
    response.headers := response.headers["content-security-policy" := HeaderEntry(CspValue)];
    response.headers := response.headers["x-frame-options" := HeaderEntry("DENY")];
    response.headers := response.headers["x-content-type-options" := HeaderEntry("nosniff")];
    response.headers := response.headers["referrer-policy" := HeaderEntry("same-origin")];
    response.headers := response.headers["strict-transport-security" := HeaderEntry(HstsValue)];
    return response;
  }
}
