/**
 * The Lambda@Edge response handler of edge/cloudfront.py: it
 * overwrites four security headers of the response, each with a one-element
 * list holding a `{value}` record, and returns the same response object.
 */
module LambdaEdge {
  import opened Strings
  import opened Http

  /** The directives of the content security policy, in the order they are sent. */
  const CspDirectives: seq<string> := [
    "default-src 'none';",
    "img-src 'self';",
    "style-src 'self';",
    "block-all-mixed-content;",
    "require-sri-for script style;",
    "frame-ancestors 'none';",
    "base-uri 'none';",
    "form-action 'none';"
  ]

  /** `' '.join(...)` of the directives. */
  const CspValue: string := Join(CspDirectives, " ")

  const HstsValue: string := "max-age=63072000; includeSubDomains; preload"

  /** The header names the handler sets. */
  const Governed: set<string> :=
    {"content-security-policy", "x-content-type-options", "referrer-policy", "strict-transport-security"}

  /** Header name to the list of its occurrences. */
  type Headers = map<string, seq<HeaderEntry>>

  /** The header map after the handler: the four governed names replaced, everything else kept. */
  function Secure(headers: Headers): (r: Headers)
    ensures r.Keys == headers.Keys + Governed
    ensures r["content-security-policy"] == [HeaderEntry(CspValue)]
    ensures r["x-content-type-options"] == [HeaderEntry("nosniff")]
    ensures r["referrer-policy"] == [HeaderEntry("same-origin")]
    ensures r["strict-transport-security"] == [HeaderEntry(HstsValue)]
    ensures forall name :: name in headers && name !in Governed ==> r[name] == headers[name]
  {
    headers["content-security-policy" := [HeaderEntry(CspValue)]]
           ["x-content-type-options" := [HeaderEntry("nosniff")]]
           ["referrer-policy" := [HeaderEntry("same-origin")]]
           ["strict-transport-security" := [HeaderEntry(HstsValue)]]
  }

  /** The policy carries the subresource-integrity directive. */
  lemma CspRequiresSri()
    ensures Includes(CspValue, "require-sri-for script style;")
  {
    JoinIncludesPart(CspDirectives, " ", 4);
  }

  /** Applying the handler twice leaves the same headers as applying it once. */
  lemma SecureIdempotent(headers: Headers)
    ensures Secure(Secure(headers)) == Secure(headers)
  {
  }

  /**
   * Earlier values of a governed header are replaced outright: whatever the
   * response carried under that name, the result is the same.
   */
  lemma SecureOverwrites(headers: Headers, name: string, earlier: seq<HeaderEntry>)
    requires name in Governed
    ensures Secure(headers[name := earlier]) == Secure(headers)
  {
  }

  /** A response without headers ends up with exactly the four policy headers. */
  lemma SecureEmpty()
    ensures Secure(map[]).Keys == Governed
    ensures |Secure(map[])| == 4
  {
  }

  /** The response record the runtime hands over; the handler mutates its `headers`. */
  class Response {
    var headers: Headers

    constructor (headers: Headers)
      ensures this.headers == headers
    {
      this.headers := headers;
    }
  }

  /**
   * `lambda_handler`: four successive assignments into the response's header
   * map, then the response itself is returned.
   */
  method LambdaHandler(response: Response) returns (r: Response)
    modifies response
    ensures r == response
    ensures response.headers == Secure(old(response.headers))
  {
    response.headers := response.headers["content-security-policy" := [HeaderEntry(CspValue)]];
    response.headers := response.headers["x-content-type-options" := [HeaderEntry("nosniff")]];
    response.headers := response.headers["referrer-policy" := [HeaderEntry("same-origin")]];
    response.headers := response.headers["strict-transport-security" := [HeaderEntry(HstsValue)]];
    return response;
  }
}
