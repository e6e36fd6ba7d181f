# Edge handlers of ravron.com, modelled in Dafny

The site is served through CloudFront. Three small handlers run at the edge:

- `edge/viewer-request.js` (a CloudFront Function on the viewer request) maps a
  request URI onto the object stored at the origin. A URI ending in `/` is
  forwarded as `…/index.html`. A URI ending in `/index.html` gets a 301
  redirect to the same path without `index.html`. A URI whose last path
  segment has no `.` gets a 301 redirect to `uri + "/"`. Any other URI is
  forwarded unchanged.
- `edge/cloudfront.py` (a Lambda@Edge function) overwrites four security
  headers of a response. Each value is a one-element list `[{value}]`.
- `edge/viewer-response.js` (a CloudFront Function on the viewer response)
  overwrites five security headers. It adds `x-frame-options: DENY`, each value
  is a bare `{value}` record, and its content security policy has no
  `require-sri-for` directive.

Files:

- `strings.dfy` (module `Strings`): the string built-ins the handlers use, with
  JavaScript/Python semantics. It has `endsWith`, `includes`, `lastIndexOf`
  (returns -1 when absent), `slice` (negative and out-of-range arguments are
  clamped), `split` on one character (always at least one piece), and `join`.
- `http.dfy` (module `Http`): the `{value}` header record.
- `viewer_request.dfy` (module `ViewerRequest`): `Route` is the handler's
  decision as a pure function of the URI, and the lemmas characterise each
  branch. `Handler` is the handler itself on a `Request` object. In the forward
  branch it rewrites `request.uri` in place and returns the same object. In a
  redirect branch it returns a fresh 301 response and leaves the request as it
  was.
- `lambda_edge.dfy` (module `LambdaEdge`, for `edge/cloudfront.py`) and
  `viewer_response.dfy` (module `ViewerResponse`): in each, `Secure` gives the
  header map after the handler, and the handler method assigns the headers in
  place into a `Response` object's map and returns that same object.

Facts about the code that shape the model:

- `edge/viewer-response.js` sets five headers and `edge/cloudfront.py` sets
  four. Both handlers are modelled, each with its own header set.
- Only `edge/cloudfront.py` wraps each header value in a list.
  `edge/viewer-response.js` stores a single record per name.
- The code has no error handling, so the model starts from an already
  extracted response or request object.

## Model

| member | source | states |
|---|---|---|
| Strings.LastIndexOf | edge/viewer-request.js:15 | `lastIndexOf` returns the start of an occurrence and no occurrence starts later; it returns -1 exactly when there is none |
| Strings.LastIndexOfSuffix | edge/viewer-request.js:15 | when the string ends with the searched text, `lastIndexOf` returns the start of that suffix |
| Strings.Slice | edge/viewer-request.js:15 | `slice(start, end)` with in-range arguments is the substring between them, and it is never longer than the string |
| Strings.Split | edge/viewer-request.js:20 | `split('/')` always gives at least one piece, and no piece contains the separator |
| Strings.JoinSplit | edge/viewer-request.js:20 | joining the pieces of a split with the separator gives back the original string |
| Strings.SplitLast | edge/viewer-request.js:20 | the last piece of a split is a suffix holding no separator that is either the whole string or follows a separator |
| Strings.Join | edge/cloudfront.py:1-10 | joining no pieces gives "", joining one piece gives that piece, and every character of a join comes from a piece or from the separator |
| Strings.SplitJoin | edge/cloudfront.py:1-10 | splitting a join on a separator that no piece contains gives back the pieces |
| Strings.JoinIncludesPart | edge/cloudfront.py:1-10 | every piece occurs in the joined string |
| Strings.IncludesChar | edge/viewer-request.js:21 | `includes('.')` holds exactly when the character `.` is in the string |
| ViewerRequest.Filename | edge/viewer-request.js:20 | `uri.split('/').slice(-1).pop()` is a suffix of the URI with no `/` in it |
| ViewerRequest.FilenameAfterLastSlash | edge/viewer-request.js:20 | the last segment is the text after the last `/`, or the whole URI when it has no `/` |
| ViewerRequest.FilenameHasDot | edge/viewer-request.js:20-21 | the last segment contains `.` exactly when some `.` in the URI has no `/` after it |
| ViewerRequest.StripsIndexDocument | edge/viewer-request.js:15 | for a URI ending in `/index.html`, the computed location is the URI minus its final `index.html`, and that location ends in `/` |
| ViewerRequest.Route | edge/viewer-request.js:6-36 | every redirect has status 301, one `location` header and a location ending in `/`; every forward keeps the URI or appends `index.html` |
| ViewerRequest.RouteDirectory | edge/viewer-request.js:6-7 | a URI ending in `/` is forwarded as `uri + "index.html"` |
| ViewerRequest.RouteIndexDocument | edge/viewer-request.js:8-18 | a URI ending in `/index.html` is redirected (301, `Found`, one `location` header) to its prefix before the final `index.html`, which ends in `/` and gives back the URI when `index.html` is appended |
| ViewerRequest.RouteAddsSlash | edge/viewer-request.js:19-32 | a URI with neither suffix and no `.` in its last segment is redirected to `uri + "/"` |
| ViewerRequest.RouteKeepsFile | edge/viewer-request.js:19-36 | a URI with neither suffix and a `.` in its last segment is forwarded unchanged |
| ViewerRequest.RouteOutcomes | edge/viewer-request.js:6-36 | both directions: a URI is redirected exactly when it does not end in `/` and either ends in `/index.html` or has no `.` in its last segment; it is forwarded unchanged exactly in the remaining case besides a trailing `/` |
| ViewerRequest.RedirectIsCanonical | edge/viewer-request.js:6-32 | routing any redirect location forwards it to its `index.html` and never redirects again |
| ViewerRequest.IndexRedirectRoundTrip | edge/viewer-request.js:6-18 | following the `index.html`-stripping redirect fetches the same object the original URI named |
| ViewerRequest.RewriteRedirectsBack | edge/viewer-request.js:6-18 | if the rewritten URI `uri + "index.html"` of a directory request is requested directly, it redirects back to `uri` |
| ViewerRequest.Handler | edge/viewer-request.js:1-37 | on a forward, it returns the same request object with `uri` set to the routed URI; on a redirect, it returns the routed 301 response and leaves `uri` unchanged |
| LambdaEdge.Secure | edge/cloudfront.py:15-31 | the four governed names map to one-element lists holding the CSP, `nosniff`, `same-origin` and the HSTS value; all other names keep their values; no name is removed |
| LambdaEdge.SecureOverwrites | edge/cloudfront.py:17-31 | the result does not depend on any earlier value of a governed header, which is replaced rather than merged or appended |
| LambdaEdge.SecureIdempotent | edge/cloudfront.py:17-31 | applying the handler twice gives the same headers as applying it once |
| LambdaEdge.SecureEmpty | edge/cloudfront.py:17-31 | a response without headers ends with exactly the four governed headers |
| LambdaEdge.CspRequiresSri | edge/cloudfront.py:1-10 | the policy value contains the `require-sri-for script style;` directive |
| LambdaEdge.LambdaHandler | edge/cloudfront.py:13-33 | returns the very response object it was given, whose headers are now `Secure` of the old headers |
| ViewerResponse.Secure | edge/viewer-response.js:12-23 | the five governed names map to single records holding the CSP, `DENY`, `nosniff`, `same-origin` and the HSTS value; all other names keep their values; no name is removed |
| ViewerResponse.SecureOverwrites | edge/viewer-response.js:14-23 | the result does not depend on any earlier value of a governed header |
| ViewerResponse.SecureIdempotent | edge/viewer-response.js:14-23 | applying the handler twice gives the same headers as applying it once |
| ViewerResponse.SecureEmpty | edge/viewer-response.js:14-23 | a response without headers ends with exactly the five governed headers |
| ViewerResponse.DirectivesDropSri | edge/viewer-response.js:1-9 | the directive list is the Lambda@Edge list with its `require-sri-for script style;` entry removed, in the same order |
| ViewerResponse.CspHasDirectives | edge/viewer-response.js:1-9 | every one of the seven directives occurs in the policy value |
| ViewerResponse.CspOmitsSri | edge/viewer-response.js:1-9 | the policy value does not contain `require-sri-for` |
| ViewerResponse.Handler | edge/viewer-response.js:11-26 | returns the very response object it was given, whose headers are now `Secure` of the old headers |

## Left out

- The invocation envelope is not modelled. That covers `event['Records'][0]['cf']['response']`, `event.request`, `event.response` and the Lambda `context` argument. The handlers take the extracted request or response object.
- Malformed events are not modelled. A missing key would raise `KeyError`/`TypeError` in the source, which has no error handling of its own.
- Header names are compared as written: the source uses literal lower-case keys, so header maps are `map<string, …>` with no case folding.
- Concurrent invocation by the CDN is not modelled. Calls share no mutable state.
- `statusDescription: 'Found'` is carried as a constant field of the redirect response. No property is stated about it beyond equality.
- `pelicanconf.py` is not part of this model. It is inert configuration for the external Pelican generator.
- LambdaEdge.CspRequiresSri: the policy value is defined as the join of the directive list, exactly as the source builds it. It is not also compared with the full literal text: the prover does not settle equality of the long joined literal on its own, and a character-by-character proof of it was not written. Beyond `require-sri-for`, `Strings.Join` and `Strings.JoinIncludesPart` state that every directive occurs in the value and that the value has no characters other than the directives' and spaces.
- ViewerResponse.CspHasDirectives: the same applies. The 7-directive value is the join of the directive list and is not compared with the literal text.
- Existing header entries are modelled as value-only records (`{value}`). Real Lambda@Edge entries also carry `key`, and CloudFront Functions entries may carry `multiValue`; the handlers never read existing entries, so no stated property depends on this.
- Strings.Split handles one-character separators only. That is the only kind the source uses (`split('/')`).
- JavaScript strings are sequences of UTF-16 code units. Dafny's `char` is used in their place, and no Unicode handling matters for these operations.
