/**
 The values that cross the adapter's boundary: errors, headers, response
 effects, route responses and portable endpoint metadata.

 What the crates `soaprs-core`, `soaprs-http` and the application decide is
 collected in `Library`, an arbitrary choice of total functions. Every theorem
 holds for every `Library`.
 */
module Http {
  import opened Text

  // -------------------------------------------------------------------- errors

  datatype ErrorKind =
    | Validation | NotFound | Conflict | Unsupported | Infrastructure | TimedOut | RateLimited
    | Application(code: nat)

  /** The chain of diagnostic sources behind an error. */
  datatype Source =
    | NoSource
    | Rejection(status: nat, code: string, message: string, next: Source)
    | Foreign(next: Source)

  datatype SoapError = SoapError(kind: ErrorKind, source: Source)

  datatype Result<+T> = Ok(value: T) | Err(error: SoapError)

  function BadRequest(message: string): SoapError {
    SoapError(Validation, Rejection(400, "bad_request", message, NoSource))
  }

  function PayloadTooLarge(): SoapError {
    SoapError(Validation,
              Rejection(413, "payload_too_large", "request body exceeds the limit", Foreign(NoSource)))
  }

  function Plain(kind: ErrorKind): SoapError { SoapError(kind, NoSource) }

  /** The outermost protocol rejection in a source chain. */
  function FindRejection(source: Source): (r: Option<Source>)
    ensures r.Some? ==> r.value.Rejection?
  {
    match source
    case NoSource => None
    case Rejection(_, _, _, _) => Some(source)
    case Foreign(next) => FindRejection(next)
  }

  // ------------------------------------------------------------------- headers

  /** Lower-case header names to their values, in order; no name has an empty list. */
  type Headers = map<string, seq<string>>

  predicate WellFormed(h: Headers) { forall n :: n in h ==> h[n] != [] }

  function Values(h: Headers, name: string): seq<string> {
    if name in h then h[name] else []
  }

  const SET_COOKIE := "set-cookie"
  const CONTENT_TYPE := "content-type"
  const CACHE_CONTROL := "cache-control"
  const VARY := "vary"

  // ------------------------------------------------------- responses and effects

  datatype Duration = Duration(secs: nat, nanos: nat)

  datatype SameSite = Strict | Lax | Unrestricted

  datatype Cookie = Cookie(
    name: string, value: string, path: Option<string>, domain: Option<string>,
    maxAge: Option<Duration>, secure: bool, httpOnly: bool, sameSite: Option<SameSite>)

  datatype Effects = Effects(status: Option<nat>, headers: Headers, cookies: seq<Cookie>)

  const NO_EFFECTS := Effects(None, map[], [])

  /** Encoding of an error body as JSON is left to the serializer. */
  datatype Body = Raw(bytes: seq<nat>) | ErrorJson(code: string, message: string)

  datatype Reply = Reply(status: nat, headers: Headers, body: Body)

  datatype RouteResponse = RouteResponse(
    status: Option<nat>, headers: Headers, body: seq<nat>, effects: Effects)

  datatype Outcome = Outcome(result: Result<RouteResponse>, effects: Effects)

  // ---------------------------------------------------------- endpoint metadata

  datatype Capability = Authentication | RequestValidation | RateLimit | Cors | Csrf

  datatype FrameOptions = Deny | SameOrigin
  datatype ReferrerPolicy = NoReferrer | StrictOriginWhenCrossOrigin
  datatype Hsts = Hsts(maxAge: Duration, includeSubdomains: bool, preload: bool)

  datatype SecurityPolicy = SecurityPolicy(
    noSniff: bool, frameOptions: Option<FrameOptions>, referrer: Option<ReferrerPolicy>,
    contentSecurity: Option<string>, hsts: Option<Hsts>)

  datatype Visibility = NoStore | Private | Public

  /** `vary` holds header names: lower-case tokens. */
  datatype CachePolicy = CachePolicy(
    visibility: Visibility, maxAge: Option<Duration>, vary: seq<string>)

  datatype Endpoint = Endpoint(
    id: string, verb: string, path: string, successStatus: nat,
    required: seq<Capability>, bodyLimit: Option<nat>, timeout: Option<Duration>,
    security: Option<SecurityPolicy>, cache: Option<CachePolicy>)

  // ------------------------------------------------------------ unseen libraries

  datatype Library = Library(
    effectsFault: Effects -> Option<SoapError>,
    cookieFault: Cookie -> Option<SoapError>,
    securityFault: SecurityPolicy -> Option<SoapError>,
    cacheFault: CachePolicy -> Option<SoapError>,
    mapError: SoapError -> Reply)

  /**
   The response for an error: protocol rejections keep their own status and
   body and carry no header of the application's mapper.
   */
  function ErrorReply(lib: Library, error: SoapError): Reply {
    var mapped :=
      match FindRejection(error.source)
      case Some(r) => Reply(r.status, map[], ErrorJson(r.code, r.message))
      case None => lib.mapError(error);
    mapped.(headers := mapped.headers[CONTENT_TYPE := ["application/json"]])
  }

  /** `source` behind `depth` errors of other types. */
  function Behind(depth: nat, source: Source): Source {
    if depth == 0 then source else Foreign(Behind(depth - 1, source))
  }

  lemma {:induction false} BehindFound(depth: nat, status: nat, code: string, message: string, next: Source)
    ensures FindRejection(Behind(depth, Rejection(status, code, message, next)))
         == Some(Rejection(status, code, message, next))
  {
    if depth > 0 {
      BehindFound(depth - 1, status, code, message, next);
    }
  }

  /** However deep a rejection is wrapped, it decides the response and the mapper is not asked. */
  lemma RejectionWins(
    lib: Library, kind: ErrorKind, depth: nat, status: nat, code: string, message: string, next: Source)
    ensures ErrorReply(lib, SoapError(kind, Behind(depth, Rejection(status, code, message, next))))
         == Reply(status, map[CONTENT_TYPE := ["application/json"]], ErrorJson(code, message))
  {
    BehindFound(depth, status, code, message, next);
  }

  lemma {:induction false} BehindNothing(depth: nat)
    ensures FindRejection(Behind(depth, NoSource)) == None
  {
    if depth > 0 {
      BehindNothing(depth - 1);
    }
  }

  /** Every chain of sources ends in nothing or in its outermost rejection. */
  lemma {:induction false} SourceCases(source: Source) returns (depth: nat, end: Source)
    ensures source == Behind(depth, end) && (end.NoSource? || end.Rejection?)
  {
    if source.Foreign? {
      depth, end := SourceCases(source.next);
      depth := depth + 1;
    } else {
      depth, end := 0, source;
    }
  }

  /** Without a rejection the application's mapper answers for this very error, with a JSON body. */
  lemma MapperAsked(lib: Library, kind: ErrorKind, depth: nat)
    ensures var error := SoapError(kind, Behind(depth, NoSource));
            var (r, mapped) := (ErrorReply(lib, error), lib.mapError(error));
            && r.status == mapped.status && r.body == mapped.body
            && Values(r.headers, "content-type") == ["application/json"]
            && forall n :: n != "content-type" ==> Values(r.headers, n) == Values(mapped.headers, n)
  {
    BehindNothing(depth);
  }
}
