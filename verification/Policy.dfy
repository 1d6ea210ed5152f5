/**
 Response policies: what `apply_response_policies` (src/policy.rs) leaves in
 the headers, when it fails, and the responses of the five pipeline exits that
 go through it (src/router.rs).
 */
module Policy {
  import opened Text
  import opened Http
  import opened ResponseHeaders
  import opened Vary

  const NO_SNIFF := "x-content-type-options"
  const FRAME := "x-frame-options"
  const REFERRER := "referrer-policy"
  const CSP := "content-security-policy"
  const HSTS := "strict-transport-security"

  // ------------------------------------------------------------ specification

  function FrameText(f: FrameOptions): string {
    match f
    case Deny => "DENY"
    case SameOrigin => "SAMEORIGIN"
  }

  function ReferrerText(p: ReferrerPolicy): string {
    match p
    case NoReferrer => "no-referrer"
    case StrictOriginWhenCrossOrigin => "strict-origin-when-cross-origin"
  }

  function HstsText(h: Hsts): string {
    "max-age=" + Decimal(h.maxAge.secs)
    + (if h.includeSubdomains then "; includeSubDomains" else "")
    + (if h.preload then "; preload" else "")
  }

  function SniffValue(p: SecurityPolicy): Option<string> { if p.noSniff then Some("nosniff") else None }

  function FrameValue(p: SecurityPolicy): Option<string> {
    if p.frameOptions.Some? then Some(FrameText(p.frameOptions.value)) else None
  }

  function ReferrerValue(p: SecurityPolicy): Option<string> {
    if p.referrer.Some? then Some(ReferrerText(p.referrer.value)) else None
  }

  function HstsValue(p: SecurityPolicy): Option<string> {
    if p.hsts.Some? then Some(HstsText(p.hsts.value)) else None
  }

  /** The value a security policy declares for one header name. */
  function DeclaredSecurity(p: SecurityPolicy, name: string): Option<string> {
    if name == NO_SNIFF then SniffValue(p)
    else if name == FRAME then FrameValue(p)
    else if name == REFERRER then ReferrerValue(p)
    else if name == CSP then p.contentSecurity
    else if name == HSTS then HstsValue(p)
    else None
  }

  function Put(h: Headers, name: string, value: Option<string>): Headers {
    if value.Some? then h[name := [value.value]] else h
  }

  function SecurityHeaders(p: SecurityPolicy): Headers {
    var h1 := Put(map[], NO_SNIFF, SniffValue(p));
    var h2 := Put(h1, FRAME, FrameValue(p));
    var h3 := Put(h2, REFERRER, ReferrerValue(p));
    var h4 := Put(h3, CSP, p.contentSecurity);
    Put(h4, HSTS, HstsValue(p))
  }

  const ENCODING_FAULT := SoapError(Validation, Foreign(NoSource))

  function SecurityFault(lib: Library, p: SecurityPolicy): Option<SoapError> {
    if lib.securityFault(p).Some? then lib.securityFault(p)
    else if p.contentSecurity.Some? && !Encodable(p.contentSecurity.value) then Some(ENCODING_FAULT)
    else None
  }

  /** None for a private or public policy without a maximum age. */
  function CacheText(p: CachePolicy): Option<string> {
    match (p.visibility, p.maxAge)
    case (NoStore, _) => Some("no-store")
    case (Private, Some(age)) => Some("private, max-age=" + Decimal(age.secs))
    case (Public, Some(age)) => Some("public, max-age=" + Decimal(age.secs))
    case (_, None) => None
  }

  function CacheFault(lib: Library, p: CachePolicy, varyLines: seq<string>): Option<SoapError> {
    if lib.cacheFault(p).Some? then lib.cacheFault(p)
    else if CacheText(p).None? then Some(Plain(Validation))
    else VaryFault(varyLines, p.vary)
  }

  function WithSecurity(e: Endpoint, h: Headers): Headers {
    if e.security.Some? then h + SecurityHeaders(e.security.value) else h
  }

  function WithCache(p: CachePolicy, h: Headers): Headers {
    var cached := if CacheText(p).Some? then h[CACHE_CONTROL := [CacheText(p).value]] else h;
    if p.vary == [] then cached else cached[VARY := MergedLines(Values(h, VARY), p.vary)]
  }

  function PolicyApplied(e: Endpoint, h: Headers): Headers {
    if e.cache.Some? then WithCache(e.cache.value, WithSecurity(e, h)) else WithSecurity(e, h)
  }

  function PolicyFault(lib: Library, e: Endpoint, h: Headers): Option<SoapError> {
    if e.security.Some? && SecurityFault(lib, e.security.value).Some? then SecurityFault(lib, e.security.value)
    else if e.cache.Some? then CacheFault(lib, e.cache.value, Values(h, VARY))
    else None
  }

  /** A reply after the endpoint's policies, or the mapped policy error. */
  function WithPolicies(lib: Library, e: Endpoint, r: Reply): Reply {
    match PolicyFault(lib, e, r.headers)
    case Some(error) => ErrorReply(lib, error)
    case None => r.(headers := PolicyApplied(e, r.headers))
  }

  /** Header names inside a policy are names. */
  predicate EndpointOk(e: Endpoint) { e.cache.Some? ==> NamesOk(e.cache.value.vary) }

  // ----------------------------------------------------------------- operations

  lemma HstsEncodable(h: Hsts)
    ensures Encodable(HstsText(h))
  {
    var digits := Decimal(h.maxAge.secs);
    assert forall i :: 0 <= i < |digits| ==> Digit(digits[i]);
  }

  lemma CacheEncodable(p: CachePolicy)
    requires CacheText(p).Some?
    ensures Encodable(CacheText(p).value)
  {
    if p.maxAge.Some? {
      var digits := Decimal(p.maxAge.value.secs);
      assert forall i :: 0 <= i < |digits| ==> Digit(digits[i]);
    }
  }

  lemma NamesDistinct()
    ensures |NO_SNIFF| == 22 && |FRAME| == |REFERRER| == 15 && |CSP| == 23 && |HSTS| == 25
    ensures FRAME != REFERRER
  {
    assert FRAME[0] == 'x' && REFERRER[0] == 'r';
  }

  lemma PutOnto(was: Headers, h: Headers, name: string, value: Option<string>)
    ensures was + Put(h, name, value) == Put(was + h, name, value)
  {
  }

  /** Security headers laid over existing ones, declaration by declaration. */
  lemma SecurityOnto(p: SecurityPolicy, was: Headers)
    ensures was + SecurityHeaders(p)
         == Put(Put(Put(Put(Put(was, NO_SNIFF, SniffValue(p)), FRAME, FrameValue(p)), REFERRER, ReferrerValue(p)),
                    CSP, p.contentSecurity), HSTS, HstsValue(p))
  {
    var h1 := Put(map[], NO_SNIFF, SniffValue(p));
    var h2 := Put(h1, FRAME, FrameValue(p));
    var h3 := Put(h2, REFERRER, ReferrerValue(p));
    var h4 := Put(h3, CSP, p.contentSecurity);
    assert was + map[] == was;
    PutOnto(was, map[], NO_SNIFF, SniffValue(p));
    PutOnto(was, h1, FRAME, FrameValue(p));
    PutOnto(was, h2, REFERRER, ReferrerValue(p));
    PutOnto(was, h3, CSP, p.contentSecurity);
    PutOnto(was, h4, HSTS, HstsValue(p));
  }

  lemma PutValue(h: Headers, name: string, value: Option<string>, n: string)
    ensures Values(Put(h, name, value), n) == if n == name && value.Some? then [value.value] else Values(h, n)
    ensures n in Put(h, name, value) <==> n in h || (n == name && value.Some?)
  {
  }

  /** The headers laid down are exactly the declared ones. */
  lemma SecurityDeclared(p: SecurityPolicy, n: string)
    ensures n in SecurityHeaders(p) <==> DeclaredSecurity(p, n).Some?
    ensures DeclaredSecurity(p, n).Some? ==> Values(SecurityHeaders(p), n) == [DeclaredSecurity(p, n).value]
  {
    NamesDistinct();
    var h1 := Put(map[], NO_SNIFF, SniffValue(p));
    var h2 := Put(h1, FRAME, FrameValue(p));
    var h3 := Put(h2, REFERRER, ReferrerValue(p));
    var h4 := Put(h3, CSP, p.contentSecurity);
    PutValue(map[], NO_SNIFF, SniffValue(p), n);
    PutValue(h1, FRAME, FrameValue(p), n);
    PutValue(h2, REFERRER, ReferrerValue(p), n);
    PutValue(h3, CSP, p.contentSecurity, n);
    PutValue(h4, HSTS, HstsValue(p), n);
  }

  method ApplySecurityHeaders(lib: Library, p: SecurityPolicy, headers: HeaderMap) returns (r: Option<SoapError>)
    modifies headers
    ensures r == SecurityFault(lib, p)
    ensures r.None? ==> headers.entries == old(headers.entries) + SecurityHeaders(p)
  {
    var fault := lib.securityFault(p);
    if fault.Some? {
      return fault;
    }
    SecurityOnto(p, headers.entries);
    if p.noSniff {
      headers.Insert(NO_SNIFF, "nosniff");
    }
    if p.frameOptions.Some? {
      headers.Insert(FRAME, FrameText(p.frameOptions.value));
    }
    if p.referrer.Some? {
      headers.Insert(REFERRER, ReferrerText(p.referrer.value));
    }
    if p.contentSecurity.Some? {
      if !Encodable(p.contentSecurity.value) {
        return Some(ENCODING_FAULT);
      }
      headers.Insert(CSP, p.contentSecurity.value);
    }
    if p.hsts.Some? {
      var value := BuildHsts(p.hsts.value);
      headers.Insert(HSTS, value);
    }
    return None;
  }

  /** Builds the HSTS text; encoding it never fails. */
  method BuildHsts(h: Hsts) returns (value: string)
    ensures value == HstsText(h) && Encodable(value)
  {
    value := "max-age=" + Decimal(h.maxAge.secs);
    if h.includeSubdomains {
      value := value + "; includeSubDomains";
    }
    if h.preload {
      value := value + "; preload";
    }
    HstsEncodable(h);
  }

  method ApplyCacheHeaders(lib: Library, p: CachePolicy, headers: HeaderMap) returns (r: Option<SoapError>)
    requires NamesOk(p.vary)
    modifies headers
    ensures r == CacheFault(lib, p, Values(old(headers.entries), VARY))
    ensures r.None? ==> headers.entries == WithCache(p, old(headers.entries))
  {
    var fault := lib.cacheFault(p);
    if fault.Some? {
      return fault;
    }
    var text := CacheText(p);
    if text.None? {
      return Some(Plain(Validation));
    }
    CacheEncodable(p);
    headers.Insert(CACHE_CONTROL, text.value);
    assert CACHE_CONTROL[0] != VARY[0];
    r := MergeVary(headers, p.vary);
  }

  method ApplyResponsePolicies(lib: Library, e: Endpoint, headers: HeaderMap) returns (r: Option<SoapError>)
    requires EndpointOk(e)
    modifies headers
    ensures r == PolicyFault(lib, e, old(headers.entries))
    ensures r.None? ==> headers.entries == PolicyApplied(e, old(headers.entries))
  {
    if e.security.Some? {
      var fault := ApplySecurityHeaders(lib, e.security.value, headers);
      if fault.Some? {
        return fault;
      }
      SecurityLeavesVary(e, old(headers.entries));
    }
    if e.cache.Some? {
      var fault := ApplyCacheHeaders(lib, e.cache.value, headers);
      if fault.Some? {
        return fault;
      }
    }
    return None;
  }

  lemma PlainNames(p: SecurityPolicy)
    ensures DeclaredSecurity(p, VARY).None? && DeclaredSecurity(p, CACHE_CONTROL).None? && CACHE_CONTROL != VARY
  {
    NamesDistinct();
    assert |VARY| == 4 && |CACHE_CONTROL| == 13;
  }

  lemma SecurityLeavesVary(e: Endpoint, h: Headers)
    ensures Values(WithSecurity(e, h), VARY) == Values(h, VARY)
  {
    if e.security.Some? {
      SecurityDeclared(e.security.value, VARY);
      PlainNames(e.security.value);
    }
  }

  /** The step that ends every pipeline exit: policies, or the bare policy error. */
  method FinishResponse(lib: Library, e: Endpoint, response: Response) returns (r: Response)
    requires EndpointOk(e)
    modifies response.headers
    ensures r.Value() == WithPolicies(lib, e, old(response.Value()))
    ensures r == response || (fresh(r) && fresh(r.headers))
  {
    var fault := ApplyResponsePolicies(lib, e, response.headers);
    if fault.Some? {
      r := ErrorResponse(lib, fault.value);
    } else {
      r := response;
    }
  }

  method ErrorResponseWithPolicies(lib: Library, e: Endpoint, error: SoapError) returns (r: Response)
    requires EndpointOk(e)
    ensures fresh(r) && fresh(r.headers)
    ensures r.Value() == WithPolicies(lib, e, ErrorReply(lib, error))
  {
    r := ErrorResponse(lib, error);
    r := FinishResponse(lib, e, r);
  }

  /** A guard's rejection before policies: the mapped error with all its effects, or the effects' own error. */
  function GuardBase(lib: Library, error: SoapError, effects: Effects): Reply {
    match EffectsFault(lib, effects)
    case Some(fault) => ErrorReply(lib, fault)
    case None => WithEffects(ErrorReply(lib, error), effects)
  }

  function GuardReply(lib: Library, e: Endpoint, error: SoapError, effects: Effects): Reply {
    WithPolicies(lib, e, GuardBase(lib, error, effects))
  }

  method GuardRejectionResponse(lib: Library, e: Endpoint, error: SoapError, effects: Effects)
    returns (r: Response)
    requires EndpointOk(e) && WellFormed(effects.headers)
    ensures fresh(r) && fresh(r.headers) && r.Value() == GuardReply(lib, e, error, effects)
  {
    r := ErrorResponse(lib, error);
    var fault := ApplyEffects(lib, r, effects);
    if fault.Some? {
      r := ErrorResponse(lib, fault.value);
    }
    r := FinishResponse(lib, e, r);
  }

  function FinalReply(lib: Library, e: Endpoint, o: Outcome): Reply {
    WithPolicies(lib, e, OutcomeReply(lib, e.successStatus, o))
  }

  method FinalResponse(lib: Library, e: Endpoint, o: Outcome) returns (r: Response)
    requires EndpointOk(e) && WellFormedOutcome(o)
    ensures fresh(r) && fresh(r.headers) && r.Value() == FinalReply(lib, e, o)
  {
    r := OutcomeResponse(lib, e.successStatus, o);
    r := FinishResponse(lib, e, r);
  }

  // ------------------------------------------------------------------ what holds

  /** The value the endpoint's policies declare for one header name other than Vary. */
  function DeclaredValue(e: Endpoint, n: string): Option<string> {
    if e.security.Some? && DeclaredSecurity(e.security.value, n).Some? then DeclaredSecurity(e.security.value, n)
    else if e.cache.Some? && n == CACHE_CONTROL then CacheText(e.cache.value)
    else None
  }

  /** The values of one name after policies: the declared one, the merged Vary, or what was there. */
  function CoveredValues(e: Endpoint, before: Headers, n: string): seq<string> {
    if DeclaredValue(e, n).Some? then [DeclaredValue(e, n).value]
    else if e.cache.Some? && n == VARY then MergedLines(Values(before, VARY), e.cache.value.vary)
    else Values(before, n)
  }

  /** Exactly the declared values where the endpoint declares some; the rest untouched. */
  ghost predicate Covered(e: Endpoint, before: Headers, after: Headers) {
    forall n :: Values(after, n) == CoveredValues(e, before, n)
  }

  lemma PoliciesCover(e: Endpoint, h: Headers)
    ensures Covered(e, h, PolicyApplied(e, h))
  {
    SecurityLeavesVary(e, h);
    forall n
      ensures Values(PolicyApplied(e, h), n) == CoveredValues(e, h, n)
    {
      if e.security.Some? {
        SecurityDeclared(e.security.value, n);
        PlainNames(e.security.value);
      }
      assert CACHE_CONTROL[0] != VARY[0];
    }
  }

  predicate SecurityApplies(lib: Library, p: SecurityPolicy) {
    lib.securityFault(p).None? && (p.contentSecurity.Some? ==> Encodable(p.contentSecurity.value))
  }

  /** Both policies validate and encode, and the Vary lines, where they matter, are text up to a "*" or the end. */
  ghost predicate PoliciesApply(lib: Library, e: Endpoint, h: Headers) {
    && (e.security.Some? ==> SecurityApplies(lib, e.security.value))
    && (e.cache.Some? ==>
          lib.cacheFault(e.cache.value).None?
          && (e.cache.value.visibility == NoStore || e.cache.value.maxAge.Some?)
          && (e.cache.value.vary == [] || AllVisible(Values(h, VARY)) || exists k: nat :: StarAt(Values(h, VARY), k)))
  }

  /**
   Policies fail only for a policy that does not validate or encode, or for a
   Vary line that is not text and is met before any "*" while the cache policy
   names Vary members.
   */
  lemma PolicyFaultWhen(lib: Library, e: Endpoint, h: Headers)
    ensures PolicyFault(lib, e, h).None? <==> PoliciesApply(lib, e, h)
  {
    StarReached(Values(h, VARY));
    ListedWhen(Values(h, VARY));
    if AllVisible(Values(h, VARY)) && !ScanLines(Values(h, VARY)).Star? {
      NotUnreadable(Values(h, VARY));
    }
  }

  predicate SecurityRefused(lib: Library, p: SecurityPolicy, error: SoapError) {
    || lib.securityFault(p) == Some(error)
    || (lib.securityFault(p).None? && p.contentSecurity.Some? && !Encodable(p.contentSecurity.value)
        && error == SoapError(Validation, Foreign(NoSource)))
  }

  /** A Vary line that is not text is met before any "*". */
  ghost predicate Unreadable(lines: seq<string>) { !AllVisible(lines) && !exists k: nat :: StarAt(lines, k) }

  ghost predicate CacheRefused(lib: Library, p: CachePolicy, lines: seq<string>, error: SoapError) {
    || lib.cacheFault(p) == Some(error)
    || (lib.cacheFault(p).None? &&
        (if p.visibility != NoStore && p.maxAge.None? then error == Plain(Validation)
         else p.vary != [] && Unreadable(lines) && error == SoapError(Validation, Foreign(NoSource))))
  }

  /** The policies fail with this error: that of the security policy, or else that of the cache policy. */
  ghost predicate PolicyRefused(lib: Library, e: Endpoint, h: Headers, error: SoapError) {
    || (e.security.Some? && SecurityRefused(lib, e.security.value, error))
    || ((e.security.Some? ==> SecurityApplies(lib, e.security.value))
        && e.cache.Some? && CacheRefused(lib, e.cache.value, Values(h, VARY), error))
  }

  lemma UnreadableWhen(lines: seq<string>)
    ensures ScanLines(lines).Unreadable? <==> Unreadable(lines)
  {
    StarReached(lines);
    ListedWhen(lines);
    if AllVisible(lines) {
      NotUnreadable(lines);
    }
  }

  /** Which error replaces the response when policies fail. */
  lemma PolicyFaultExact(lib: Library, e: Endpoint, h: Headers, error: SoapError)
    ensures PolicyFault(lib, e, h) == Some(error) <==> PolicyRefused(lib, e, h, error)
  {
    UnreadableWhen(Values(h, VARY));
  }

  /** Every reply that leaves the pipeline is covered, or is the mapped policy error and nothing else. */
  lemma ExitCovered(lib: Library, e: Endpoint, base: Reply)
    ensures var r := WithPolicies(lib, e, base);
            if PolicyFault(lib, e, base.headers).None?
            then Covered(e, base.headers, r.headers) && r.status == base.status && r.body == base.body
            else r == ErrorReply(lib, PolicyFault(lib, e, base.headers).value)
  {
    PoliciesCover(e, base.headers);
  }

  /** The application's own mapper put exactly this value on its error. */
  predicate MapperSets(lib: Library, error: SoapError, n: string, value: string) {
    FindRejection(error.source).None? && Values(lib.mapError(error).headers, n) == [value]
  }

  /**
   A declared header is on what leaves the pipeline if the policies apply, and
   otherwise exactly if the mapper itself puts that header on the policy error.
   */
  lemma DeclaredWhen(lib: Library, e: Endpoint, base: Reply, n: string)
    requires DeclaredValue(e, n).Some?
    ensures PoliciesApply(lib, e, base.headers) ==>
              Values(WithPolicies(lib, e, base).headers, n) == [DeclaredValue(e, n).value]
    ensures !PoliciesApply(lib, e, base.headers) ==>
              var fault := PolicyFault(lib, e, base.headers);
              fault.Some? && (Values(WithPolicies(lib, e, base).headers, n) == [DeclaredValue(e, n).value]
                              <==> MapperSets(lib, fault.value, n, DeclaredValue(e, n).value))
  {
    PolicyFaultWhen(lib, e, base.headers);
    PoliciesCover(e, base.headers);
    NamesDistinct();
    assert |CONTENT_TYPE| == 12 && |CACHE_CONTROL| == 13;
    assert Values(PolicyApplied(e, base.headers), n) == CoveredValues(e, base.headers, n);
  }

  /** A library that accepts everything and maps every error to a bare 500. */
  const PLAIN_LIBRARY := Library(
    (effects: Effects) => None, (cookie: Cookie) => None, (p: SecurityPolicy) => None, (p: CachePolicy) => None,
    (error: SoapError) => Reply(500, map[], Raw([])))

  /** An endpoint that declares `nosniff` and varies on `accept`. */
  const SNIFFLESS := Endpoint(
    "e", "GET", "/", 200, [], None, None,
    Some(SecurityPolicy(true, None, None, None, None)), Some(CachePolicy(NoStore, None, ["accept"])))

  /** One Vary line that is not text takes a declared security header off the reply. */
  lemma DeclaredHeaderLost()
    ensures var r := WithPolicies(PLAIN_LIBRARY, SNIFFLESS, Reply(200, map[VARY := ["\U{00E9}"]], Raw([])));
            DeclaredValue(SNIFFLESS, NO_SNIFF) == Some("nosniff") && r.status == 500 && NO_SNIFF !in r.headers
  {
    var h: Headers := map[VARY := ["\U{00E9}"]];
    assert !VisibleChar("\U{00E9}"[0]);
    assert PolicyFault(PLAIN_LIBRARY, SNIFFLESS, h) == Some(BAD_VARY);
    assert |NO_SNIFF| == 22 && |CONTENT_TYPE| == 12;
  }

  /**
   Precedence over the whole of a successful exchange: policy, then middleware
   effects, then route effects, then the route's own headers. Vary is merged
   with the policy's names, and Set-Cookie accumulates below any layer that
   names it.
   */
  lemma FinalPrecedence(lib: Library, e: Endpoint, o: Outcome, n: string)
    requires o.result.Ok? && Sendable(lib, o.effects) && Sendable(lib, o.result.value.effects)
    requires PoliciesApply(lib, e, OutcomeReply(lib, e.successStatus, o).headers)
    ensures var (r, route) := (FinalReply(lib, e, o), o.result.value);
            && r.status == OrElse(o.effects.status,
                             OrElse(route.effects.status, OrElse(route.status, e.successStatus)))
            && r.body == Raw(route.body)
            && (n != SET_COOKIE && n != VARY ==>
                  Values(r.headers, n)
                  == if DeclaredValue(e, n).Some? then [DeclaredValue(e, n).value]
                     else if n in o.effects.headers then o.effects.headers[n]
                     else if n in route.effects.headers then route.effects.headers[n]
                     else Values(route.headers, n))
            && Values(r.headers, VARY)
               == (var layered := if VARY in o.effects.headers then o.effects.headers[VARY]
                                  else if VARY in route.effects.headers then route.effects.headers[VARY]
                                  else Values(route.headers, VARY);
                   if e.cache.Some? then MergedLines(layered, e.cache.value.vary) else layered)
            && Values(r.headers, SET_COOKIE)
               == (if SET_COOKIE in o.effects.headers then o.effects.headers[SET_COOKIE]
                   else (if SET_COOKIE in route.effects.headers then route.effects.headers[SET_COOKIE]
                         else Values(route.headers, SET_COOKIE)) + RenderAll(route.effects.cookies))
                  + RenderAll(o.effects.cookies)
  {
    var h := OutcomeReply(lib, e.successStatus, o).headers;
    PolicyFaultWhen(lib, e, h);
    LayerPrecedence(lib, e.successStatus, o, n);
    LayerPrecedence(lib, e.successStatus, o, VARY);
    PoliciesCover(e, h);
    assert Values(PolicyApplied(e, h), n) == CoveredValues(e, h, n);
    assert Values(PolicyApplied(e, h), VARY) == CoveredValues(e, h, VARY);
    assert Values(PolicyApplied(e, h), SET_COOKIE) == CoveredValues(e, h, SET_COOKIE);
    SpecialNames(e);
  }

  /**
   The same for a failed outcome: policy wins over middleware effects, those
   over the error as it was mapped, and the body is that of this very error.
   */
  lemma FailureFinal(lib: Library, e: Endpoint, o: Outcome, n: string)
    requires o.result.Err? && Sendable(lib, o.effects)
    requires PoliciesApply(lib, e, OutcomeReply(lib, e.successStatus, o).headers)
    ensures var (r, mapped) := (FinalReply(lib, e, o), ErrorReply(lib, o.result.error));
            && r.status == OrElse(o.effects.status, mapped.status)
            && r.body == mapped.body
            && (n != SET_COOKIE && n != VARY ==>
                  Values(r.headers, n)
                  == if DeclaredValue(e, n).Some? then [DeclaredValue(e, n).value]
                     else if n in o.effects.headers then o.effects.headers[n]
                     else Values(mapped.headers, n))
            && Values(r.headers, SET_COOKIE)
               == (if SET_COOKIE in o.effects.headers then o.effects.headers[SET_COOKIE]
                   else Values(mapped.headers, SET_COOKIE))
                  + RenderAll(o.effects.cookies)
  {
    var h := OutcomeReply(lib, e.successStatus, o).headers;
    PolicyFaultWhen(lib, e, h);
    FailurePrecedence(lib, e.successStatus, o, n);
    PoliciesCover(e, h);
    assert Values(PolicyApplied(e, h), n) == CoveredValues(e, h, n);
    assert Values(PolicyApplied(e, h), SET_COOKIE) == CoveredValues(e, h, SET_COOKIE);
    SpecialNames(e);
  }

  lemma SpecialNames(e: Endpoint)
    ensures VARY != CACHE_CONTROL && VARY != SET_COOKIE && SET_COOKIE != CACHE_CONTROL
    ensures e.security.Some? ==> DeclaredSecurity(e.security.value, VARY).None?
    ensures e.security.Some? ==> DeclaredSecurity(e.security.value, SET_COOKIE).None?
  {
    assert |VARY| == 4 && |CACHE_CONTROL| == 13 && |SET_COOKIE| == 10;
    NamesDistinct();
  }

  /** A guard's rejection carries all its effects over the mapped error, or is the effects' own error. */
  lemma GuardAllOrNothing(lib: Library, error: SoapError, effects: Effects)
    ensures var (r, bare) := (GuardBase(lib, error, effects), ErrorReply(lib, error));
            if Sendable(lib, effects)
            then Carries(r, effects) && r.body == bare.body && (effects.status.None? ==> r.status == bare.status)
                 && (forall n :: n !in effects.headers && n != SET_COOKIE ==>
                       Values(r.headers, n) == Values(bare.headers, n))
                 && (SET_COOKIE !in effects.headers ==>
                       Values(r.headers, SET_COOKIE) == Values(bare.headers, SET_COOKIE) + RenderAll(effects.cookies))
            else exists fault :: LayerRefused(lib, effects, fault) && r == ErrorReply(lib, fault)
  {
    var bare := ErrorReply(lib, error);
    match EffectsFault(lib, effects) {
      case Some(fault) =>
        EffectsFaultExact(lib, effects, fault);
        assert GuardBase(lib, error, effects) == ErrorReply(lib, fault);
      case None =>
        EffectsFaultExact(lib, effects, error);
        CarriesEffects(bare, effects);
        LayerValue(bare, effects, SET_COOKIE);
        forall n | n !in effects.headers && n != SET_COOKIE
          ensures Values(GuardBase(lib, error, effects).headers, n) == Values(bare.headers, n)
        {
          LayerValue(bare, effects, n);
        }
    }
  }
}
