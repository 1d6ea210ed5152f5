/**
 The response being assembled: an in-place header multimap, and the layers of
 response effects applied to it (src/router.rs).
 */
module ResponseHeaders {
  import opened Text
  import opened Http
  import opened SetCookie

  // ------------------------------------------------------------ specification

  function Appended(h: Headers, name: string, values: seq<string>): Headers {
    if values == [] then h else h[name := Values(h, name) + values]
  }

  function RenderAll(cookies: seq<Cookie>): (r: seq<string>)
    ensures |r| == |cookies|
    ensures forall i :: 0 <= i < |cookies| ==> r[i] == Render(cookies[i])
  {
    seq(|cookies|, i requires 0 <= i < |cookies| => Render(cookies[i]))
  }

  /** The first cookie that cannot be sent decides the error. */
  function CookiesFault(lib: Library, cookies: seq<Cookie>): Option<SoapError> {
    if cookies == [] then None
    else if EncodeFault(lib, cookies[0]).Some? then EncodeFault(lib, cookies[0])
    else CookiesFault(lib, cookies[1..])
  }

  /** The cookies before the first that cannot be sent. */
  function SentBefore(lib: Library, cookies: seq<Cookie>): seq<Cookie> {
    if cookies == [] || EncodeFault(lib, cookies[0]).Some? then []
    else [cookies[0]] + SentBefore(lib, cookies[1..])
  }

  function EffectsFault(lib: Library, e: Effects): Option<SoapError> {
    if lib.effectsFault(e).Some? then lib.effectsFault(e) else CookiesFault(lib, e.cookies)
  }

  /** A reply carrying every effect of `e`. */
  function WithEffects(r: Reply, e: Effects): Reply {
    Reply(if e.status.Some? then e.status.value else r.status,
          Appended(r.headers + e.headers, SET_COOKIE, RenderAll(e.cookies)),
          r.body)
  }

  /** The successful reply of a route before middleware effects. */
  function RouteReply(successStatus: nat, route: RouteResponse): Reply {
    WithEffects(Reply(if route.status.Some? then route.status.value else successStatus,
                      route.headers, Raw(route.body)),
                route.effects)
  }

  /** The first error met while turning an outcome into a response, if any. */
  function OutcomeFault(lib: Library, o: Outcome): Option<SoapError> {
    if lib.effectsFault(o.effects).Some? then lib.effectsFault(o.effects)
    else if o.result.Ok? && EffectsFault(lib, o.result.value.effects).Some?
      then EffectsFault(lib, o.result.value.effects)
    else CookiesFault(lib, o.effects.cookies)
  }

  function OutcomeReply(lib: Library, successStatus: nat, o: Outcome): Reply {
    match OutcomeFault(lib, o)
    case Some(error) => ErrorReply(lib, error)
    case None =>
      WithEffects(if o.result.Ok? then RouteReply(successStatus, o.result.value)
                  else ErrorReply(lib, o.result.error),
                  o.effects)
  }

  predicate WellFormedOutcome(o: Outcome) {
    && WellFormed(o.effects.headers)
    && (o.result.Ok? ==> WellFormed(o.result.value.headers) && WellFormed(o.result.value.effects.headers))
  }

  // ----------------------------------------------------------- in-place header map

  class HeaderMap {
    var entries: Headers

    constructor (initial: Headers)
      ensures entries == initial
    {
      entries := initial;
    }

    /** Replaces every value of `name`. */
    method Insert(name: string, value: string)
      modifies this
      ensures entries == old(entries)[name := [value]]
    {
      entries := entries[name := [value]];
    }

    method Append(name: string, value: string)
      modifies this
      ensures entries == old(entries)[name := Values(old(entries), name) + [value]]
    {
      entries := entries[name := Values(entries, name) + [value]];
    }

    method Remove(name: string)
      modifies this
      ensures entries == old(entries) - {name}
    {
      entries := entries - {name};
    }

    /** Takes a name out and puts the given values in, one by one. */
    method ReplaceName(name: string, values: seq<string>)
      requires values != []
      modifies this
      ensures entries == old(entries)[name := values]
    {
      Remove(name);
      ghost var others := entries;
      var i := 0;
      while i < |values|
        invariant i <= |values|
        invariant entries == if i == 0 then others else others[name := values[..i]]
      {
        Append(name, values[i]);
        assert values[..i + 1] == values[..i] + [values[i]];
        i := i + 1;
      }
      assert values[..i] == values;
    }

    /**
     Replaces the values of every name the source has, whatever order its
     names are visited in, and leaves the other names alone.
     */
    method ReplaceHeaders(source: Headers)
      requires WellFormed(source)
      modifies this
      ensures entries == old(entries) + source
    {
      var names := source.Keys;
      while names != {}
        invariant names <= source.Keys
        invariant entries.Keys == old(entries).Keys + (source.Keys - names)
        invariant forall n :: n in entries ==>
                    entries[n] == if n in source && n !in names then source[n] else old(entries)[n]
        decreases |names|
      {
        var name :| name in names;
        ReplaceName(name, source[name]);
        names := names - {name};
      }
    }
  }

  class Response {
    var status: nat
    const headers: HeaderMap
    var body: Body

    constructor (reply: Reply)
      ensures fresh(headers) && Value() == reply
    {
      status := reply.status;
      headers := new HeaderMap(reply.headers);
      body := reply.body;
    }

    function Value(): Reply
      reads this, headers
    {
      Reply(status, headers.entries, body)
    }
  }

  // ---------------------------------------------------------------- operations

  lemma CookiesFaultStep(lib: Library, cookies: seq<Cookie>, i: nat)
    requires i < |cookies| && CookiesFault(lib, cookies) == CookiesFault(lib, cookies[i..])
    ensures EncodeFault(lib, cookies[i]).Some? ==> CookiesFault(lib, cookies) == EncodeFault(lib, cookies[i])
    ensures EncodeFault(lib, cookies[i]).None?
        ==> CookiesFault(lib, cookies) == CookiesFault(lib, cookies[i + 1..])
  {
    assert cookies[i..][1..] == cookies[i + 1..];
  }

  lemma SentBeforeStep(lib: Library, cookies: seq<Cookie>, i: nat)
    requires i < |cookies| && SentBefore(lib, cookies) == cookies[..i] + SentBefore(lib, cookies[i..])
    ensures if EncodeFault(lib, cookies[i]).Some? then SentBefore(lib, cookies) == cookies[..i]
            else SentBefore(lib, cookies) == cookies[..i + 1] + SentBefore(lib, cookies[i + 1..])
  {
    var rest := cookies[i..];
    assert rest[0] == cookies[i] && rest[1..] == cookies[i + 1..];
    if EncodeFault(lib, cookies[i]).Some? {
      assert cookies[..i] + [] == cookies[..i];
    } else {
      assert SentBefore(lib, rest) == [cookies[i]] + SentBefore(lib, cookies[i + 1..]);
      Associative(cookies[..i], [cookies[i]], SentBefore(lib, cookies[i + 1..]));
      assert cookies[..i + 1] == cookies[..i] + [cookies[i]];
    }
  }

  /**
   Applies status, headers and cookies in that order. A cookie that fails
   part-way leaves `response` half changed, with the cookies before it:
   callers drop it then.
   */
  method ApplyEffects(lib: Library, response: Response, effects: Effects) returns (r: Option<SoapError>)
    requires WellFormed(effects.headers)
    modifies response, response.headers
    ensures r == EffectsFault(lib, effects)
    ensures r.None? ==> response.Value() == WithEffects(old(response.Value()), effects)
    ensures r.Some? ==>
              response.Value()
              == if lib.effectsFault(effects).Some? then old(response.Value())
                 else WithEffects(old(response.Value()), effects.(cookies := SentBefore(lib, effects.cookies)))
  {
    var fault := lib.effectsFault(effects);
    if fault.Some? {
      return fault;
    }
    if effects.status.Some? {
      response.status := effects.status.value;
    }
    response.headers.ReplaceHeaders(effects.headers);
    var i := 0;
    ghost var replaced := response.headers.entries;
    assert effects.cookies[..0] == [] && effects.cookies[0..] == effects.cookies;
    assert [] + SentBefore(lib, effects.cookies) == SentBefore(lib, effects.cookies);
    while i < |effects.cookies|
      invariant i <= |effects.cookies|
      invariant CookiesFault(lib, effects.cookies) == CookiesFault(lib, effects.cookies[i..])
      invariant SentBefore(lib, effects.cookies) == effects.cookies[..i] + SentBefore(lib, effects.cookies[i..])
      invariant response.body == old(response.body)
      invariant response.status == if effects.status.Some? then effects.status.value else old(response.status)
      invariant response.headers.entries == Appended(replaced, SET_COOKIE, RenderAll(effects.cookies)[..i])
      modifies response, response.headers
    {
      CookiesFaultStep(lib, effects.cookies, i);
      SentBeforeStep(lib, effects.cookies, i);
      var encoded := EncodeCookie(lib, effects.cookies[i]);
      if encoded.Err? {
        assert RenderAll(effects.cookies)[..i] == RenderAll(effects.cookies[..i]);
        return Some(encoded.error);
      }
      response.headers.Append(SET_COOKIE, encoded.value);
      AppendedStep(replaced, SET_COOKIE, RenderAll(effects.cookies), i);
      i := i + 1;
    }
    assert RenderAll(effects.cookies)[..i] == RenderAll(effects.cookies);
    return None;
  }

  lemma AppendedStep(h: Headers, name: string, values: seq<string>, i: nat)
    requires i < |values|
    ensures var before := Appended(h, name, values[..i]);
            Appended(h, name, values[..i + 1]) == before[name := Values(before, name) + [values[i]]]
  {
    assert values[..i + 1] == values[..i] + [values[i]];
    if i > 0 {
      Associative(Values(h, name), values[..i], [values[i]]);
    } else {
      assert values[..i + 1] == [values[i]];
    }
  }

  method ErrorResponse(lib: Library, error: SoapError) returns (r: Response)
    ensures fresh(r) && fresh(r.headers) && r.Value() == ErrorReply(lib, error)
  {
    r := new Response(ErrorReply(lib, error));
  }

  method SuccessResponse(lib: Library, successStatus: nat, route: RouteResponse) returns (r: Result<Response>)
    requires WellFormed(route.headers) && WellFormed(route.effects.headers)
    ensures EffectsFault(lib, route.effects) == (if r.Ok? then None else Some(r.error))
    ensures r.Ok? ==> fresh(r.value) && fresh(r.value.headers) && r.value.Value() == RouteReply(successStatus, route)
  {
    var fault := lib.effectsFault(route.effects);
    if fault.Some? {
      return Err(fault.value);
    }
    var response := new Response(Reply(successStatus, map[], Raw(route.body)));
    if route.status.Some? {
      response.status := route.status.value;
    }
    response.headers.entries := route.headers;
    var applied := ApplyEffects(lib, response, route.effects);
    if applied.Some? {
      return Err(applied.value);
    }
    return Ok(response);
  }

  /** Maps an outcome to a response; any failed layer gives the bare mapped error. */
  method OutcomeResponse(lib: Library, successStatus: nat, outcome: Outcome) returns (r: Response)
    requires WellFormedOutcome(outcome)
    ensures fresh(r) && fresh(r.headers) && r.Value() == OutcomeReply(lib, successStatus, outcome)
  {
    var fault := lib.effectsFault(outcome.effects);
    if fault.Some? {
      r := ErrorResponse(lib, fault.value);
      return;
    }
    match outcome.result {
      case Ok(route) =>
        var success := SuccessResponse(lib, successStatus, route);
        if success.Err? {
          r := ErrorResponse(lib, success.error);
          return;
        }
        r := success.value;
      case Err(error) =>
        r := ErrorResponse(lib, error);
    }
    var applied := ApplyEffects(lib, r, outcome.effects);
    if applied.Some? {
      r := ErrorResponse(lib, applied.value);
    }
  }

  // ------------------------------------------------------------ the layers' laws

  predicate EndsWith<T(==)>(s: seq<T>, tail: seq<T>) {
    |tail| <= |s| && s[|s| - |tail|..] == tail
  }

  /** What a client can see of one layer of effects in a reply. */
  predicate Carries(r: Reply, e: Effects) {
    && (e.status.Some? ==> r.status == e.status.value)
    && (forall n :: n in e.headers && n != SET_COOKIE ==> Values(r.headers, n) == e.headers[n])
    && (SET_COOKIE in e.headers ==> Values(r.headers, SET_COOKIE) == e.headers[SET_COOKIE] + RenderAll(e.cookies))
    && EndsWith(Values(r.headers, SET_COOKIE), RenderAll(e.cookies))
  }

  predicate CookieSendable(lib: Library, c: Cookie) { lib.cookieFault(c).None? && Encodable(Render(c)) }

  /** A layer can be sent: the library accepts it and every cookie, and every cookie is header text. */
  predicate Sendable(lib: Library, e: Effects) {
    && lib.effectsFault(e).None?
    && forall i :: 0 <= i < |e.cookies| ==> CookieSendable(lib, e.cookies[i])
  }

  /** The library refuses the cookie with this error, or accepts what then is no header text. */
  predicate CookieRefused(lib: Library, c: Cookie, error: SoapError) {
    || lib.cookieFault(c) == Some(error)
    || (lib.cookieFault(c).None? && !Encodable(Render(c)) && error == SoapError(Validation, Foreign(NoSource)))
  }

  /** The first cookie that cannot be sent is refused with this error. */
  ghost predicate FirstRefused(lib: Library, cookies: seq<Cookie>, error: SoapError) {
    exists k: nat :: RefusedAt(lib, cookies, error, k)
  }

  predicate RefusedAt(lib: Library, cookies: seq<Cookie>, error: SoapError, k: nat) {
    && k < |cookies| && CookieRefused(lib, cookies[k], error)
    && forall j :: 0 <= j < k ==> CookieSendable(lib, cookies[j])
  }

  /** Applying the layer fails with this error. */
  ghost predicate LayerRefused(lib: Library, e: Effects, error: SoapError) {
    || lib.effectsFault(e) == Some(error)
    || (lib.effectsFault(e).None? && FirstRefused(lib, e.cookies, error))
  }

  /**
   The error that replaces the response: of the middleware effects as a whole,
   else of the route's layer, else of a middleware cookie.
   */
  ghost predicate OutcomeRefused(lib: Library, o: Outcome, error: SoapError) {
    || lib.effectsFault(o.effects) == Some(error)
    || (lib.effectsFault(o.effects).None? &&
        (|| (o.result.Ok? && LayerRefused(lib, o.result.value.effects, error))
         || ((o.result.Ok? ==> Sendable(lib, o.result.value.effects)) && FirstRefused(lib, o.effects.cookies, error))))
  }

  lemma EncodeFaultExact(lib: Library, c: Cookie, error: SoapError)
    ensures EncodeFault(lib, c).None? <==> CookieSendable(lib, c)
    ensures EncodeFault(lib, c) == Some(error) <==> CookieRefused(lib, c, error)
  {
  }

  lemma RefusedStep(lib: Library, cookies: seq<Cookie>, error: SoapError, k: nat)
    requires cookies != [] && 0 < k
    ensures RefusedAt(lib, cookies, error, k)
       <==> CookieSendable(lib, cookies[0]) && RefusedAt(lib, cookies[1..], error, k - 1)
  {
    var rest := cookies[1..];
    assert forall j :: 0 <= j < |rest| ==> rest[j] == cookies[j + 1];
    assert forall j :: 1 <= j < |cookies| ==> cookies[j] == rest[j - 1];
  }

  lemma {:induction false} CookiesFaultExact(lib: Library, cookies: seq<Cookie>, error: SoapError)
    ensures CookiesFault(lib, cookies) == Some(error) <==> FirstRefused(lib, cookies, error)
  {
    if cookies != [] {
      EncodeFaultExact(lib, cookies[0], error);
      CookiesFaultExact(lib, cookies[1..], error);
      assert RefusedAt(lib, cookies, error, 0) <==> CookieRefused(lib, cookies[0], error);
      if k: nat :| RefusedAt(lib, cookies, error, k) {
        if k > 0 {
          RefusedStep(lib, cookies, error, k);
        }
      }
      if k: nat :| RefusedAt(lib, cookies[1..], error, k) {
        RefusedStep(lib, cookies, error, k + 1);
      }
    }
  }

  lemma EffectsFaultExact(lib: Library, e: Effects, error: SoapError)
    ensures EffectsFault(lib, e).None? <==> Sendable(lib, e)
    ensures EffectsFault(lib, e) == Some(error) <==> LayerRefused(lib, e, error)
  {
    CookiesFaultNone(lib, e.cookies);
    CookiesFaultExact(lib, e.cookies, error);
  }

  lemma OutcomeFaultExact(lib: Library, o: Outcome, error: SoapError)
    ensures OutcomeFault(lib, o).None?
       <==> Sendable(lib, o.effects) && (o.result.Ok? ==> Sendable(lib, o.result.value.effects))
    ensures OutcomeFault(lib, o) == Some(error) <==> OutcomeRefused(lib, o, error)
  {
    CookiesFaultNone(lib, o.effects.cookies);
    CookiesFaultExact(lib, o.effects.cookies, error);
    if o.result.Ok? {
      EffectsFaultExact(lib, o.result.value.effects, error);
    }
  }

  lemma {:induction false} CookiesFaultNone(lib: Library, cookies: seq<Cookie>)
    ensures CookiesFault(lib, cookies).None?
       <==> forall i :: 0 <= i < |cookies| ==> CookieSendable(lib, cookies[i])
  {
    if cookies != [] {
      CookiesFaultNone(lib, cookies[1..]);
      assert forall i :: 1 <= i < |cookies| ==> cookies[i] == cookies[1..][i - 1];
    }
  }

  /**
   All or nothing: when both layers can be sent the reply carries all of the
   middleware layer, and otherwise it is the mapped error of the first that
   cannot, and nothing else.
   */
  lemma EffectsAllOrNothing(lib: Library, successStatus: nat, o: Outcome)
    ensures var r := OutcomeReply(lib, successStatus, o);
            if Sendable(lib, o.effects) && (o.result.Ok? ==> Sendable(lib, o.result.value.effects))
            then Carries(r, o.effects)
            else exists error :: OutcomeRefused(lib, o, error) && r == ErrorReply(lib, error)
  {
    var r := OutcomeReply(lib, successStatus, o);
    match OutcomeFault(lib, o) {
      case Some(error) =>
        OutcomeFaultExact(lib, o, error);
        assert r == ErrorReply(lib, error);
      case None =>
        OutcomeFaultExact(lib, o, Plain(Validation));
        CarriesEffects(if o.result.Ok? then RouteReply(successStatus, o.result.value)
                       else ErrorReply(lib, o.result.error), o.effects);
    }
  }

  /** Whichever error can be named as the reason, it is the one that is mapped. */
  lemma RefusalMapped(lib: Library, successStatus: nat, o: Outcome, error: SoapError)
    requires OutcomeRefused(lib, o, error)
    ensures OutcomeReply(lib, successStatus, o) == ErrorReply(lib, error)
  {
    OutcomeFaultExact(lib, o, error);
  }

  lemma CarriesEffects(base: Reply, e: Effects)
    ensures Carries(WithEffects(base, e), e)
  {
    var h := base.headers + e.headers;
    assert Values(WithEffects(base, e).headers, SET_COOKIE) == Values(h, SET_COOKIE) + RenderAll(e.cookies);
  }

  function OrElse<T>(o: Option<T>, otherwise: T): T {
    if o.Some? then o.value else otherwise
  }

  /** The value of `name` after one layer: the layer's own, else what was there before. */
  lemma LayerValue(base: Reply, e: Effects, name: string)
    ensures name != SET_COOKIE ==>
              Values(WithEffects(base, e).headers, name)
              == if name in e.headers then e.headers[name] else Values(base.headers, name)
    ensures Values(WithEffects(base, e).headers, SET_COOKIE)
         == (if SET_COOKIE in e.headers then e.headers[SET_COOKIE] else Values(base.headers, SET_COOKIE))
            + RenderAll(e.cookies)
  {
    var h := base.headers + e.headers;
    assert RenderAll(e.cookies) == [] ==> Values(h, SET_COOKIE) + RenderAll(e.cookies) == Values(h, SET_COOKIE);
  }

  /**
   Status and headers of a successful outcome: middleware effects win over
   route effects, those over the route response. Cookies accumulate unless a
   later layer names Set-Cookie among its headers.
   */
  lemma LayerPrecedence(lib: Library, successStatus: nat, o: Outcome, name: string)
    requires o.result.Ok? && Sendable(lib, o.effects) && Sendable(lib, o.result.value.effects)
    ensures var (r, route) := (OutcomeReply(lib, successStatus, o), o.result.value);
            && r.status == OrElse(o.effects.status, OrElse(route.effects.status, OrElse(route.status, successStatus)))
            && (name != SET_COOKIE ==>
                  Values(r.headers, name)
                  == if name in o.effects.headers then o.effects.headers[name]
                     else if name in route.effects.headers then route.effects.headers[name]
                     else Values(route.headers, name))
            && Values(r.headers, SET_COOKIE)
               == (if SET_COOKIE in o.effects.headers then o.effects.headers[SET_COOKIE]
                   else (if SET_COOKIE in route.effects.headers then route.effects.headers[SET_COOKIE]
                         else Values(route.headers, SET_COOKIE)) + RenderAll(route.effects.cookies))
                  + RenderAll(o.effects.cookies)
            && r.body == Raw(route.body)
  {
    var route := o.result.value;
    OutcomeFaultExact(lib, o, Plain(Validation));
    LayerValue(RouteReply(successStatus, route), o.effects, name);
    LayerValue(Reply(OrElse(route.status, successStatus), route.headers, Raw(route.body)), route.effects, name);
  }

  /**
   The reply to a failed outcome is its own mapped error under the middleware
   effects: the body is the error's, status and headers are the effects' where
   they name any and the error's elsewhere, and cookies are appended.
   */
  lemma FailurePrecedence(lib: Library, successStatus: nat, o: Outcome, name: string)
    requires o.result.Err? && Sendable(lib, o.effects)
    ensures var (r, mapped) := (OutcomeReply(lib, successStatus, o), ErrorReply(lib, o.result.error));
            && r.body == mapped.body
            && r.status == OrElse(o.effects.status, mapped.status)
            && (name != SET_COOKIE ==>
                  Values(r.headers, name)
                  == if name in o.effects.headers then o.effects.headers[name] else Values(mapped.headers, name))
            && Values(r.headers, SET_COOKIE)
               == (if SET_COOKIE in o.effects.headers then o.effects.headers[SET_COOKIE]
                   else Values(mapped.headers, SET_COOKIE))
                  + RenderAll(o.effects.cookies)
  {
    OutcomeFaultExact(lib, o, Plain(Validation));
    LayerValue(ErrorReply(lib, o.result.error), o.effects, name);
  }

  /** Replacing twice from one source changes nothing more; two sources compose, the later one winning. */
  lemma ReplaceComposes(target: Headers, first: Headers, second: Headers)
    ensures (target + first) + first == target + first
    ensures (target + first) + second == target + (first + second)
  {
  }
}
