/**
 The rate-limit bridge (src/rate_limit.rs): keys of the built-in resolver, the
 Retry-After delay, and the guard's decision.
 */
module RateLimit {
  import opened Text
  import opened Http
  import opened SetCookie
  import opened ResponseHeaders
  import opened Policy

  datatype Scope = Everyone | ClientIp | Principal | ApiKey | Custom(name: string)

  // ---------------------------------------------------------------------- keys

  /** Address text: hexadecimal digits, ':' and '.', as IPv4 and IPv6 addresses print. */
  predicate IpText(s: string) {
    s != "" && forall i :: 0 <= i < |s| ==> Digit(s[i]) || 'a' <= s[i] <= 'f' || s[i] == ':' || s[i] == '.'
  }

  function KeyText(endpoint: string, scope: Scope, clientIp: Option<string>): Result<string> {
    match scope
    case Everyone => Ok("http:endpoint=" + endpoint + ":scope" + "=" + "global")
    case ClientIp =>
      if clientIp.None? then Err(Plain(Infrastructure))
      else Ok("http:endpoint=" + endpoint + ":scope=client-ip:value" + "=" + clientIp.value)
    case _ => Err(Plain(Unsupported))
  }

  /** `keyFault` is the limiter crate's own check of key text. */
  function Resolve(keyFault: string -> Option<SoapError>, endpoint: string, scope: Scope, clientIp: Option<string>)
    : Result<string>
  {
    match KeyText(endpoint, scope, clientIp)
    case Err(e) => Err(e)
    case Ok(text) => if keyFault(text).Some? then Err(keyFault(text).value) else Ok(text)
  }

  /** Only global keys and, where the address is known, keys by client address are built in. */
  lemma KeyGiven(
    keyFault: string -> Option<SoapError>, endpoint: string, scope: Scope, clientIp: Option<string>)
    ensures var key := Resolve(keyFault, endpoint, scope, clientIp);
            && (key.Ok? ==> scope == Everyone || (scope == ClientIp && clientIp.Some?))
            && (key.Ok? ==> keyFault(key.value).None?)
            && (scope == ClientIp && clientIp.None? ==> key == Err(Plain(Infrastructure)))
            && (scope != Everyone && scope != ClientIp ==> key == Err(Plain(Unsupported)))
    ensures (forall text :: keyFault(text).None?) && (scope == Everyone || (scope == ClientIp && clientIp.Some?)) ==>
              Resolve(keyFault, endpoint, scope, clientIp).Ok?
  {
  }

  /** The text after the last '=' is determined by the whole text. */
  lemma LastEquals(a: string, t: string, b: string, u: string)
    requires '=' !in t && '=' !in u && a + "=" + t == b + "=" + u
    ensures a == b && t == u
  {
    var s := a + "=" + t;
    var s' := b + "=" + u;
    assert s[|a|] == '=' && s'[|b|] == '=';
    assert forall i :: |a| < i < |s| ==> s[i] in t;
    assert forall i :: |b| < i < |s| ==> s[i] in u by {
      assert forall i :: |b| < i < |s'| ==> s'[i] in u;
    }
    assert |a| == |b|;
    assert a == s[..|a|] && b == s'[..|b|];
    assert t == s[|a| + 1..] && u == s'[|b| + 1..];
  }

  lemma Framed(opening: string, a: string, b: string, closing: string)
    requires opening + a + closing == opening + b + closing
    ensures a == b
  {
    var s := opening + a + closing;
    var s' := opening + b + closing;
    assert |a| == |b|;
    assert a == s[|opening|..|opening| + |a|] && b == s'[|opening|..|opening| + |b|];
  }

  /** Two requests share a built-in key only for one endpoint, one scope and, by address, one client. */
  lemma KeysInjective(
    keyFault: string -> Option<SoapError>,
    e1: string, s1: Scope, ip1: Option<string>, e2: string, s2: Scope, ip2: Option<string>)
    requires (ip1.Some? ==> IpText(ip1.value)) && (ip2.Some? ==> IpText(ip2.value))
    requires Resolve(keyFault, e1, s1, ip1).Ok?
    requires Resolve(keyFault, e1, s1, ip1) == Resolve(keyFault, e2, s2, ip2)
    ensures e1 == e2 && s1 == s2 && (s1.ClientIp? ==> ip1 == ip2)
  {
    var (p1, t1) := KeyParts(e1, s1, ip1);
    var (p2, t2) := KeyParts(e2, s2, ip2);
    KeyPartsOf(e1, s1, ip1);
    KeyPartsOf(e2, s2, ip2);
    LastEquals(p1, t1, p2, t2);
    assert "global"[0] == 'g';
    if s1 == Everyone {
      Framed("http:endpoint=", e1, e2, ":scope");
    } else {
      Framed("http:endpoint=", e1, e2, ":scope=client-ip:value");
    }
  }

  /** The key before and after its last '='. */
  function KeyParts(endpoint: string, scope: Scope, clientIp: Option<string>): (string, string)
    requires KeyText(endpoint, scope, clientIp).Ok?
  {
    if scope.Everyone? then ("http:endpoint=" + endpoint + ":scope", "global")
    else ("http:endpoint=" + endpoint + ":scope=client-ip:value", clientIp.value)
  }

  lemma KeyPartsOf(endpoint: string, scope: Scope, clientIp: Option<string>)
    requires KeyText(endpoint, scope, clientIp).Ok? && (clientIp.Some? ==> IpText(clientIp.value))
    ensures var (before, after) := KeyParts(endpoint, scope, clientIp);
            KeyText(endpoint, scope, clientIp) == Ok(before + "=" + after) && '=' !in after
  {
  }

  // --------------------------------------------------------------------- delays

  const U64_MAX := 0xFFFF_FFFF_FFFF_FFFF
  const NANOS := 1_000_000_000

  predicate ValidDuration(d: Duration) { d.secs <= U64_MAX && d.nanos < NANOS }

  function TotalNanos(d: Duration): nat { d.secs * NANOS + d.nanos }

  /** Saturating: `secs` plus one for any fraction, at least one. */
  function RetrySeconds(d: Duration): nat {
    var extra := if d.nanos > 0 then 1 else 0;
    var sum := if d.secs + extra > U64_MAX then U64_MAX else d.secs + extra;
    if sum < 1 then 1 else sum
  }

  /** A whole number of seconds, at least one, that waits out the delay. */
  predicate WaitsOut(seconds: nat, d: Duration) { seconds >= 1 && seconds * NANOS >= TotalNanos(d) }

  /** The delay sent is the least that waits out the limit, unless that does not fit in 64 bits. */
  lemma RetryLeast(d: Duration)
    requires ValidDuration(d)
    ensures WaitsOut(RetrySeconds(d), d) <==> !(d.secs == U64_MAX && d.nanos > 0)
    ensures forall s: nat :: WaitsOut(s, d) ==> RetrySeconds(d) <= s
    ensures d.secs == U64_MAX && d.nanos > 0 ==> RetrySeconds(d) == U64_MAX
  {
    forall s: nat | WaitsOut(s, d)
      ensures RetrySeconds(d) <= s
    {
      assert s * NANOS >= d.secs * NANOS + d.nanos;
    }
  }

  /** The failing case: the largest count of seconds and a fraction. */
  lemma RetryTooShort()
    ensures var d := Duration(U64_MAX, 1); ValidDuration(d) && !WaitsOut(RetrySeconds(d), d)
  {
    RetryLeast(Duration(U64_MAX, 1));
  }

  lemma RetryMonotone(a: Duration, b: Duration)
    requires ValidDuration(a) && ValidDuration(b) && TotalNanos(a) <= TotalNanos(b)
    ensures RetrySeconds(a) <= RetrySeconds(b)
  {
  }

  // ------------------------------------------------------------------ the guard

  const RETRY_AFTER := "retry-after"

  datatype Decision = Allowed | Refused(retryAfter: Duration)

  /** A guard's answer: pass, or an error with response effects. */
  datatype Verdict = Pass | Reject(error: SoapError, effects: Effects)

  /** One Retry-After header that spells the delay. */
  function RetryEffects(d: Duration): Effects {
    NO_EFFECTS.(headers := map[RETRY_AFTER := [Decimal(RetrySeconds(d))]])
  }

  /**
   The guard, over what the limiter answers at each step. An endpoint without
   a policy passes whatever the limiter would say.
   */
  method Check(hasPolicy: bool, rule: Result<()>, key: Result<string>, decision: Result<Decision>)
    returns (verdict: Verdict)
    ensures verdict.Pass? <==> !hasPolicy || (rule.Ok? && key.Ok? && decision == Ok(Allowed))
    ensures hasPolicy && rule.Err? ==> verdict == Reject(rule.error, NO_EFFECTS)
    ensures hasPolicy && rule.Ok? && key.Err? ==> verdict == Reject(key.error, NO_EFFECTS)
    ensures hasPolicy && rule.Ok? && key.Ok? && decision.Err? ==> verdict == Reject(decision.error, NO_EFFECTS)
    ensures hasPolicy && rule.Ok? && key.Ok? && decision.Ok? && decision.value.Refused? ==>
              verdict == Reject(Plain(RateLimited), RetryEffects(decision.value.retryAfter))
  {
    if !hasPolicy {
      return Pass;
    }
    if rule.Err? {
      return Reject(rule.error, NO_EFFECTS);
    }
    if key.Err? {
      return Reject(key.error, NO_EFFECTS);
    }
    if decision.Err? {
      return Reject(decision.error, NO_EFFECTS);
    }
    match decision.value {
      case Allowed =>
        return Pass;
      case Refused(retryAfter) =>
        var seconds := Decimal(RetrySeconds(retryAfter));
        var effects := NO_EFFECTS;
        effects := effects.(headers := effects.headers[RETRY_AFTER := [seconds]]);
        return Reject(Plain(RateLimited), effects);
    }
  }

  /**
   Unless the library refuses the effects or a policy fails, the client of a
   refused request reads a Retry-After header that spells the delay.
   */
  lemma RefusalTellsDelay(lib: Library, e: Endpoint, d: Duration)
    requires lib.effectsFault(RetryEffects(d)).None?
    requires PolicyFault(lib, e, WithEffects(ErrorReply(lib, Plain(RateLimited)), RetryEffects(d)).headers).None?
    ensures var sent := Values(GuardReply(lib, e, Plain(RateLimited), RetryEffects(d)).headers, RETRY_AFTER);
            |sent| == 1 && AllDigits(sent[0]) && DecimalValue(sent[0]) == RetrySeconds(d)
  {
    var effects := RetryEffects(d);
    var base := WithEffects(ErrorReply(lib, Plain(RateLimited)), effects);
    CarriesEffects(ErrorReply(lib, Plain(RateLimited)), effects);
    assert |RETRY_AFTER| == 11 && |SET_COOKIE| == 10 && |VARY| == 4 && |CACHE_CONTROL| == 13;
    NamesDistinct();
    PoliciesCover(e, base.headers);
    assert Values(PolicyApplied(e, base.headers), RETRY_AFTER) == Values(base.headers, RETRY_AFTER);
    DecimalRoundTrip(RetrySeconds(d));
  }
}
