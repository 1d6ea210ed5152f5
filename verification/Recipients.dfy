/**
 What the recipient of a response reads in the policy headers (src/policy.rs):
 Cache-Control as section 5.2 of RFC 9111 and Strict-Transport-Security as
 section 6.1 of RFC 6797 have it, and the others by their literal values.
 */
module Recipients {
  import opened Text
  import opened Http
  import opened ResponseHeaders
  import opened Policy

  // -------------------------------------------------------------------- directives

  /** A directive: its name in lower case, and what follows its '='. */
  function Directive(part: string): (string, string) {
    match SplitOnce(Trim(part), '=')
    case Some(nv) => (Lower(Trim(nv.0)), Trim(nv.1))
    case None => (Lower(Trim(part)), "")
  }

  function DirectivesOf(parts: seq<string>): seq<(string, string)> {
    if parts == [] then [] else [Directive(parts[0])] + DirectivesOf(parts[1..])
  }

  /** The directives of a header value, which stand between separators. */
  function Directives(text: string, sep: char): seq<(string, string)> { DirectivesOf(Split(text, sep)) }

  predicate Age(d: (string, string), seconds: nat) {
    d.0 == "max-age" && d.1 != "" && AllDigits(d.1) && DecimalValue(d.1) == seconds
  }

  lemma LastDirective(part: string, sep: char)
    requires sep !in part
    ensures Directives(part, sep) == [Directive(part)]
  {
    SplitAbsent(part, sep);
    var parts := [part];
    assert parts[1..] == [];
    assert DirectivesOf(parts) == [Directive(part)] + DirectivesOf(parts[1..]);
  }

  lemma FirstDirective(part: string, sep: char, rest: string)
    requires sep !in part
    ensures Directives(part + [sep] + rest, sep) == [Directive(part)] + Directives(rest, sep)
  {
    SplitFirst(part, sep, rest);
    assert ([part] + Split(rest, sep))[1..] == Split(rest, sep);
  }

  lemma FlagRead(pad: string, flag: string, low: string)
    requires Trimmed(flag) && '=' !in flag && Lower(flag) == low && AllBlank(pad)
    ensures Directive(pad + flag) == (low, "")
  {
    TrimPadLeft(pad, flag);
    TrimFixes(flag);
    SplitOnceParts(flag, '=');
  }

  lemma PlainFlag(flag: string)
    requires Trimmed(flag) && '=' !in flag && Lower(flag) == flag
    ensures Directive(flag) == (flag, "")
  {
    FlagRead("", flag, flag);
    assert "" + flag == flag;
  }

  function AgeText(seconds: nat): string { "max-age=" + Decimal(seconds) }

  lemma AgeShape(seconds: nat)
    ensures Trimmed(AgeText(seconds)) && ',' !in AgeText(seconds) && ';' !in AgeText(seconds)
    ensures SplitOnce(AgeText(seconds), '=') == Some(("max-age", Decimal(seconds)))
  {
    var digits := Decimal(seconds);
    var text := AgeText(seconds);
    assert forall i :: 0 <= i < |digits| ==> Digit(digits[i]);
    assert text == "max-age" + ['='] + digits;
    SplitOnceUnique("max-age", '=', digits);
    assert text[0] == 'm' && text[|text| - 1] == digits[|digits| - 1];
  }

  lemma AgeRead(pad: string, seconds: nat)
    requires AllBlank(pad)
    ensures Age(Directive(pad + AgeText(seconds)), seconds)
  {
    AgeShape(seconds);
    TrimPadLeft(pad, AgeText(seconds));
    TrimFixes(AgeText(seconds));
    AgeName();
    DigitsTrimmed(seconds);
    DecimalRoundTrip(seconds);
  }

  lemma AgeName()
    ensures Lower(Trim("max-age")) == "max-age"
  {
    TrimFixes("max-age");
  }

  lemma DigitsTrimmed(n: nat)
    ensures Trim(Decimal(n)) == Decimal(n)
  {
    var digits := Decimal(n);
    assert Digit(digits[0]) && Digit(digits[|digits| - 1]);
    TrimFixes(digits);
  }

  // ----------------------------------------------------------------- Cache-Control

  predicate FlagAndAge(ds: seq<(string, string)>, flag: string, age: Option<Duration>) {
    |ds| == 2 && ds[0] == (flag, "") && age.Some? && Age(ds[1], age.value.secs)
  }

  predicate CacheReads(text: string, p: CachePolicy) {
    match p.visibility
    case NoStore => Directives(text, ',') == [("no-store", "")]
    case Private => FlagAndAge(Directives(text, ','), "private", p.maxAge)
    case Public => FlagAndAge(Directives(text, ','), "public", p.maxAge)
  }

  lemma FlagThenAge(flag: string, age: Duration)
    requires Trimmed(flag) && '=' !in flag && ',' !in flag && Lower(flag) == flag
    ensures FlagAndAge(Directives(flag + [','] + (" " + AgeText(age.secs)), ','), flag, Some(age))
  {
    var second := " " + AgeText(age.secs);
    AgeShape(age.secs);
    FirstDirective(flag, ',', second);
    LastDirective(second, ',');
    PlainFlag(flag);
    AgeRead(" ", age.secs);
  }

  lemma NoStoreRead()
    ensures Directives("no-store", ',') == [("no-store", "")]
  {
    var flag := "no-store";
    FlagNames();
    LastDirective(flag, ',');
    PlainFlag(flag);
  }

  lemma FlagNames()
    ensures Trimmed("no-store") && '=' !in "no-store" && ',' !in "no-store" && Lower("no-store") == "no-store"
    ensures Trimmed("private") && '=' !in "private" && ',' !in "private" && Lower("private") == "private"
    ensures Trimmed("public") && '=' !in "public" && ',' !in "public" && Lower("public") == "public"
  {
  }

  lemma PrivateText(digits: string)
    ensures "private, max-age=" + digits == "private" + [','] + (" " + ("max-age=" + digits))
  {
  }

  lemma PublicText(digits: string)
    ensures "public, max-age=" + digits == "public" + [','] + (" " + ("max-age=" + digits))
  {
  }

  /** Whoever reads Cache-Control reads the declared visibility and whole seconds. */
  lemma CacheReadBack(p: CachePolicy)
    requires CacheText(p).Some?
    ensures CacheReads(CacheText(p).value, p)
  {
    FlagNames();
    match p.visibility {
      case NoStore =>
        NoStoreRead();
      case Private =>
        FlagThenAge("private", p.maxAge.value);
        PrivateText(Decimal(p.maxAge.value.secs));
      case Public =>
        FlagThenAge("public", p.maxAge.value);
        PublicText(Decimal(p.maxAge.value.secs));
    }
  }

  // --------------------------------------------------------- Strict-Transport-Security

  const SUB_READ := ("includesubdomains", "")
  const PRELOAD_READ := ("preload", "")

  predicate HstsReads(text: string, h: Hsts) {
    var ds := Directives(text, ';');
    && ds != [] && Age(ds[0], h.maxAge.secs)
    && ds[1..] == (if h.includeSubdomains then [SUB_READ] else []) + (if h.preload then [PRELOAD_READ] else [])
  }

  lemma SubName()
    ensures Trimmed("includeSubDomains") && '=' !in "includeSubDomains"
    ensures Lower("includeSubDomains") == "includesubdomains"
  {
  }

  lemma PreloadName()
    ensures Trimmed("preload") && '=' !in "preload" && Lower("preload") == "preload"
  {
  }

  lemma PaddedNames()
    ensures " " + "includeSubDomains" == " includeSubDomains" && ';' !in " includeSubDomains"
    ensures " " + "preload" == " preload" && ';' !in " preload"
  {
  }

  lemma SubRead()
    ensures Directive(" includeSubDomains") == SUB_READ
  {
    SubName();
    PaddedNames();
    FlagRead(" ", "includeSubDomains", "includesubdomains");
  }

  lemma PreloadRead()
    ensures Directive(" preload") == PRELOAD_READ
  {
    PreloadName();
    PaddedNames();
    FlagRead(" ", "preload", "preload");
  }

  /** A part, and after it the preload flag if it is set. */
  lemma MaybePreload(part: string, preload: bool, tail: string)
    requires ';' !in part && tail == if preload then [';'] + " preload" else ""
    ensures Directives(part + tail, ';') == [Directive(part)] + (if preload then [PRELOAD_READ] else [])
  {
    if preload {
      var last := " preload";
      FirstDirective(part, ';', last);
      PaddedNames();
      LastDirective(last, ';');
      PreloadRead();
      Associative(part, [';'], last);
    } else {
      LastDirective(part, ';');
      assert part + "" == part && [Directive(part)] + [] == [Directive(part)];
    }
  }

  /** Whoever reads Strict-Transport-Security reads the declared seconds and flags. */
  lemma HstsReadBack(h: Hsts)
    ensures HstsReads(HstsText(h), h)
  {
    var age := AgeText(h.maxAge.secs);
    var preload := if h.preload then "; preload" else "";
    AgeShape(h.maxAge.secs);
    AgeRead("", h.maxAge.secs);
    PaddedNames();
    FlagTexts();
    assert "" + age == age;
    if h.includeSubdomains {
      MaybePreload(" includeSubDomains", h.preload, preload);
      FirstDirective(age, ';', " includeSubDomains" + preload);
      SubRead();
      SubText(age, preload);
    } else {
      MaybePreload(age, h.preload, preload);
      assert age + "" == age;
    }
  }

  lemma FlagTexts()
    ensures "; preload" == [';'] + " preload" && "; includeSubDomains" == [';'] + " includeSubDomains"
  {
  }

  lemma SubText(age: string, preload: string)
    ensures age + "; includeSubDomains" + preload == age + [';'] + (" includeSubDomains" + preload)
  {
    FlagTexts();
    Associative(age, [';'], " includeSubDomains");
    Associative(age + [';'], " includeSubDomains", preload);
  }

  // ------------------------------------------------------------------ all the headers

  /** The header has this one value if one is declared, and what it had if none is. */
  predicate Sends(values: seq<string>, declared: Option<string>, before: seq<string>) {
    values == if declared.Some? then [declared.value] else before
  }

  /** What the recipient of a reply to which policies were applied finds in it. */
  ghost predicate SecuritySeen(p: SecurityPolicy, before: Headers, after: Headers) {
    && Sends(Values(after, "x-content-type-options"), if p.noSniff then Some("nosniff") else None,
             Values(before, "x-content-type-options"))
    && Sends(Values(after, "x-frame-options"),
             match p.frameOptions
             case None => None
             case Some(Deny) => Some("DENY")
             case Some(SameOrigin) => Some("SAMEORIGIN"),
             Values(before, "x-frame-options"))
    && Sends(Values(after, "referrer-policy"),
             match p.referrer
             case None => None
             case Some(NoReferrer) => Some("no-referrer")
             case Some(StrictOriginWhenCrossOrigin) => Some("strict-origin-when-cross-origin"),
             Values(before, "referrer-policy"))
    && Sends(Values(after, "content-security-policy"), p.contentSecurity, Values(before, "content-security-policy"))
    && (if p.hsts.Some?
        then exists text :: Values(after, "strict-transport-security") == [text] && HstsReads(text, p.hsts.value)
        else Values(after, "strict-transport-security") == Values(before, "strict-transport-security"))
  }

  ghost predicate CacheSeen(p: CachePolicy, after: Headers) {
    exists text :: Values(after, "cache-control") == [text] && CacheReads(text, p)
  }

  lemma HeaderSent(e: Endpoint, before: Headers, n: string)
    ensures Values(PolicyApplied(e, before), n) == CoveredValues(e, before, n)
  {
    PoliciesCover(e, before);
  }

  lemma DeclaredNames(p: SecurityPolicy)
    ensures DeclaredSecurity(p, "x-content-type-options") == SniffValue(p)
    ensures DeclaredSecurity(p, "x-frame-options") == FrameValue(p)
    ensures DeclaredSecurity(p, "referrer-policy") == ReferrerValue(p)
    ensures DeclaredSecurity(p, "content-security-policy") == p.contentSecurity
    ensures DeclaredSecurity(p, "strict-transport-security") == HstsValue(p)
  {
    NamesDistinct();
  }

  /** A name of the security policies is not touched by the cache policy. */
  lemma SecuritySent(e: Endpoint, before: Headers, n: string)
    requires e.security.Some? && n != CACHE_CONTROL && n != VARY
    ensures Sends(Values(PolicyApplied(e, before), n), DeclaredSecurity(e.security.value, n), Values(before, n))
  {
    HeaderSent(e, before, n);
  }

  lemma SecurityRead(e: Endpoint, before: Headers)
    requires e.security.Some?
    ensures SecuritySeen(e.security.value, before, PolicyApplied(e, before))
  {
    var p := e.security.value;
    NamesDistinct();
    assert |CACHE_CONTROL| == 13 && |VARY| == 4;
    DeclaredNames(p);
    SecuritySent(e, before, NO_SNIFF);
    SecuritySent(e, before, FRAME);
    SecuritySent(e, before, REFERRER);
    SecuritySent(e, before, CSP);
    SecuritySent(e, before, HSTS);
    if p.hsts.Some? {
      HstsReadBack(p.hsts.value);
    }
  }

  /**
   When policies apply, the recipient of any reply reads from its headers what
   the endpoint declares; status and body are those of the reply.
   */
  lemma DeclarationRead(lib: Library, e: Endpoint, base: Reply)
    requires PoliciesApply(lib, e, base.headers)
    ensures var r := WithPolicies(lib, e, base);
            && r.status == base.status && r.body == base.body
            && (e.security.Some? ==> SecuritySeen(e.security.value, base.headers, r.headers))
            && (e.cache.Some? ==> CacheSeen(e.cache.value, r.headers))
  {
    PolicyFaultWhen(lib, e, base.headers);
    if e.security.Some? {
      SecurityRead(e, base.headers);
      PlainNames(e.security.value);
    }
    if e.cache.Some? {
      HeaderSent(e, base.headers, CACHE_CONTROL);
      CacheReadBack(e.cache.value);
    }
  }
}
