/**
 `Set-Cookie` encoding (src/router.rs) against a user agent that reads the
 header with the algorithm of section 5.2 of RFC 6265.
 */
module SetCookie {
  import opened Text
  import opened Http

  // ----------------------------------------------------------------- encoding

  function SameSiteText(s: SameSite): string {
    match s
    case Strict => "Strict"
    case Lax => "Lax"
    case Unrestricted => "None"
  }

  function Pair(key: string, value: string): string { key + "=" + value }

  function PathPart(c: Cookie): seq<string> {
    if c.path.Some? then [Pair("Path", c.path.value)] else []
  }

  function DomainPart(c: Cookie): seq<string> {
    if c.domain.Some? then [Pair("Domain", c.domain.value)] else []
  }

  function MaxAgePart(c: Cookie): seq<string> {
    if c.maxAge.Some? then [Pair("Max-Age", Decimal(c.maxAge.value.secs))] else []
  }

  function SecurePart(c: Cookie): seq<string> { if c.secure then ["Secure"] else [] }

  function HttpOnlyPart(c: Cookie): seq<string> { if c.httpOnly then ["HttpOnly"] else [] }

  function SameSitePart(c: Cookie): seq<string> {
    if c.sameSite.Some? then [Pair("SameSite", SameSiteText(c.sameSite.value))] else []
  }

  function Attributes(c: Cookie): seq<string> {
    PathPart(c) + (DomainPart(c) + (MaxAgePart(c) + (SecurePart(c) + (HttpOnlyPart(c) + SameSitePart(c)))))
  }

  function NameValue(c: Cookie): string { Pair(c.name, c.value) }

  /** The header text: the pair and the attributes present, separated by "; ". */
  function Render(c: Cookie): string { Join([NameValue(c)] + Attributes(c), "; ") }

  function EncodeFault(lib: Library, c: Cookie): Option<SoapError> {
    match lib.cookieFault(c)
    case Some(e) => Some(e)
    case None => if Encodable(Render(c)) then None else Some(SoapError(Validation, Foreign(NoSource)))
  }

  lemma {:induction false} JoinSnoc(parts: seq<string>, last: string, sep: string)
    requires |parts| > 0
    ensures Join(parts + [last], sep) == Join(parts, sep) + sep + last
  {
    if |parts| == 1 {
      assert (parts + [last])[1..] == [last];
    } else {
      JoinSnoc(parts[1..], last, sep);
      assert (parts + [last])[1..] == parts[1..] + [last];
      Associative(parts[0] + sep, Join(parts[1..], sep), sep + last);
      Associative(Join(parts[1..], sep), sep, last);
      Associative(Join(parts, sep), sep, last);
    }
  }

  lemma Flatten6<T>(n: seq<T>, a: seq<T>, b: seq<T>, c: seq<T>, d: seq<T>, e: seq<T>, f: seq<T>)
    ensures n + a + b + c + d + e + f == n + (a + (b + (c + (d + (e + f)))))
  {
  }

  lemma PushPair(parts: seq<string>, opening: string, key: string, value: string)
    requires |parts| > 0 && opening == "; " + key + "="
    ensures Join(parts + [Pair(key, value)], "; ") == Join(parts, "; ") + opening + value
  {
    JoinSnoc(parts, Pair(key, value), "; ");
    var j := Join(parts, "; ");
    Associative(j, "; " + key + "=", value);
    Associative(j, "; ", Pair(key, value));
    Associative("; ", key + "=", value);
    Associative("; ", key, "=");
  }

  lemma PushFlag(parts: seq<string>, opening: string, key: string)
    requires |parts| > 0 && opening == "; " + key
    ensures Join(parts + [key], "; ") == Join(parts, "; ") + opening
  {
    JoinSnoc(parts, key, "; ");
    Associative(Join(parts, "; "), "; ", key);
  }

  lemma PushNothing<T>(parts: seq<T>)
    ensures parts + [] == parts
  {
  }

  /** The text after each of the six attributes, one step of the encoder each. */
  lemma EncodedSteps(c: Cookie, p0: seq<string>, p1: seq<string>, p2: seq<string>, p3: seq<string>)
    requires p0 == [NameValue(c)] && p1 == p0 + PathPart(c) && p2 == p1 + DomainPart(c) && p3 == p2 + MaxAgePart(c)
    ensures Join(p0, "; ") == c.name + "=" + c.value
    ensures Join(p1, "; ") == if c.path.Some? then Join(p0, "; ") + "; Path=" + c.path.value else Join(p0, "; ")
    ensures Join(p2, "; ")
         == if c.domain.Some? then Join(p1, "; ") + "; Domain=" + c.domain.value else Join(p1, "; ")
    ensures Join(p3, "; ")
         == if c.maxAge.Some? then Join(p2, "; ") + "; Max-Age=" + Decimal(c.maxAge.value.secs) else Join(p2, "; ")
  {
    if c.path.Some? {
      PushPair(p0, "; Path=", "Path", c.path.value);
    } else {
      PushNothing(p0);
    }
    if c.domain.Some? {
      PushPair(p1, "; Domain=", "Domain", c.domain.value);
    } else {
      PushNothing(p1);
    }
    if c.maxAge.Some? {
      PushPair(p2, "; Max-Age=", "Max-Age", Decimal(c.maxAge.value.secs));
    } else {
      PushNothing(p2);
    }
  }

  lemma EncodedFlags(c: Cookie, p3: seq<string>, p4: seq<string>, p5: seq<string>, p6: seq<string>)
    requires |p3| > 0 && p4 == p3 + SecurePart(c) && p5 == p4 + HttpOnlyPart(c) && p6 == p5 + SameSitePart(c)
    ensures Join(p4, "; ") == if c.secure then Join(p3, "; ") + "; Secure" else Join(p3, "; ")
    ensures Join(p5, "; ") == if c.httpOnly then Join(p4, "; ") + "; HttpOnly" else Join(p4, "; ")
    ensures Join(p6, "; ")
         == if c.sameSite.Some? then Join(p5, "; ") + "; SameSite=" + SameSiteText(c.sameSite.value)
            else Join(p5, "; ")
  {
    if c.secure {
      PushFlag(p3, "; Secure", "Secure");
    } else {
      PushNothing(p3);
    }
    if c.httpOnly {
      PushFlag(p4, "; HttpOnly", "HttpOnly");
    } else {
      PushNothing(p4);
    }
    if c.sameSite.Some? {
      PushPair(p5, "; SameSite=", "SameSite", SameSiteText(c.sameSite.value));
    } else {
      PushNothing(p5);
    }
  }

  /** Builds the header text by appending one attribute at a time. */
  method EncodeCookie(lib: Library, c: Cookie) returns (r: Result<string>)
    ensures EncodeFault(lib, c) == (if r.Ok? then None else Some(r.error))
    ensures r.Ok? ==> r.value == Render(c) && lib.cookieFault(c).None? && Encodable(r.value)
  {
    var fault := lib.cookieFault(c);
    if fault.Some? {
      return Err(fault.value);
    }
    var encoded := c.name + "=" + c.value;
    ghost var p0 := [NameValue(c)];
    ghost var p1 := p0 + PathPart(c);
    ghost var p2 := p1 + DomainPart(c);
    ghost var p3 := p2 + MaxAgePart(c);
    ghost var p4 := p3 + SecurePart(c);
    ghost var p5 := p4 + HttpOnlyPart(c);
    ghost var p6 := p5 + SameSitePart(c);
    EncodedSteps(c, p0, p1, p2, p3);
    EncodedFlags(c, p3, p4, p5, p6);
    Flatten6(p0, PathPart(c), DomainPart(c), MaxAgePart(c), SecurePart(c), HttpOnlyPart(c), SameSitePart(c));
    if c.path.Some? {
      encoded := encoded + "; Path=" + c.path.value;
    }
    if c.domain.Some? {
      encoded := encoded + "; Domain=" + c.domain.value;
    }
    if c.maxAge.Some? {
      encoded := encoded + "; Max-Age=" + Decimal(c.maxAge.value.secs);
    }
    if c.secure {
      encoded := encoded + "; Secure";
    }
    if c.httpOnly {
      encoded := encoded + "; HttpOnly";
    }
    if c.sameSite.Some? {
      encoded := encoded + "; SameSite=" + SameSiteText(c.sameSite.value);
    }
    if !Encodable(encoded) {
      return Err(SoapError(Validation, Foreign(NoSource)));
    }
    return Ok(encoded);
  }

  // ------------------------------------------------------------------ reading

  /** What a user agent stores; `maxAge` is in whole seconds. */
  datatype Seen = Seen(
    name: string, value: string, path: Option<string>, domain: Option<string>,
    maxAge: Option<int>, secure: bool, httpOnly: bool, sameSite: Option<SameSite>)

  /** Section 5.2.2. */
  function MaxAgeSeen(v: string): Option<int> {
    if v != "" && AllDigits(v) then Some(DecimalValue(v))
    else if v != "" && v[0] == '-' && AllDigits(v[1..]) then Some(0 - DecimalValue(v[1..]))
    else None
  }

  /** Section 5.2.3: an empty domain is ignored, one leading dot is dropped, case is folded. */
  function DomainSeen(v: string): Option<string> {
    if v == "" then None else Some(Lower(if v[0] == '.' then v[1..] else v))
  }

  /** Section 5.2.4: anything but an absolute path leaves the default path. */
  function PathSeen(v: string): Option<string> {
    if v == "" || v[0] != '/' then None else Some(v)
  }

  function SameSiteSeen(v: string): Option<SameSite> {
    if Lower(v) == "strict" then Some(Strict)
    else if Lower(v) == "lax" then Some(Lax)
    else if Lower(v) == "none" then Some(Unrestricted)
    else None
  }

  function Attribute(name: string, value: string, seen: Seen): Seen {
    if name == "path" then seen.(path := PathSeen(value))
    else if name == "domain" then
      (if DomainSeen(value).Some? then seen.(domain := DomainSeen(value)) else seen)
    else if name == "max-age" then
      (if MaxAgeSeen(value).Some? then seen.(maxAge := MaxAgeSeen(value)) else seen)
    else if name == "secure" then seen.(secure := true)
    else if name == "httponly" then seen.(httpOnly := true)
    else if name == "samesite" then seen.(sameSite := SameSiteSeen(value))
    else seen
  }

  function ReadAttribute(part: string, seen: Seen): Seen {
    match SplitOnce(part, '=')
    case Some(nv) => Attribute(Lower(Trim(nv.0)), Trim(nv.1), seen)
    case None => Attribute(Lower(Trim(part)), "", seen)
  }

  function ReadAttributes(parts: seq<string>, seen: Seen): Seen {
    if parts == [] then seen else ReadAttributes(parts[1..], ReadAttribute(parts[0], seen))
  }

  /** Section 5.2: the pair up to the first ';', then one attribute per further part. */
  function ReadSetCookie(text: string): Option<Seen> {
    var parts := Split(text, ';');
    match SplitOnce(parts[0], '=')
    case None => None
    case Some(nv) =>
      if Trim(nv.0) == "" then None
      else Some(ReadAttributes(parts[1..], Seen(Trim(nv.0), Trim(nv.1), None, None, None, false, false, None)))
  }

  // ------------------------------------------------------------- what is kept

  predicate CookieOctet(c: char) {
    c == '!' || '#' <= c <= '+' || '-' <= c <= ':' || '<' <= c <= '[' || ']' <= c <= '~'
  }

  predicate CookieOctets(s: string) { forall i :: 0 <= i < |s| ==> CookieOctet(s[i]) }

  /** Section 4.1.1 of RFC 6265: visible characters but quotes, commas, semicolons and backslashes. */
  lemma CookieOctetExact(c: char)
    ensures CookieOctet(c) <==> '!' <= c <= '~' && c !in "\",;\\"
  {
  }

  /** The promise of `ResponseCookie::validate` that the theorems rely on. */
  predicate Valid(c: Cookie) {
    && Token(c.name) && CookieOctets(c.value)
    && (c.path.Some? ==> ';' !in c.path.value)
    && (c.domain.Some? ==> ';' !in c.domain.value)
  }

  function WholeSeconds(c: Cookie): Cookie {
    if c.maxAge.Some? then c.(maxAge := Some(Duration(c.maxAge.value.secs, 0))) else c
  }

  /** The user agent's view of a cookie sent by `Render`. */
  function Expected(c: Cookie): Seen {
    Seen(c.name, c.value,
         if c.path.Some? then PathSeen(Trim(c.path.value)) else None,
         if c.domain.Some? then DomainSeen(Trim(c.domain.value)) else None,
         if c.maxAge.Some? then Some(c.maxAge.value.secs) else None,
         c.secure, c.httpOnly, c.sameSite)
  }

  /** The fields exactly as the server set them. */
  function Intended(c: Cookie): Seen {
    Seen(c.name, c.value, c.path, c.domain,
         if c.maxAge.Some? then Some(c.maxAge.value.secs) else None,
         c.secure, c.httpOnly, c.sameSite)
  }

  predicate PlainPath(p: string) { p != "" && p[0] == '/' && Trimmed(p) }

  predicate PlainDomain(d: string) { d != "" && d[0] != '.' && Trimmed(d) && Lower(d) == d }

  lemma KeysFolded()
    ensures Lower("Path") == "path" && Lower("Domain") == "domain" && Lower("Max-Age") == "max-age"
    ensures Lower("Secure") == "secure" && Lower("HttpOnly") == "httponly" && Lower("SameSite") == "samesite"
  {
  }

  /** One padded attribute of the form key=value is read under its lower-case key. */
  lemma ReadKeyed(key: string, low: string, value: string, seen: Seen)
    requires '=' !in key && Trimmed(key) && Lower(key) == low
    ensures ReadAttributes(Padded([Pair(key, value)], " "), seen) == Attribute(low, Trim(value), seen)
  {
    var part := " " + Pair(key, value);
    assert part == (" " + key) + ['='] + value;
    SplitOnceUnique(" " + key, '=', value);
    TrimPadLeft(" ", key);
    TrimFixes(key);
    PadOne(Pair(key, value), " ");
    assert [part][1..] == [];
  }

  lemma ReadFlag(key: string, low: string, seen: Seen)
    requires '=' !in key && Trimmed(key) && Lower(key) == low
    ensures ReadAttributes(Padded([key], " "), seen) == Attribute(low, "", seen)
  {
    var part := " " + key;
    SplitOnceParts(part, '=');
    TrimPadLeft(" ", key);
    TrimFixes(key);
    PadOne(key, " ");
    assert [part][1..] == [];
  }

  lemma ReadPath(c: Cookie, seen: Seen)
    requires seen.path.None?
    ensures ReadAttributes(Padded(PathPart(c), " "), seen) == seen.(path := Expected(c).path)
  {
    if c.path.Some? {
      KeysFolded();
      ReadKeyed("Path", "path", c.path.value, seen);
    }
  }

  lemma ReadDomain(c: Cookie, seen: Seen)
    requires seen.domain.None?
    ensures ReadAttributes(Padded(DomainPart(c), " "), seen) == seen.(domain := Expected(c).domain)
  {
    if c.domain.Some? {
      KeysFolded();
      ReadKeyed("Domain", "domain", c.domain.value, seen);
    }
  }

  lemma ReadMaxAge(c: Cookie, seen: Seen)
    requires seen.maxAge.None?
    ensures ReadAttributes(Padded(MaxAgePart(c), " "), seen) == seen.(maxAge := Expected(c).maxAge)
  {
    if c.maxAge.Some? {
      KeysFolded();
      ReadKeyed("Max-Age", "max-age", Decimal(c.maxAge.value.secs), seen);
      TrimFixes(Decimal(c.maxAge.value.secs));
      DecimalRoundTrip(c.maxAge.value.secs);
    }
  }

  lemma ReadSecure(c: Cookie, seen: Seen)
    requires !seen.secure
    ensures ReadAttributes(Padded(SecurePart(c), " "), seen) == seen.(secure := c.secure)
  {
    if c.secure {
      KeysFolded();
      ReadFlag("Secure", "secure", seen);
    }
  }

  lemma ReadHttpOnly(c: Cookie, seen: Seen)
    requires !seen.httpOnly
    ensures ReadAttributes(Padded(HttpOnlyPart(c), " "), seen) == seen.(httpOnly := c.httpOnly)
  {
    if c.httpOnly {
      KeysFolded();
      ReadFlag("HttpOnly", "httponly", seen);
    }
  }

  lemma ReadSameSite(c: Cookie, seen: Seen)
    requires seen.sameSite.None?
    ensures ReadAttributes(Padded(SameSitePart(c), " "), seen) == seen.(sameSite := Expected(c).sameSite)
  {
    if c.sameSite.Some? {
      KeysFolded();
      ReadKeyed("SameSite", "samesite", SameSiteText(c.sameSite.value), seen);
      SameSiteReads(c.sameSite.value);
    }
  }

  lemma SameSiteReads(s: SameSite)
    ensures SameSiteSeen(Trim(SameSiteText(s))) == Some(s)
  {
    TrimFixes(SameSiteText(s));
    assert Lower("Strict") == "strict" && Lower("Lax") == "lax" && Lower("None") == "none";
  }

  lemma {:induction false} ReadConcat(a: seq<string>, b: seq<string>, seen: Seen)
    ensures ReadAttributes(Padded(a + b, " "), seen)
         == ReadAttributes(Padded(b, " "), ReadAttributes(Padded(a, " "), seen))
  {
    if a == [] {
      assert Padded(a + b, " ") == Padded(b, " ");
    } else {
      ReadConcat(a[1..], b, ReadAttribute(" " + a[0], seen));
      assert Padded(a + b, " ")[1..] == Padded(a[1..] + b, " ");
      assert Padded(a, " ")[1..] == Padded(a[1..], " ");
    }
  }

  lemma ReadAll(c: Cookie, seen: Seen)
    requires seen == Seen(c.name, c.value, None, None, None, false, false, None)
    ensures ReadAttributes(Padded(Attributes(c), " "), seen) == Expected(c)
  {
    var e := Expected(c);
    var s1 := seen.(path := e.path);
    var s2 := s1.(domain := e.domain);
    var s3 := s2.(maxAge := e.maxAge);
    var s4 := s3.(secure := c.secure);
    var s5 := s4.(httpOnly := c.httpOnly);
    ReadPath(c, seen);
    ReadDomain(c, s1);
    ReadMaxAge(c, s2);
    ReadSecure(c, s3);
    ReadHttpOnly(c, s4);
    ReadSameSite(c, s5);
    var t5 := HttpOnlyPart(c) + SameSitePart(c);
    var t4 := SecurePart(c) + t5;
    var t3 := MaxAgePart(c) + t4;
    var t2 := DomainPart(c) + t3;
    ReadConcat(PathPart(c), t2, seen);
    ReadConcat(DomainPart(c), t3, s1);
    ReadConcat(MaxAgePart(c), t4, s2);
    ReadConcat(SecurePart(c), t5, s3);
    ReadConcat(HttpOnlyPart(c), SameSitePart(c), s4);
  }

  predicate Clean(parts: seq<string>) { forall p :: p in parts ==> ';' !in p }

  lemma CleanConcat(a: seq<string>, b: seq<string>)
    requires Clean(a) && Clean(b)
    ensures Clean(a + b)
  {
  }

  lemma CleanPair(key: string, value: string)
    requires ';' !in key && ';' !in value
    ensures Clean([Pair(key, value)])
  {
  }

  lemma CleanParts(c: Cookie)
    requires Valid(c)
    ensures Clean(PathPart(c)) && Clean(DomainPart(c)) && Clean(MaxAgePart(c))
    ensures Clean(SameSitePart(c)) && Clean([NameValue(c)])
  {
    if c.path.Some? {
      CleanPair("Path", c.path.value);
    }
    if c.domain.Some? {
      CleanPair("Domain", c.domain.value);
    }
    if c.maxAge.Some? {
      CleanPair("Max-Age", Decimal(c.maxAge.value.secs));
    }
    if c.sameSite.Some? {
      CleanPair("SameSite", SameSiteText(c.sameSite.value));
    }
    CleanPair(c.name, c.value);
  }

  lemma NoSemicolons(c: Cookie)
    requires Valid(c)
    ensures Clean([NameValue(c)] + Attributes(c))
  {
    CleanParts(c);
    CleanConcat(HttpOnlyPart(c), SameSitePart(c));
    CleanConcat(SecurePart(c), HttpOnlyPart(c) + SameSitePart(c));
    var t4 := SecurePart(c) + (HttpOnlyPart(c) + SameSitePart(c));
    CleanConcat(MaxAgePart(c), t4);
    CleanConcat(DomainPart(c), MaxAgePart(c) + t4);
    CleanConcat(PathPart(c), DomainPart(c) + (MaxAgePart(c) + t4));
    CleanConcat([NameValue(c)], Attributes(c));
  }

  lemma RenderedParts(c: Cookie)
    requires Valid(c)
    ensures Split(Render(c), ';') == [NameValue(c)] + Padded(Attributes(c), " ")
  {
    NoSemicolons(c);
    var parts := [NameValue(c)] + Attributes(c);
    SplitJoin(parts, ';', " ");
    assert parts[1..] == Attributes(c);
    assert [';'] + " " == "; ";
  }

  lemma TokenPlain(s: string)
    requires Token(s)
    ensures Trimmed(s) && '=' !in s && ';' !in s
  {
  }

  /** A user agent reads back what `Expected` says, for every valid cookie. */
  lemma ReadBack(c: Cookie)
    requires Valid(c)
    ensures ReadSetCookie(Render(c)) == Some(Expected(c))
  {
    RenderedParts(c);
    TokenPlain(c.name);
    SplitOnceUnique(c.name, '=', c.value);
    assert NameValue(c) == c.name + ['='] + c.value;
    TrimFixes(c.name);
    TrimFixes(c.value);
    var start := Seen(c.name, c.value, None, None, None, false, false, None);
    ReadAll(c, start);
    assert ([NameValue(c)] + Padded(Attributes(c), " "))[1..] == Padded(Attributes(c), " ");
  }

  lemma TrimFixesIff(s: string)
    ensures Trim(s) == s <==> Trimmed(s)
  {
    TrimmedOf(s);
    if Trimmed(s) {
      TrimFixes(s);
    }
  }

  lemma PathKept(p: string)
    ensures PathSeen(Trim(p)) == Some(p) <==> PlainPath(p)
  {
    TrimFixesIff(p);
  }

  lemma DomainKept(d: string)
    ensures DomainSeen(Trim(d)) == Some(d) <==> PlainDomain(d)
  {
    var t := Trim(d);
    var l, r := TrimMargins(d);
    TrimFixesIff(d);
    assert |t| <= |d|;
    if DomainSeen(t) == Some(d) {
      assert |t| == |d|;
    }
  }

  /**
   The user agent keeps every field exactly when the path is absolute and
   unpadded and the domain is unpadded, lower case and has no leading dot;
   only a fraction of a second of Max-Age is ever lost besides.
   */
  lemma ReadBackExactly(c: Cookie)
    requires Valid(c)
    ensures ReadSetCookie(Render(c)) == Some(Intended(c))
       <==> (c.path.Some? ==> PlainPath(c.path.value)) && (c.domain.Some? ==> PlainDomain(c.domain.value))
  {
    ReadBack(c);
    KeptWhenPlain(c);
  }

  lemma KeptWhenPlain(c: Cookie)
    ensures Expected(c) == Intended(c)
       <==> (c.path.Some? ==> PlainPath(c.path.value)) && (c.domain.Some? ==> PlainDomain(c.domain.value))
  {
    if c.path.Some? {
      PathKept(c.path.value);
    }
    if c.domain.Some? {
      DomainKept(c.domain.value);
    }
  }

  /** A valid cookie "n=v" with this path and domain and nothing else. */
  function Placed(path: Option<string>, domain: Option<string>): Cookie {
    Cookie("n", "v", path, domain, None, false, false, None)
  }

  /** Failing cases: a relative or padded path, and a domain that is not lower case, are not kept. */
  lemma PlacesLost()
    ensures forall c :: c in [Placed(Some("a"), None), Placed(Some(" /a"), None), Placed(None, Some("Example.org"))] ==>
              Valid(c) && ReadSetCookie(Render(c)) != Some(Intended(c))
  {
    var domain := "Example.org";
    assert Lower(domain)[0] != domain[0];
    forall c | c in [Placed(Some("a"), None), Placed(Some(" /a"), None), Placed(None, Some(domain))]
      ensures Valid(c) && ReadSetCookie(Render(c)) != Some(Intended(c))
    {
      ReadBackExactly(c);
    }
  }

  // --------------------------------------------------------------- injectivity

  predicate StartsWith(p: string, a: char, b: char) { |p| >= 2 && p[0] == a && p[1] == b }

  predicate Keyed(parts: seq<string>, a: char, b: char) {
    forall i :: 0 <= i < |parts| ==> StartsWith(parts[i], a, b)
  }

  predicate Unkeyed(parts: seq<string>, a: char, b: char) {
    forall i :: 0 <= i < |parts| ==> !StartsWith(parts[i], a, b)
  }

  lemma ConcatEnds<T>(x: seq<T>, u: seq<T>)
    ensures (x + u)[..|x|] == x && (x + u)[|x|..] == u
    ensures x == [] ==> x + u == u
    ensures x != [] ==> (x + u)[0] == x[0]
  {
  }

  /** Two lists that agree, agree on their keyed front part and on the rest. */
  lemma Peel(a: char, b: char, x: seq<string>, u: seq<string>, y: seq<string>, v: seq<string>)
    requires |x| <= 1 && |y| <= 1 && Keyed(x, a, b) && Keyed(y, a, b) && Unkeyed(u, a, b) && Unkeyed(v, a, b)
    requires x + u == y + v
    ensures x == y && u == v
  {
    ConcatEnds(x, u);
    ConcatEnds(y, v);
    assert |x| == |y|;
  }

  /** Each attribute starts with two letters of its own. */
  lemma Heads(c: Cookie)
    ensures Keyed(PathPart(c), 'P', 'a') && Keyed(DomainPart(c), 'D', 'o') && Keyed(MaxAgePart(c), 'M', 'a')
    ensures Keyed(SecurePart(c), 'S', 'e') && Keyed(HttpOnlyPart(c), 'H', 't') && Keyed(SameSitePart(c), 'S', 'a')
  {
  }

  lemma UnkeyedBefore(x: seq<string>, k: char, l: char, u: seq<string>, a: char, b: char)
    requires Keyed(x, k, l) && (k != a || l != b) && Unkeyed(u, a, b)
    ensures Unkeyed(x + u, a, b)
  {
  }

  lemma UnPad(a: seq<string>, b: seq<string>, pad: string)
    requires Padded(a, pad) == Padded(b, pad)
    ensures a == b
  {
    assert |a| == |b|;
    forall i | 0 <= i < |a|
      ensures a[i] == b[i]
    {
      assert Padded(a, pad)[i] == Padded(b, pad)[i];
      assert a[i] == (pad + a[i])[|pad|..];
    }
  }

  lemma DecimalInjective(m: nat, n: nat)
    requires Decimal(m) == Decimal(n)
    ensures m == n
  {
    DecimalRoundTrip(m);
    DecimalRoundTrip(n);
  }

  lemma PairInjective(key: string, a: string, b: string)
    requires [Pair(key, a)] == [Pair(key, b)]
    ensures a == b
  {
    assert [Pair(key, a)][0] == [Pair(key, b)][0];
    assert a == Pair(key, a)[|key| + 1..] && b == Pair(key, b)[|key| + 1..];
  }

  /** No attribute after the named one starts like it. */
  lemma TailsUnkeyed(c: Cookie)
    ensures var a5 := HttpOnlyPart(c) + SameSitePart(c);
            var a4 := SecurePart(c) + a5;
            var a3 := MaxAgePart(c) + a4;
            var a2 := DomainPart(c) + a3;
            Unkeyed(a2, 'P', 'a') && Unkeyed(a3, 'D', 'o') && Unkeyed(a4, 'M', 'a') && Unkeyed(a5, 'S', 'e')
  {
    TailUnkeyed(c, 'P', 'a');
    TailUnkeyed(c, 'D', 'o');
    TailUnkeyed(c, 'M', 'a');
    TailUnkeyed(c, 'S', 'e');
  }

  lemma TailUnkeyed(c: Cookie, a: char, b: char)
    requires (a, b) in [('P', 'a'), ('D', 'o'), ('M', 'a'), ('S', 'e')]
    ensures var a5 := HttpOnlyPart(c) + SameSitePart(c);
            var a4 := SecurePart(c) + a5;
            var a3 := MaxAgePart(c) + a4;
            var a2 := DomainPart(c) + a3;
            && Unkeyed(a5, a, b)
            && (a != 'S' ==> Unkeyed(a4, a, b))
            && (a != 'S' && a != 'M' ==> Unkeyed(a3, a, b))
            && (a == 'P' ==> Unkeyed(a2, a, b))
  {
    var a5 := HttpOnlyPart(c) + SameSitePart(c);
    var a4 := SecurePart(c) + a5;
    var a3 := MaxAgePart(c) + a4;
    Heads(c);
    UnkeyedBefore(HttpOnlyPart(c), 'H', 't', SameSitePart(c), a, b);
    if a != 'S' {
      UnkeyedBefore(SecurePart(c), 'S', 'e', a5, a, b);
      if a != 'M' {
        UnkeyedBefore(MaxAgePart(c), 'M', 'a', a4, a, b);
        if a != 'D' {
          UnkeyedBefore(DomainPart(c), 'D', 'o', a3, a, b);
        }
      }
    }
  }

  lemma PartsInjective(a: Cookie, b: Cookie)
    requires Attributes(a) == Attributes(b)
    ensures PathPart(a) == PathPart(b) && DomainPart(a) == DomainPart(b) && MaxAgePart(a) == MaxAgePart(b)
    ensures SecurePart(a) == SecurePart(b) && HttpOnlyPart(a) == HttpOnlyPart(b) && SameSitePart(a) == SameSitePart(b)
  {
    var a5, b5 := HttpOnlyPart(a) + SameSitePart(a), HttpOnlyPart(b) + SameSitePart(b);
    var a4, b4 := SecurePart(a) + a5, SecurePart(b) + b5;
    var a3, b3 := MaxAgePart(a) + a4, MaxAgePart(b) + b4;
    var a2, b2 := DomainPart(a) + a3, DomainPart(b) + b3;
    Heads(a);
    Heads(b);
    TailsUnkeyed(a);
    TailsUnkeyed(b);
    Peel('P', 'a', PathPart(a), a2, PathPart(b), b2);
    Peel('D', 'o', DomainPart(a), a3, DomainPart(b), b3);
    Peel('M', 'a', MaxAgePart(a), a4, MaxAgePart(b), b4);
    Peel('S', 'e', SecurePart(a), a5, SecurePart(b), b5);
    Peel('H', 't', HttpOnlyPart(a), SameSitePart(a), HttpOnlyPart(b), SameSitePart(b));
  }

  lemma AttributesInjective(a: Cookie, b: Cookie)
    requires Attributes(a) == Attributes(b)
    ensures a.path == b.path && a.domain == b.domain && a.secure == b.secure
    ensures a.httpOnly == b.httpOnly && a.sameSite == b.sameSite
    ensures WholeSeconds(a).maxAge == WholeSeconds(b).maxAge
  {
    PartsInjective(a, b);
    if a.path.Some? {
      PairInjective("Path", a.path.value, b.path.value);
    }
    if a.domain.Some? {
      PairInjective("Domain", a.domain.value, b.domain.value);
    }
    if a.maxAge.Some? {
      PairInjective("Max-Age", Decimal(a.maxAge.value.secs), Decimal(b.maxAge.value.secs));
      DecimalInjective(a.maxAge.value.secs, b.maxAge.value.secs);
    }
    if a.sameSite.Some? {
      PairInjective("SameSite", SameSiteText(a.sameSite.value), SameSiteText(b.sameSite.value));
    }
  }

  /** No two valid cookies that differ by more than a fraction of a second share an encoding. */
  lemma RenderInjective(a: Cookie, b: Cookie)
    requires Valid(a) && Valid(b) && Render(a) == Render(b)
    ensures WholeSeconds(a) == WholeSeconds(b)
  {
    RenderedParts(a);
    RenderedParts(b);
    var pa, pb := Split(Render(a), ';'), Split(Render(b), ';');
    assert pa[0] == NameValue(a) && pb[0] == NameValue(b);
    assert pa[1..] == Padded(Attributes(a), " ") && pb[1..] == Padded(Attributes(b), " ");
    UnPad(Attributes(a), Attributes(b), " ");
    AttributesInjective(a, b);
    TokenPlain(a.name);
    TokenPlain(b.name);
    assert a.name + ['='] + a.value == b.name + ['='] + b.value;
    SplitOnceUnique(a.name, '=', a.value);
    SplitOnceUnique(b.name, '=', b.value);
  }
}
