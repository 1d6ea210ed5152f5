/**
 Request cookies (`parse_cookies`, src/router.rs) against the cookie-string
 grammar of sections 4.1.1 and 4.2.1 of RFC 6265, with blanks tolerated around
 names and values.
 */
module Cookies {
  import opened Text
  import opened Http
  import opened SetCookie

  type Jar = map<string, string>

  // -------------------------------------------------------------- one segment

  /** The value without its quotes; a lone or one-sided quote is refused. */
  function CookieValue(value: string): Option<string> {
    if value != "" && (value[0] == '"' || value[|value| - 1] == '"') then
      if |value| >= 2 && value[0] == '"' && value[|value| - 1] == '"' && CookieOctets(value[1..|value| - 1])
      then Some(value[1..|value| - 1]) else None
    else if CookieOctets(value) then Some(value)
    else None
  }

  /** The pair of one trimmed, non-blank segment, when it is well formed. */
  function ReadPair(segment: string): Option<(string, string)> {
    match SplitOnce(segment, '=')
    case None => None
    case Some(nv) =>
      var (name, value) := (Trim(nv.0), CookieValue(Trim(nv.1)));
      if value.Some? && Token(name) then Some((name, value.value)) else None
  }

  const QUOTE := "\""

  /** The grammar: token, '=', optionally quoted cookie octets, with blanks anywhere between. */
  ghost predicate PairText(segment: string, name: string, value: string) {
    exists a: string, b: string, c: string, d: string, written: string ::
      WrittenAs(segment, a, b, c, d, name, written, value)
  }

  ghost predicate WrittenAs(
    segment: string, a: string, b: string, c: string, d: string, name: string, written: string, value: string)
  {
    && AllBlank(a) && AllBlank(b) && AllBlank(c) && AllBlank(d)
    && Token(name) && CookieOctets(value)
    && (written == value || written == QUOTE + value + QUOTE)
    && segment == a + name + b + "=" + (c + written + d)
  }

  lemma CookieValueOf(written: string, value: string)
    requires CookieOctets(value) && (written == value || written == QUOTE + value + QUOTE)
    ensures CookieValue(written) == Some(value) && Trimmed(written)
  {
    if written != value {
      assert written[1..|written| - 1] == value;
    }
  }

  lemma CookieValueFrom(written: string)
    requires CookieValue(written).Some?
    ensures var value := CookieValue(written).value;
            CookieOctets(value) && (written == value || written == QUOTE + value + QUOTE)
  {
    var value := CookieValue(written).value;
    if written != value {
      assert written == [written[0]] + written[1..|written| - 1] + [written[|written| - 1]];
    }
  }

  lemma TokenNoEquals(name: string, a: string, b: string)
    requires Token(name) && AllBlank(a) && AllBlank(b)
    ensures '=' !in a + name + b && Trimmed(name)
  {
  }

  /** Reading a segment succeeds exactly on the grammar, with the pair it spells. */
  lemma ReadPairExact(segment: string, name: string, value: string)
    ensures ReadPair(segment) == Some((name, value)) <==> PairText(segment, name, value)
  {
    if PairText(segment, name, value) {
      var a: string, b: string, c: string, d: string, written: string :|
        WrittenAs(segment, a, b, c, d, name, written, value);
      TokenNoEquals(name, a, b);
      assert segment == (a + name + b) + ['='] + (c + written + d);
      SplitOnceUnique(a + name + b, '=', c + written + d);
      CookieValueOf(written, value);
      TrimOf(a, name, b);
      TrimOf(c, written, d);
    }
    if ReadPair(segment) == Some((name, value)) {
      SplitOnceParts(segment, '=');
      var (before, after) := SplitOnce(segment, '=').value;
      var a, b := TrimMargins(before);
      var c, d := TrimMargins(after);
      CookieValueFrom(Trim(after));
      assert WrittenAs(segment, a, b, c, d, name, Trim(after), value);
    }
  }

  // ----------------------------------------------------------- many segments

  datatype Read = Bad | Good(pairs: seq<(string, string)>)

  function Both(a: Read, b: Read): Read {
    if a.Good? && b.Good? then Good(a.pairs + b.pairs) else Bad
  }

  function ReadSegment(part: string): Read {
    if Trim(part) == "" then Good([])
    else match ReadPair(Trim(part))
         case None => Bad
         case Some(p) => Good([p])
  }

  function ReadParts(parts: seq<string>): Read {
    if parts == [] then Good([]) else Both(ReadSegment(parts[0]), ReadParts(parts[1..]))
  }

  function ReadHeader(header: string): Read {
    if Visible(header) then ReadParts(Split(header, ';')) else Bad
  }

  function ReadHeaders(headers: seq<string>): Read {
    if headers == [] then Good([]) else Both(ReadHeader(headers[0]), ReadHeaders(headers[1..]))
  }

  predicate DistinctNames(pairs: seq<(string, string)>) {
    forall i, j :: 0 <= i < j < |pairs| ==> pairs[i].0 != pairs[j].0
  }

  function AsMap(pairs: seq<(string, string)>): Jar {
    if pairs == [] then map[]
    else AsMap(pairs[..|pairs| - 1])[pairs[|pairs| - 1].0 := pairs[|pairs| - 1].1]
  }

  lemma {:induction false} AsMapHas(pairs: seq<(string, string)>)
    ensures forall n :: n in AsMap(pairs) <==> exists i :: 0 <= i < |pairs| && pairs[i].0 == n
    ensures DistinctNames(pairs) ==> forall i :: 0 <= i < |pairs| ==> AsMap(pairs)[pairs[i].0] == pairs[i].1
  {
    if pairs != [] {
      var front := pairs[..|pairs| - 1];
      AsMapHas(front);
      forall n
        ensures n in AsMap(pairs) <==> exists i :: 0 <= i < |pairs| && pairs[i].0 == n
      {
        if i :| 0 <= i < |front| && front[i].0 == n {
          assert pairs[i].0 == n;
        }
        if n == pairs[|pairs| - 1].0 {
          assert pairs[|pairs| - 1].0 == n;
        }
      }
      if DistinctNames(pairs) {
        forall i | 0 <= i < |pairs|
          ensures AsMap(pairs)[pairs[i].0] == pairs[i].1
        {
          if i < |front| {
            assert front[i] == pairs[i];
          }
        }
      }
    }
  }

  /** What a set of headers means: one map of all pairs, or a refusal. */
  function Jarred(headers: seq<string>): Option<Jar> {
    match ReadHeaders(headers)
    case Bad => None
    case Good(pairs) => if DistinctNames(pairs) then Some(AsMap(pairs)) else None
  }

  // ---------------------------------------------------------------- the algorithm

  lemma BothAssociative(a: Read, b: Read, c: Read)
    ensures Both(a, Both(b, c)) == Both(Both(a, b), c)
    ensures Both(Good([]), a) == a && Both(a, Good([])) == a
  {
    if a.Good? && b.Good? && c.Good? {
      Associative(a.pairs, b.pairs, c.pairs);
    }
    if a.Good? {
      assert [] + a.pairs == a.pairs && a.pairs + [] == a.pairs;
    }
  }

  /** A repeated name stays repeated whatever follows. */
  lemma RepeatStays(pairs: seq<(string, string)>, p: (string, string), rest: Read)
    requires p.0 in AsMap(pairs)
    ensures var all := Both(Good(pairs + [p]), rest);
            all.Bad? || !DistinctNames(all.pairs)
  {
    AsMapHas(pairs);
    var i :| 0 <= i < |pairs| && pairs[i].0 == p.0;
    if rest.Good? {
      var all := pairs + [p] + rest.pairs;
      assert all[i].0 == all[|pairs|].0;
    }
  }

  lemma AddPair(pairs: seq<(string, string)>, p: (string, string))
    requires DistinctNames(pairs) && p.0 !in AsMap(pairs)
    ensures DistinctNames(pairs + [p]) && AsMap(pairs + [p]) == AsMap(pairs)[p.0 := p.1]
  {
    AsMapHas(pairs);
    assert (pairs + [p])[..|pairs + [p]| - 1] == pairs;
  }

  /** Whether a reading gives a jar. */
  function Accepted(r: Read): Option<Jar> {
    if r.Good? && DistinctNames(r.pairs) then Some(AsMap(r.pairs)) else None
  }

  /** Moving one segment from the parts to come to the pairs so far. */
  lemma PartsStep(parts: seq<string>, i: nat, pairs: seq<(string, string)>, later: Read)
    requires i < |parts|
    ensures var (segment, rest) := (ReadSegment(parts[i]), ReadParts(parts[i + 1..]));
            Both(Good(pairs), Both(ReadParts(parts[i..]), later)) == Both(Both(Good(pairs), segment), Both(rest, later))
  {
    var (segment, rest) := (ReadSegment(parts[i]), ReadParts(parts[i + 1..]));
    assert parts[i..][0] == parts[i] && parts[i..][1..] == parts[i + 1..];
    BothAssociative(segment, rest, later);
    BothAssociative(Good(pairs), segment, Both(rest, later));
  }

  /** One segment added to the cookies so far; `rest` is all that follows it. */
  method AddSegment(part: string, cookies: Jar, ghost pairs: seq<(string, string)>, ghost rest: Read)
    returns (r: Option<Jar>, ghost more: seq<(string, string)>)
    requires DistinctNames(pairs) && cookies == AsMap(pairs)
    ensures r.Some? ==> DistinctNames(more) && r.value == AsMap(more)
                        && Both(Good(pairs), ReadSegment(part)) == Good(more)
    ensures r.None? ==> Accepted(Both(Both(Good(pairs), ReadSegment(part)), rest)).None?
  {
    more := pairs;
    var segment := Trim(part);
    if segment == "" {
      assert pairs + [] == pairs;
      return Some(cookies), more;
    }
    var pair := ReadPair(segment);
    if pair.None? {
      return None, more;
    }
    if pair.value.0 in cookies {
      RepeatStays(pairs, pair.value, rest);
      return None, more;
    }
    AddPair(pairs, pair.value);
    more := pairs + [pair.value];
    return Some(cookies[pair.value.0 := pair.value.1]), more;
  }

  /** The inner loop: the segments of one header added to the cookies so far; `later` is all that follows. */
  method ParseHeader(header: string, cookies: Jar, ghost soFar: seq<(string, string)>, ghost later: Read)
    returns (r: Option<Jar>, ghost pairs: seq<(string, string)>)
    requires DistinctNames(soFar) && cookies == AsMap(soFar)
    ensures r.Some? ==> DistinctNames(pairs) && r.value == AsMap(pairs)
                        && Both(Good(soFar), Both(ReadHeader(header), later)) == Both(Good(pairs), later)
    ensures r.None? ==> Accepted(Both(Good(soFar), Both(ReadHeader(header), later))).None?
  {
    pairs := soFar;
    if !Visible(header) {
      return None, pairs;
    }
    var parts := Split(header, ';');
    var jar := cookies;
    var i := 0;
    assert parts[0..] == parts;
    while i < |parts|
      invariant i <= |parts|
      invariant DistinctNames(pairs) && jar == AsMap(pairs)
      invariant Both(Good(soFar), Both(ReadParts(parts), later))
             == Both(Good(pairs), Both(ReadParts(parts[i..]), later))
    {
      PartsStep(parts, i, pairs, later);
      var added, more := AddSegment(parts[i], jar, pairs, Both(ReadParts(parts[i + 1..]), later));
      if added.None? {
        return None, pairs;
      }
      jar := added.value;
      pairs := more;
      i := i + 1;
    }
    BothAssociative(later, later, later);
    return Some(jar), pairs;
  }

  /** One error stands for the four messages a refused Cookie header can get. */
  const BAD_COOKIES := BadRequest("malformed Cookie header")

  /** `parse_cookies`: all Cookie headers into one map, or a bad-request error. */
  method ParseCookies(headers: seq<string>) returns (r: Result<Jar>)
    ensures Jarred(headers) == (if r.Ok? then Some(r.value) else None)
    ensures r.Err? ==> r.error == BAD_COOKIES
  {
    var cookies: Jar := map[];
    ghost var pairs: seq<(string, string)> := [];
    var i := 0;
    assert headers[0..] == headers;
    BothAssociative(ReadHeaders(headers), Good([]), Good([]));
    while i < |headers|
      invariant i <= |headers|
      invariant DistinctNames(pairs) && cookies == AsMap(pairs)
      invariant ReadHeaders(headers) == Both(Good(pairs), ReadHeaders(headers[i..]))
    {
      assert headers[i..][0] == headers[i] && headers[i..][1..] == headers[i + 1..];
      var parsed, more := ParseHeader(headers[i], cookies, pairs, ReadHeaders(headers[i + 1..]));
      if parsed.None? {
        return Err(BAD_COOKIES);
      }
      cookies := parsed.value;
      pairs := more;
      i := i + 1;
    }
    assert pairs + [] == pairs;
    return Ok(cookies);
  }

  // -------------------------------------------------------------- what is accepted

  /** A segment the grammar allows: blank, or a pair. */
  ghost predicate SegmentOk(part: string) {
    Trim(part) == "" || exists n, v :: PairText(Trim(part), n, v)
  }

  ghost predicate HeaderOk(header: string) {
    Visible(header) && forall part :: part in Split(header, ';') ==> SegmentOk(part)
  }

  /** The pair stands in some segment of some header. */
  ghost predicate Spelled(headers: seq<string>, n: string, v: string) {
    exists h, part :: h in headers && part in Split(h, ';') && Trim(part) != "" && PairText(Trim(part), n, v)
  }

  lemma SegmentExact(part: string)
    ensures ReadSegment(part).Good? <==> SegmentOk(part)
    ensures ReadSegment(part).Good? ==> forall n, v ::
              (n, v) in ReadSegment(part).pairs <==> Trim(part) != "" && PairText(Trim(part), n, v)
  {
    forall n, v
      ensures ReadPair(Trim(part)) == Some((n, v)) <==> PairText(Trim(part), n, v)
    {
      ReadPairExact(Trim(part), n, v);
    }
    var pair := ReadPair(Trim(part));
    if pair.Some? {
      assert PairText(Trim(part), pair.value.0, pair.value.1);
    }
  }

  lemma {:induction false} PartsExact(parts: seq<string>)
    ensures ReadParts(parts).Good? <==> forall part :: part in parts ==> SegmentOk(part)
    ensures ReadParts(parts).Good? ==> forall n, v ::
              (n, v) in ReadParts(parts).pairs
              <==> exists part :: part in parts && Trim(part) != "" && PairText(Trim(part), n, v)
  {
    if parts != [] {
      SegmentExact(parts[0]);
      PartsExact(parts[1..]);
      assert forall part :: part in parts <==> part == parts[0] || part in parts[1..];
    }
  }

  lemma {:induction false} HeadersExact(headers: seq<string>)
    ensures ReadHeaders(headers).Good? <==> forall h :: h in headers ==> HeaderOk(h)
    ensures ReadHeaders(headers).Good? ==> forall n, v ::
              (n, v) in ReadHeaders(headers).pairs <==> Spelled(headers, n, v)
  {
    if headers != [] {
      PartsExact(Split(headers[0], ';'));
      HeadersExact(headers[1..]);
      assert forall h :: h in headers <==> h == headers[0] || h in headers[1..];
      if ReadHeaders(headers).Good? {
        forall n, v
          ensures (n, v) in ReadHeaders(headers).pairs <==> Spelled(headers, n, v)
        {
          SpelledStep(headers, n, v);
        }
      }
    }
  }

  lemma SpelledStep(headers: seq<string>, n: string, v: string)
    requires headers != []
    ensures Spelled(headers, n, v)
       <==> Spelled(headers[1..], n, v)
            || exists part :: part in Split(headers[0], ';') && Trim(part) != "" && PairText(Trim(part), n, v)
  {
    assert forall h :: h in headers <==> h == headers[0] || h in headers[1..];
  }

  // ------------------------------------------------------------- repeated names

  /** The segment spells a pair with this name. */
  ghost predicate NamedIn(part: string, n: string) {
    Trim(part) != "" && exists v :: PairText(Trim(part), n, v)
  }

  /** A segment with this name stands at this place of the list. */
  ghost predicate PartNamed(parts: seq<string>, k: int, n: string) { 0 <= k < |parts| && NamedIn(parts[k], n) }

  /** No two places of the list spell one name. */
  ghost predicate PartsApart(parts: seq<string>) {
    forall j, k, n :: PartNamed(parts, j, n) && PartNamed(parts, k, n) ==> j == k
  }

  /** Segment `k` of header `h` spells a pair with this name. */
  ghost predicate NamedAt(headers: seq<string>, h: int, k: int, n: string) {
    0 <= h < |headers| && PartNamed(Split(headers[h], ';'), k, n)
  }

  /** No two segments of all headers spell one name, be it with one value or two. */
  ghost predicate NamesApart(headers: seq<string>) {
    forall h, k, i, j, n :: NamedAt(headers, h, k, n) && NamedAt(headers, i, j, n) ==> h == i && k == j
  }

  /** No segment of the list spells a name that the headers spell. */
  ghost predicate FreshParts(parts: seq<string>, headers: seq<string>) {
    forall h, k, j, n :: PartNamed(parts, k, n) ==> !NamedAt(headers, h, j, n)
  }

  predicate HasName(pairs: seq<(string, string)>, n: string) { exists i :: 0 <= i < |pairs| && pairs[i].0 == n }

  ghost predicate NothingShared(a: seq<(string, string)>, b: seq<(string, string)>) {
    forall n :: HasName(a, n) ==> !HasName(b, n)
  }

  lemma HasNameConcat(a: seq<(string, string)>, b: seq<(string, string)>, n: string)
    ensures HasName(a + b, n) <==> HasName(a, n) || HasName(b, n)
  {
    if i :| 0 <= i < |a| && a[i].0 == n {
      assert (a + b)[i].0 == n;
    }
    if i :| 0 <= i < |b| && b[i].0 == n {
      assert (a + b)[|a| + i].0 == n;
    }
  }

  lemma DistinctConcat(a: seq<(string, string)>, b: seq<(string, string)>)
    ensures DistinctNames(a + b)
       <==> DistinctNames(a) && DistinctNames(b) && NothingShared(a, b)
  {
    var all := a + b;
    assert forall i :: 0 <= i < |a| ==> all[i] == a[i];
    assert forall i :: 0 <= i < |b| ==> all[|a| + i] == b[i];
    if DistinctNames(all) {
      forall n | HasName(a, n)
        ensures !HasName(b, n)
      {
        if j :| 0 <= j < |b| && b[j].0 == n {
          assert false;
        }
      }
    }
    if DistinctNames(a) && DistinctNames(b) && NothingShared(a, b) {
      forall i, j | 0 <= i < j < |all|
        ensures all[i].0 != all[j].0
      {
        if i < |a| <= j {
          assert HasName(a, all[i].0);
          assert b[j - |a|].0 == all[j].0;
          assert HasName(b, all[j].0);
        }
      }
    }
  }

  lemma SegmentName(part: string, n: string)
    requires ReadSegment(part).Good?
    ensures HasName(ReadSegment(part).pairs, n) <==> NamedIn(part, n)
    ensures |ReadSegment(part).pairs| <= 1
  {
    var pairs := ReadSegment(part).pairs;
    if Trim(part) != "" {
      ReadPairExact(Trim(part), pairs[0].0, pairs[0].1);
      if v :| PairText(Trim(part), n, v) {
        ReadPairExact(Trim(part), n, v);
        assert pairs[0].0 == n;
      }
    }
  }

  lemma PartNamedStep(parts: seq<string>, k: int, n: string)
    requires parts != []
    ensures PartNamed(parts, k, n) <==> (k == 0 && NamedIn(parts[0], n)) || PartNamed(parts[1..], k - 1, n)
  {
  }

  /** The names read are those spelled. */
  lemma {:induction false} PartsNames(parts: seq<string>, n: string)
    requires ReadParts(parts).Good?
    ensures HasName(ReadParts(parts).pairs, n) <==> exists k :: PartNamed(parts, k, n)
  {
    if parts != [] {
      PartsNames(parts[1..], n);
      SegmentName(parts[0], n);
      HasNameConcat(ReadSegment(parts[0]).pairs, ReadParts(parts[1..]).pairs, n);
      if NamedIn(parts[0], n) {
        assert PartNamed(parts, 0, n);
      }
      if k :| PartNamed(parts[1..], k, n) {
        PartNamedStep(parts, k + 1, n);
      }
      if k :| PartNamed(parts, k, n) {
        PartNamedStep(parts, k, n);
      }
    }
  }

  lemma PartsApartStep(parts: seq<string>)
    requires parts != []
    ensures PartsApart(parts)
       <==> PartsApart(parts[1..]) && forall k, n :: !(NamedIn(parts[0], n) && PartNamed(parts[1..], k, n))
  {
    var rest := parts[1..];
    if PartsApart(parts) {
      forall j, k, n | PartNamed(rest, j, n) && PartNamed(rest, k, n)
        ensures j == k
      {
        PartNamedStep(parts, j + 1, n);
        PartNamedStep(parts, k + 1, n);
      }
      forall k, n
        ensures !(NamedIn(parts[0], n) && PartNamed(rest, k, n))
      {
        PartNamedStep(parts, 0, n);
        PartNamedStep(parts, k + 1, n);
      }
    }
    if PartsApart(rest) && forall k, n :: !(NamedIn(parts[0], n) && PartNamed(rest, k, n)) {
      forall j, k, n | PartNamed(parts, j, n) && PartNamed(parts, k, n)
        ensures j == k
      {
        PartNamedStep(parts, j, n);
        PartNamedStep(parts, k, n);
      }
    }
  }

  lemma {:induction false} PartsDistinct(parts: seq<string>)
    requires ReadParts(parts).Good?
    ensures DistinctNames(ReadParts(parts).pairs) <==> PartsApart(parts)
  {
    if parts != [] {
      var (first, rest) := (ReadSegment(parts[0]).pairs, ReadParts(parts[1..]).pairs);
      PartsDistinct(parts[1..]);
      DistinctConcat(first, rest);
      PartsApartStep(parts);
      forall n
        ensures HasName(first, n) <==> NamedIn(parts[0], n)
        ensures HasName(rest, n) <==> exists k :: PartNamed(parts[1..], k, n)
      {
        SegmentName(parts[0], n);
        PartsNames(parts[1..], n);
      }
      assert DistinctNames(first) by {
        SegmentName(parts[0], "");
      }
    }
  }

  lemma NamedAtStep(headers: seq<string>, h: int, k: int, n: string)
    requires headers != []
    ensures NamedAt(headers, h, k, n)
       <==> (h == 0 && PartNamed(Split(headers[0], ';'), k, n)) || NamedAt(headers[1..], h - 1, k, n)
  {
  }

  lemma {:induction false} HeadersNames(headers: seq<string>, n: string)
    requires ReadHeaders(headers).Good?
    ensures HasName(ReadHeaders(headers).pairs, n) <==> exists h, k :: NamedAt(headers, h, k, n)
  {
    if headers != [] {
      var parts := Split(headers[0], ';');
      HeadersNames(headers[1..], n);
      PartsNames(parts, n);
      HasNameConcat(ReadHeader(headers[0]).pairs, ReadHeaders(headers[1..]).pairs, n);
      if k :| PartNamed(parts, k, n) {
        NamedAtStep(headers, 0, k, n);
      }
      if h, k :| NamedAt(headers[1..], h, k, n) {
        NamedAtStep(headers, h + 1, k, n);
      }
      if h, k :| NamedAt(headers, h, k, n) {
        NamedAtStep(headers, h, k, n);
      }
    }
  }

  lemma NamesApartStep(headers: seq<string>)
    requires headers != []
    ensures var (parts, rest) := (Split(headers[0], ';'), headers[1..]);
            NamesApart(headers) <==> PartsApart(parts) && NamesApart(rest) && FreshParts(parts, rest)
  {
    var (parts, rest) := (Split(headers[0], ';'), headers[1..]);
    if NamesApart(headers) {
      forall j, k, n | PartNamed(parts, j, n) && PartNamed(parts, k, n)
        ensures j == k
      {
        NamedAtStep(headers, 0, j, n);
        NamedAtStep(headers, 0, k, n);
      }
      forall h, k, i, j, n | NamedAt(rest, h, k, n) && NamedAt(rest, i, j, n)
        ensures h == i && k == j
      {
        NamedAtStep(headers, h + 1, k, n);
        NamedAtStep(headers, i + 1, j, n);
      }
      forall h, k, j, n | PartNamed(parts, k, n)
        ensures !NamedAt(rest, h, j, n)
      {
        NamedAtStep(headers, 0, k, n);
        NamedAtStep(headers, h + 1, j, n);
      }
    }
    if PartsApart(parts) && NamesApart(rest) && FreshParts(parts, rest) {
      forall h, k, i, j, n | NamedAt(headers, h, k, n) && NamedAt(headers, i, j, n)
        ensures h == i && k == j
      {
        NamedAtStep(headers, h, k, n);
        NamedAtStep(headers, i, j, n);
      }
    }
  }

  /** The pairs of the first header and of the others share a name exactly when their segments do. */
  lemma SharedNames(headers: seq<string>)
    requires headers != [] && ReadHeaders(headers).Good?
    ensures var (first, rest) := (ReadHeader(headers[0]).pairs, ReadHeaders(headers[1..]).pairs);
            NothingShared(first, rest) <==> FreshParts(Split(headers[0], ';'), headers[1..])
  {
    var (parts, others) := (Split(headers[0], ';'), headers[1..]);
    var (first, rest) := (ReadHeader(headers[0]).pairs, ReadHeaders(others).pairs);
    if NothingShared(first, rest) {
      forall h, k, j, n | PartNamed(parts, k, n)
        ensures !NamedAt(others, h, j, n)
      {
        PartsNames(parts, n);
        HeadersNames(others, n);
      }
    }
    if FreshParts(parts, others) {
      forall n | HasName(first, n)
        ensures !HasName(rest, n)
      {
        PartsNames(parts, n);
        HeadersNames(others, n);
      }
    }
  }

  lemma {:induction false} HeadersDistinct(headers: seq<string>)
    requires ReadHeaders(headers).Good?
    ensures DistinctNames(ReadHeaders(headers).pairs) <==> NamesApart(headers)
  {
    if headers != [] {
      HeadersDistinct(headers[1..]);
      PartsDistinct(Split(headers[0], ';'));
      var (first, rest) := (ReadHeader(headers[0]).pairs, ReadHeaders(headers[1..]).pairs);
      DistinctConcat(first, rest);
      assert ReadHeaders(headers).pairs == first + rest;
      NamesApartStep(headers);
      SharedNames(headers);
    }
  }

  /**
   Parsing succeeds exactly when every header is visible text made of blank
   segments and grammatical pairs, and no two segments of all headers spell one
   name; the map then holds exactly the pairs spelled.
   */
  lemma ParsingExact(headers: seq<string>)
    ensures Jarred(headers).Some? <==> (forall h :: h in headers ==> HeaderOk(h)) && NamesApart(headers)
    ensures Jarred(headers).Some? ==> forall n, v ::
              n in Jarred(headers).value && Jarred(headers).value[n] == v <==> Spelled(headers, n, v)
  {
    HeadersExact(headers);
    if ReadHeaders(headers).Good? {
      HeadersDistinct(headers);
    }
    if Jarred(headers).Some? {
      var pairs := ReadHeaders(headers).pairs;
      forall n, v
        ensures n in AsMap(pairs) && AsMap(pairs)[n] == v <==> (n, v) in pairs
      {
        AsMapFrom(pairs, n, v);
      }
    }
  }

  // -------------------------------------------------------------- header order

  function HeaderBag(header: string): multiset<(string, string)> {
    if ReadHeader(header).Good? then multiset(ReadHeader(header).pairs) else multiset{}
  }

  /** The sum of what each element of a list contributes. */
  function Total<S, T>(bag: S -> multiset<T>, list: seq<S>): multiset<T> {
    if list == [] then multiset{} else bag(list[0]) + Total(bag, list[1..])
  }

  lemma {:induction false} TotalConcat<S, T>(bag: S -> multiset<T>, a: seq<S>, b: seq<S>)
    ensures Total(bag, a + b) == Total(bag, a) + Total(bag, b)
  {
    if a == [] {
      assert a + b == b;
    } else {
      TotalConcat(bag, a[1..], b);
      assert (a + b)[1..] == a[1..] + b;
    }
  }

  lemma {:induction false} TotalPermuted<S, T>(bag: S -> multiset<T>, a: seq<S>, b: seq<S>)
    requires multiset(a) == multiset(b)
    ensures Total(bag, a) == Total(bag, b)
    decreases |a|
  {
    if a == [] {
      assert |multiset(b)| == 0;
    } else {
      assert a[0] in multiset(b);
      var k :| 0 <= k < |b| && b[k] == a[0];
      var (front, back) := (b[..k], b[k + 1..]);
      assert a == [a[0]] + a[1..];
      assert b == front + [b[k]] + back;
      assert multiset(a) == multiset{a[0]} + multiset(a[1..]);
      assert multiset(b) == multiset{b[k]} + multiset(front + back);
      assert multiset(a[1..]) == multiset(a) - multiset{a[0]};
      assert multiset(front + back) == multiset(b) - multiset{b[k]};
      TotalPermuted(bag, a[1..], front + back);
      TotalConcat(bag, front, back);
      TotalConcat(bag, front + [b[k]], back);
      TotalConcat(bag, front, [b[k]]);
      assert [b[k]][1..] == [];
    }
  }

  lemma {:induction false} PairBagOf(headers: seq<string>)
    requires ReadHeaders(headers).Good?
    ensures multiset(ReadHeaders(headers).pairs) == Total(HeaderBag, headers)
  {
    if headers != [] {
      PairBagOf(headers[1..]);
    }
  }

  lemma InBag(p: seq<(string, string)>, q: seq<(string, string)>)
    requires multiset(p) == multiset(q)
    ensures forall x :: x in p <==> x in q
  {
    assert forall x :: x in p <==> x in multiset(p);
    assert forall x :: x in q <==> x in multiset(q);
  }

  lemma DistinctBag(p: seq<(string, string)>, q: seq<(string, string)>, i: nat, j: nat)
    requires multiset(p) == multiset(q) && DistinctNames(p) && i < j < |q|
    ensures q[i].0 != q[j].0
  {
    InBag(p, q);
    assert q[i] in p && q[j] in p;
    var k :| 0 <= k < |p| && p[k] == q[i];
    var l :| 0 <= l < |p| && p[l] == q[j];
    if q[i] == q[j] {
      TwiceInBag(q, i, j);
      OnceInBag(p, k);
    }
  }

  lemma AsMapFrom(p: seq<(string, string)>, n: string, v: string)
    requires DistinctNames(p)
    ensures n in AsMap(p) && AsMap(p)[n] == v <==> (n, v) in p
  {
    AsMapHas(p);
    if (n, v) in p {
      var i :| 0 <= i < |p| && p[i] == (n, v);
      assert p[i].0 == n;
    }
    if n in AsMap(p) {
      var i :| 0 <= i < |p| && p[i].0 == n;
      assert AsMap(p)[p[i].0] == p[i].1;
    }
  }

  /** Distinctness and the resulting map depend only on which pairs there are. */
  lemma SameBag(p: seq<(string, string)>, q: seq<(string, string)>)
    requires multiset(p) == multiset(q) && DistinctNames(p)
    ensures DistinctNames(q) && AsMap(p) == AsMap(q)
  {
    forall i, j | 0 <= i < j < |q|
      ensures q[i].0 != q[j].0
    {
      DistinctBag(p, q, i, j);
    }
    InBag(p, q);
    var (a, b) := (AsMap(p), AsMap(q));
    forall n | n in a
      ensures n in b && a[n] == b[n]
    {
      AsMapFrom(p, n, a[n]);
      AsMapFrom(q, n, a[n]);
    }
    forall n | n in b
      ensures n in a
    {
      AsMapFrom(q, n, b[n]);
      AsMapFrom(p, n, b[n]);
    }
  }

  lemma TwiceInBag<T>(s: seq<T>, i: nat, j: nat)
    requires i < j < |s| && s[i] == s[j]
    ensures multiset(s)[s[i]] >= 2
  {
    assert s == s[..j] + [s[j]] + s[j + 1..];
    assert s[..j][i] == s[i];
  }

  lemma OnceInBag(p: seq<(string, string)>, k: nat)
    requires DistinctNames(p) && k < |p|
    ensures multiset(p)[p[k]] == 1
  {
    assert p == p[..k] + [p[k]] + p[k + 1..];
    assert p[k] !in p[..k];
    assert p[k] !in p[k + 1..];
  }

  lemma {:induction false} GoodWhen(headers: seq<string>)
    ensures ReadHeaders(headers).Good? <==> forall i :: 0 <= i < |headers| ==> ReadHeader(headers[i]).Good?
  {
    if headers != [] {
      var rest := headers[1..];
      GoodWhen(rest);
      assert forall i :: 1 <= i < |headers| ==> headers[i] == rest[i - 1];
      assert forall i :: 0 <= i < |rest| ==> rest[i] == headers[i + 1];
    }
  }

  lemma GoodPermuted(a: seq<string>, b: seq<string>)
    requires multiset(a) == multiset(b) && ReadHeaders(a).Good?
    ensures ReadHeaders(b).Good?
  {
    GoodWhen(a);
    GoodWhen(b);
    forall i | 0 <= i < |b|
      ensures ReadHeader(b[i]).Good?
    {
      assert b[i] in multiset(a);
      var k :| 0 <= k < |a| && a[k] == b[i];
    }
  }

  lemma BagsAgree(a: seq<string>, b: seq<string>)
    requires multiset(a) == multiset(b) && ReadHeaders(a).Good? && ReadHeaders(b).Good?
    ensures multiset(ReadHeaders(a).pairs) == multiset(ReadHeaders(b).pairs)
  {
    PairBagOf(a);
    PairBagOf(b);
    TotalPermuted(HeaderBag, a, b);
  }

  /** Permuting the Cookie headers changes neither success nor result. */
  lemma HeaderOrderIrrelevant(a: seq<string>, b: seq<string>)
    requires multiset(a) == multiset(b)
    ensures Jarred(a) == Jarred(b)
  {
    if ReadHeaders(a).Good? {
      GoodPermuted(a, b);
      BagsAgree(a, b);
      var (p, q) := (ReadHeaders(a).pairs, ReadHeaders(b).pairs);
      if DistinctNames(p) {
        SameBag(p, q);
      } else if DistinctNames(q) {
        SameBag(q, p);
      }
    } else if ReadHeaders(b).Good? {
      GoodPermuted(b, a);
    }
  }

  // ------------------------------------------------------------------ printing

  function Printed(pairs: seq<(string, string)>): (r: seq<string>)
    ensures |r| == |pairs|
    ensures forall i :: 0 <= i < |pairs| ==> r[i] == Pair(pairs[i].0, pairs[i].1)
  {
    seq(|pairs|, i requires 0 <= i < |pairs| => Pair(pairs[i].0, pairs[i].1))
  }

  function PrintCookies(pairs: seq<(string, string)>): string { Join(Printed(pairs), "; ") }

  predicate Printable(p: (string, string)) { Token(p.0) && CookieOctets(p.1) }

  lemma PrintedSegment(p: (string, string), pad: string)
    requires Printable(p) && AllBlank(pad)
    ensures ReadSegment(pad + Pair(p.0, p.1)) == Good([p])
    ensures Visible(Pair(p.0, p.1)) && ';' !in Pair(p.0, p.1)
  {
    var text := Pair(p.0, p.1);
    PairTrimmed(p);
    TrimPadLeft(pad, text);
    TrimFixes(text);
    PairWritten(p);
    ReadPairExact(text, p.0, p.1);
  }

  lemma PairWritten(p: (string, string))
    requires Printable(p)
    ensures PairText(Pair(p.0, p.1), p.0, p.1)
  {
    var text := Pair(p.0, p.1);
    assert text == "" + p.0 + "" + "=" + ("" + p.1 + "");
    assert WrittenAs(text, "", "", "", "", p.0, p.1, p.1);
  }

  lemma PairTrimmed(p: (string, string))
    requires Printable(p)
    ensures var text := Pair(p.0, p.1);
            text != "" && Trimmed(text) && Visible(text) && ';' !in text
  {
    var text := Pair(p.0, p.1);
    PairEnds(p.0, p.1);
    assert TokenChar(text[0]);
    assert p.1 != "" ==> CookieOctet(text[|text| - 1]);
    forall i | 0 <= i < |text|
      ensures VisibleChar(text[i]) && text[i] != ';'
    {
      assert i < |p.0| ==> TokenChar(text[i]);
      assert i > |p.0| ==> CookieOctet(text[i]);
    }
  }

  lemma PairEnds(name: string, value: string)
    requires name != ""
    ensures var text := Pair(name, value);
            && |text| == |name| + 1 + |value|
            && (forall i :: 0 <= i < |name| ==> text[i] == name[i])
            && text[|name|] == '='
            && (forall i :: |name| < i < |text| ==> text[i] == value[i - |name| - 1])
  {
  }

  lemma {:induction false} PrintedParts(pairs: seq<(string, string)>, pad: string)
    requires (forall p :: p in pairs ==> Printable(p)) && AllBlank(pad)
    ensures ReadParts(Padded(Printed(pairs), pad)) == Good(pairs)
  {
    if pairs != [] {
      PrintedSegment(pairs[0], pad);
      PrintedParts(pairs[1..], pad);
      assert Padded(Printed(pairs), pad)[1..] == Padded(Printed(pairs[1..]), pad);
      assert [pairs[0]] + pairs[1..] == pairs;
    }
  }

  lemma {:induction false} PrintVisible(parts: seq<string>)
    requires forall p :: p in parts ==> Visible(p)
    ensures Visible(Join(parts, "; "))
  {
    if |parts| > 1 {
      PrintVisible(parts[1..]);
      assert parts[0] in parts;
    }
  }

  lemma PrintedGood(pairs: seq<(string, string)>)
    requires forall p :: p in pairs ==> Printable(p)
    ensures forall p :: p in Printed(pairs) ==> Visible(p) && ';' !in p
  {
    forall p | p in Printed(pairs)
      ensures Visible(p) && ';' !in p
    {
      var i :| 0 <= i < |pairs| && p == Pair(pairs[i].0, pairs[i].1);
      assert pairs[i] in pairs;
      PrintedSegment(pairs[i], "");
    }
  }

  lemma PrintedRead(pairs: seq<(string, string)>)
    requires forall p :: p in pairs ==> Printable(p)
    ensures ReadParts(Split(PrintCookies(pairs), ';')) == Good(pairs)
  {
    if pairs == [] {
      SplitAbsent("", ';');
      assert ReadParts([""]) == Both(Good([]), ReadParts([""][1..]));
    } else {
      var parts := Printed(pairs);
      PrintedGood(pairs);
      SplitJoin(parts, ';', " ");
      assert [';'] + " " == "; ";
      assert parts[1..] == Printed(pairs[1..]);
      PrintedSegment(pairs[0], "");
      assert "" + parts[0] == parts[0];
      PrintedParts(pairs[1..], " ");
      var rest := Padded(parts[1..], " ");
      assert ([parts[0]] + rest)[1..] == rest;
      assert [pairs[0]] + pairs[1..] == pairs;
    }
  }

  /** Printing any cookies with distinct names and parsing them gives them back. */
  lemma PrintParse(pairs: seq<(string, string)>)
    requires (forall p :: p in pairs ==> Printable(p)) && DistinctNames(pairs)
    ensures Jarred([PrintCookies(pairs)]) == Some(AsMap(pairs))
  {
    var header := PrintCookies(pairs);
    PrintedGood(pairs);
    PrintVisible(Printed(pairs));
    PrintedRead(pairs);
    assert [header][1..] == [];
    assert ReadHeaders([header]) == Both(Good(pairs), Good([]));
    assert pairs + [] == pairs;
  }

  /** The leading pair of a Set-Cookie header is a Cookie header for that cookie. */
  lemma SentBack(c: Cookie)
    requires Valid(c)
    ensures Jarred([Split(Render(c), ';')[0]]) == Some(map[c.name := c.value])
  {
    RenderedParts(c);
    var pairs := [(c.name, c.value)];
    PrintParse(pairs);
    assert Printed(pairs) == [NameValue(c)];
    assert pairs[..0] == [];
    assert AsMap(pairs) == map[c.name := c.value];
  }
}
