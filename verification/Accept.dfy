/**
 Accept negotiation for JSON responses (src/request.rs): the quality grammar of
 section 12.4.2 of RFC 9110 and the scan over media ranges, line by line.
 */
module Accept {
  import opened Text
  import opened Http

  predicate AllZeros(s: string) { forall i :: 0 <= i < |s| ==> s[i] == '0' }

  // ------------------------------------------------------------------- quality

  /** None when the text is no quality value; otherwise whether it is positive. */
  function ParseQuality(text: string): Option<bool> {
    var (whole, fraction) :=
      match SplitOnce(text, '.')
      case Some(wf) => wf
      case None => (text, "");
    if |fraction| > 3 || !AllDigits(fraction) then None
    else if whole == "0" then Some(!AllZeros(fraction))
    else if whole == "1" && AllZeros(fraction) then Some(true)
    else None
  }

  /** The grammar: "0" with up to three digits, or "1" with up to three zeros. */
  ghost predicate Qvalue(text: string) {
    || text == "0" || text == "1"
    || exists fraction: string :: QvalueWith(text, fraction)
  }

  predicate QvalueWith(text: string, fraction: string) {
    && |fraction| <= 3 && AllDigits(fraction)
    && (text == "0." + fraction || (text == "1." + fraction && AllZeros(fraction)))
  }

  /** The quality in thousandths, from the text around the point. */
  function Thousandths(whole: string, fraction: string): nat
    requires AllDigits(fraction)
  {
    (if whole == "1" then 1000 else 0) + DecimalValue(fraction) * Scale(|fraction|)
  }

  function Scale(digits: nat): nat {
    if digits == 0 then 1000 else if digits == 1 then 100 else if digits == 2 then 10 else 1
  }

  lemma {:induction false} ZeroValue(s: string)
    requires AllDigits(s)
    ensures DecimalValue(s) == 0 <==> AllZeros(s)
  {
    if s != "" {
      var front := s[..|s| - 1];
      assert Digit(s[|s| - 1]);
      ZeroValue(front);
      assert s == front + [s[|s| - 1]];
    }
  }

  lemma SplitDot(whole: string, fraction: string)
    requires '.' !in whole
    ensures SplitOnce(whole + "." + fraction, '.') == Some((whole, fraction))
  {
    SplitOnceUnique(whole, '.', fraction);
  }

  /** A text is accepted exactly on the grammar. */
  lemma QualityGrammar(text: string)
    ensures ParseQuality(text).Some? <==> Qvalue(text)
  {
    SplitOnceParts(text, '.');
    if SplitOnce(text, '.').Some? && ParseQuality(text).Some? {
      var (whole, fraction) := SplitOnce(text, '.').value;
      assert text == whole + "." + fraction;
      assert QvalueWith(text, fraction);
    }
    if fraction: string :| QvalueWith(text, fraction) {
      PointRead(text, fraction);
    }
  }

  lemma PointRead(text: string, fraction: string)
    requires QvalueWith(text, fraction)
    ensures ParseQuality(text).Some?
  {
    SplitDot("0", fraction);
    SplitDot("1", fraction);
    assert "0" + "." == "0." && "1" + "." == "1.";
  }

  /** An accepted text is read as allowing exactly when its value is positive. */
  lemma QualityPositive(whole: string, fraction: string)
    requires (whole == "0" || whole == "1") && |fraction| <= 3 && AllDigits(fraction)
    requires whole == "1" ==> AllZeros(fraction)
    ensures ParseQuality(whole + "." + fraction) == Some(Thousandths(whole, fraction) > 0)
    ensures ParseQuality(whole) == Some(Thousandths(whole, "") > 0)
  {
    SplitDot(whole, fraction);
    ZeroValue(fraction);
    SplitOnceParts(whole, '.');
  }

  // ---------------------------------------------------------------- media ranges

  predicate IsQuality(name: string) { EqIgnoreCase(Trim(name), "q") }

  /** None: malformed. The last quality parameter decides. */
  function Parameters(segments: seq<string>, allowed: bool): Option<bool> {
    if segments == [] then Some(allowed)
    else
      match SplitOnce(Trim(segments[0]), '=')
      case None => None
      case Some(nv) =>
        if !IsQuality(nv.0) then Parameters(segments[1..], allowed)
        else
          match ParseQuality(Trim(nv.1))
          case None => None
          case Some(positive) => Parameters(segments[1..], positive)
  }

  predicate NamesJson(kind: string, subtype: string) {
    && (kind == "*" || EqIgnoreCase(kind, "application"))
    && (subtype == "*" || EqIgnoreCase(subtype, "json"))
  }

  /** None: malformed; otherwise whether the range allows JSON. */
  function ItemVerdict(item: string): Option<bool> {
    var segments := Split(Trim(item), ';');
    match SplitOnce(Trim(segments[0]), '/')
    case None => None
    case Some(ks) =>
      match Parameters(segments[1..], true)
      case None => None
      case Some(allowed) => Some(allowed && NamesJson(ks.0, ks.1))
  }

  /** The first range that is malformed or allows JSON decides. */
  function ScanItems(items: seq<string>): Option<bool> {
    if items == [] then Some(false)
    else
      match ItemVerdict(items[0])
      case None => None
      case Some(true) => Some(true)
      case Some(false) => ScanItems(items[1..])
  }

  function ScanLine(line: string): Option<bool> {
    if Visible(line) then ScanItems(Split(line, ',')) else None
  }

  function ScanAccept(lines: seq<string>): Option<bool> {
    if lines == [] then Some(false)
    else
      match ScanLine(lines[0])
      case None => None
      case Some(true) => Some(true)
      case Some(false) => ScanAccept(lines[1..])
  }

  // -------------------------------------------------------------- the algorithm

  /** The inner loop over the parameters of one range. */
  method ReadParameters(segments: seq<string>) returns (r: Option<bool>)
    ensures r == Parameters(segments, true)
  {
    var allowed := true;
    var i := 0;
    assert segments[0..] == segments;
    while i < |segments|
      invariant i <= |segments|
      invariant Parameters(segments, true) == Parameters(segments[i..], allowed)
    {
      assert segments[i..][0] == segments[i] && segments[i..][1..] == segments[i + 1..];
      var parameter := SplitOnce(Trim(segments[i]), '=');
      if parameter.None? {
        return None;
      }
      if IsQuality(parameter.value.0) {
        var quality := ParseQuality(Trim(parameter.value.1));
        if quality.None? {
          return None;
        }
        allowed := quality.value;
      }
      i := i + 1;
    }
    return Some(allowed);
  }

  method AcceptValueAllowsJson(value: string) returns (r: Result<bool>)
    ensures ScanItems(Split(value, ',')) == (if r.Ok? then Some(r.value) else None)
    ensures r == Ok(true) <==> SomeAllows(Split(value, ','))
    ensures r.Err? <==> SomeBreaks(Split(value, ','))
    ensures r.Err? ==> r.error.source.Rejection? && r.error.source.status == 400
  {
    var items := Split(value, ',');
    ScanAllows(items);
    ScanBreaks(items);
    var i := 0;
    assert items[0..] == items;
    while i < |items|
      invariant i <= |items|
      invariant ScanItems(items) == ScanItems(items[i..])
    {
      assert items[i..][0] == items[i] && items[i..][1..] == items[i + 1..];
      var segments := Split(Trim(items[i]), ';');
      var range := SplitOnce(Trim(segments[0]), '/');
      if range.None? {
        return Err(BadRequest("Accept header contains an invalid media range"));
      }
      var allowed := ReadParameters(segments[1..]);
      if allowed.None? {
        return Err(BadRequest("Accept header contains an invalid parameter"));
      }
      if allowed.value && NamesJson(range.value.0, range.value.1) {
        return Ok(true);
      }
      i := i + 1;
    }
    return Ok(false);
  }

  const NOT_ACCEPTABLE :=
    SoapError(Validation, Rejection(406, "not_acceptable", "client does not accept an application/json response",
                                    NoSource))

  /** `require_json_acceptable`: no Accept header means anything goes. */
  method RequireJsonAcceptable(lines: seq<string>) returns (r: Option<SoapError>)
    ensures r.None? <==> lines == [] || exists k: nat :: LineAllows(lines, k)
    ensures r.Some? ==> r.value.source.Rejection?
                        && r.value.source.status == if exists k: nat :: LineBreaks(lines, k) then 400 else 406
  {
    AcceptExact(lines);
    if lines == [] {
      return None;
    }
    var i := 0;
    assert lines[0..] == lines;
    while i < |lines|
      invariant i <= |lines|
      invariant ScanAccept(lines) == ScanAccept(lines[i..])
    {
      assert lines[i..][0] == lines[i] && lines[i..][1..] == lines[i + 1..];
      if !Visible(lines[i]) {
        return Some(BadRequest("Accept header is not valid visible text"));
      }
      var allowed := AcceptValueAllowsJson(lines[i]);
      if allowed.Err? {
        return Some(allowed.error);
      }
      if allowed.value {
        return None;
      }
      i := i + 1;
    }
    return Some(NOT_ACCEPTABLE);
  }

  // ---------------------------------------------------------------- what it means

  predicate WellFormedParameter(segment: string) {
    match SplitOnce(Trim(segment), '=')
    case None => false
    case Some(nv) => IsQuality(nv.0) ==> ParseQuality(Trim(nv.1)).Some?
  }

  predicate QualityParameter(segment: string) {
    match SplitOnce(Trim(segment), '=')
    case None => false
    case Some(nv) => IsQuality(nv.0)
  }

  /** The quality of the last quality parameter is positive, or there is none. */
  ghost predicate PositiveOrAbsent(segments: seq<string>, otherwise: bool) {
    if exists i :: LastQuality(segments, i)
    then forall i :: LastQuality(segments, i) ==>
           ParseQuality(Trim(SplitOnce(Trim(segments[i]), '=').value.1)) == Some(true)
    else otherwise
  }

  predicate LastQuality(segments: seq<string>, i: int) {
    && 0 <= i < |segments| && QualityParameter(segments[i])
    && forall j :: i < j < |segments| ==> !QualityParameter(segments[j])
  }

  lemma {:induction false} ParametersExact(segments: seq<string>, allowed: bool)
    ensures Parameters(segments, allowed).Some? <==> forall s :: s in segments ==> WellFormedParameter(s)
    ensures Parameters(segments, allowed).Some? ==>
              (Parameters(segments, allowed).value <==> PositiveOrAbsent(segments, allowed))
  {
    if segments != [] {
      var rest := segments[1..];
      var cut := SplitOnce(Trim(segments[0]), '=');
      assert forall s :: s in segments <==> s == segments[0] || s in rest;
      if WellFormedParameter(segments[0]) {
        var next := if IsQuality(cut.value.0) then ParseQuality(Trim(cut.value.1)).value else allowed;
        ParametersExact(rest, next);
        PositiveStep(segments, allowed, next);
      }
    }
  }

  lemma LastQualityStep(segments: seq<string>, i: int)
    requires segments != [] && 0 < i
    ensures LastQuality(segments, i) <==> LastQuality(segments[1..], i - 1)
  {
    var rest := segments[1..];
    assert forall j :: 0 <= j < |rest| ==> rest[j] == segments[j + 1];
    assert forall j :: 1 <= j < |segments| ==> segments[j] == rest[j - 1];
  }

  lemma PositiveStep(segments: seq<string>, allowed: bool, next: bool)
    requires segments != [] && WellFormedParameter(segments[0])
    requires QualityParameter(segments[0]) ==>
               ParseQuality(Trim(SplitOnce(Trim(segments[0]), '=').value.1)) == Some(next)
    requires !QualityParameter(segments[0]) ==> next == allowed
    ensures PositiveOrAbsent(segments, allowed) <==> PositiveOrAbsent(segments[1..], next)
  {
    var rest := segments[1..];
    forall i | 0 < i
      ensures LastQuality(segments, i) <==> LastQuality(rest, i - 1)
    {
      LastQualityStep(segments, i);
    }
    if i :| LastQuality(rest, i) {
      assert LastQuality(segments, i + 1);
      assert forall k :: LastQuality(segments, k) ==> k == i + 1;
      assert forall k :: LastQuality(rest, k) ==> k == i;
      assert segments[i + 1] == rest[i];
    } else {
      NoQuality(rest);
      assert forall j :: 1 <= j < |segments| ==> segments[j] == rest[j - 1];
      assert LastQuality(segments, 0) <==> QualityParameter(segments[0]);
      assert forall k :: LastQuality(segments, k) ==> k == 0;
    }
  }

  lemma {:induction false} NoQuality(segments: seq<string>)
    requires !exists i :: LastQuality(segments, i)
    ensures forall i :: 0 <= i < |segments| ==> !QualityParameter(segments[i])
  {
    if segments != [] {
      var n := |segments| - 1;
      var front := segments[..n];
      assert !LastQuality(segments, n);
      forall i
        ensures !LastQuality(front, i)
      {
        assert LastQuality(front, i) ==> LastQuality(segments, i);
      }
      NoQuality(front);
      assert forall i :: 0 <= i < n ==> segments[i] == front[i];
    }
  }

  // ------------------------------------------------------------- one range, on its text

  /** A parameter's text around its first '='. */
  predicate ParameterSpells(segment: string, name: string, value: string) {
    Trim(segment) == name + "=" + value && '=' !in name
  }

  /** The segment is a quality parameter with this text. */
  ghost predicate QualityText(segment: string, text: string) {
    exists name, value :: ParameterSpells(segment, name, value) && Trim(name) in ["q", "Q"] && text == Trim(value)
  }

  /** A name, '=' and a value, which is a quality value if the name is `q`. */
  ghost predicate ParameterOk(segment: string) {
    && (exists name, value :: ParameterSpells(segment, name, value))
    && forall text :: QualityText(segment, text) ==> Qvalue(text)
  }

  /** Some digit is not zero: among quality values, the positive ones. */
  predicate NonZero(text: string) { exists i :: 0 <= i < |text| && text[i] in "123456789" }

  /** The last quality parameter is positive, or there is none. */
  ghost predicate LastPositive(segments: seq<string>) {
    forall i, text ::
      0 <= i < |segments| && QualityText(segments[i], text) && NoQualityAfter(segments, i) ==> NonZero(text)
  }

  ghost predicate NoQualityAfter(segments: seq<string>, i: int) {
    forall j, text :: i < j < |segments| && 0 <= j ==> !QualityText(segments[j], text)
  }

  predicate SpellingOf(a: string, b: string) { |a| == |b| && forall i :: 0 <= i < |a| ==> SameLetter(a[i], b[i]) }

  predicate RangeSpells(segment: string, kind: string, subtype: string) {
    Trim(segment) == kind + "/" + subtype && '/' !in kind
  }

  /** A type, '/' and a subtype, and nothing but well-formed parameters. */
  ghost predicate ItemOk(item: string) {
    var segments := Split(Trim(item), ';');
    && (exists kind, subtype :: RangeSpells(segments[0], kind, subtype))
    && forall s :: s in segments[1..] ==> ParameterOk(s)
  }

  /** The range covers `application/json`, spelled in any case, and its quality is positive or absent. */
  ghost predicate ItemAllows(item: string) {
    var segments := Split(Trim(item), ';');
    && (exists kind, subtype ::
          && RangeSpells(segments[0], kind, subtype)
          && (kind == "*" || SpellingOf(kind, "application"))
          && (subtype == "*" || SpellingOf(subtype, "json")))
    && LastPositive(segments[1..])
  }

  lemma QualityNamed(name: string)
    ensures IsQuality(name) <==> Trim(name) in ["q", "Q"]
  {
    var t := Trim(name);
    AlikeExact(t, "q");
    assert |t| == 1 ==> t == [t[0]];
  }

  lemma {:induction false} ZerosOrNot(s: string)
    requires AllDigits(s)
    ensures AllZeros(s) <==> !NonZero(s)
  {
    if s != "" {
      ZerosOrNot(s[1..]);
      assert Digit(s[0]);
      CodesExact(s[0]);
      if i :| 0 <= i < |s[1..]| && s[1..][i] in "123456789" {
        assert s[i + 1] in "123456789";
      }
    }
  }

  lemma NonZeroConcat(a: string, b: string)
    ensures NonZero(a + b) <==> NonZero(a) || NonZero(b)
  {
    if i :| 0 <= i < |a| && a[i] in "123456789" {
      assert (a + b)[i] in "123456789";
    }
    if i :| 0 <= i < |b| && b[i] in "123456789" {
      assert (a + b)[|a| + i] in "123456789";
    }
  }

  /** A text is read as allowing exactly if it is a quality value with a digit that is not zero. */
  lemma QualityNonZero(text: string)
    ensures ParseQuality(text) == Some(true) <==> Qvalue(text) && NonZero(text)
  {
    QualityGrammar(text);
    SplitOnceParts(text, '.');
    var cut := SplitOnce(text, '.');
    if cut.Some? && ParseQuality(text).Some? {
      var (whole, fraction) := cut.value;
      NonZeroConcat(whole + ['.'], fraction);
      NonZeroConcat(whole, ['.']);
      ZerosOrNot(fraction);
      assert whole == "1" ==> whole[0] in "123456789";
    } else if ParseQuality(text).Some? {
      assert text == "1" ==> text[0] in "123456789";
    }
  }

  lemma ParameterCut(segment: string)
    ensures SplitOnce(Trim(segment), '=').Some? <==> exists name, value :: ParameterSpells(segment, name, value)
    ensures forall name, value :: ParameterSpells(segment, name, value)
              <==> SplitOnce(Trim(segment), '=') == Some((name, value))
  {
    SplitOnceParts(Trim(segment), '=');
    forall name, value
      ensures ParameterSpells(segment, name, value) <==> SplitOnce(Trim(segment), '=') == Some((name, value))
    {
      if ParameterSpells(segment, name, value) {
        SplitOnceUnique(name, '=', value);
      }
    }
    if SplitOnce(Trim(segment), '=').Some? {
      var nv := SplitOnce(Trim(segment), '=').value;
      assert ParameterSpells(segment, nv.0, nv.1);
    }
  }

  lemma QualityTextOf(segment: string, text: string)
    ensures QualityText(segment, text)
       <==> QualityParameter(segment) && text == Trim(SplitOnce(Trim(segment), '=').value.1)
  {
    ParameterCut(segment);
    if QualityParameter(segment) {
      var nv := SplitOnce(Trim(segment), '=').value;
      QualityNamed(nv.0);
      assert ParameterSpells(segment, nv.0, nv.1);
    }
    if name, value :| ParameterSpells(segment, name, value) && Trim(name) in ["q", "Q"] && text == Trim(value) {
      QualityNamed(name);
    }
  }

  lemma ParameterExact(segment: string)
    ensures WellFormedParameter(segment) <==> ParameterOk(segment)
  {
    ParameterCut(segment);
    if SplitOnce(Trim(segment), '=').Some? {
      var text := Trim(SplitOnce(Trim(segment), '=').value.1);
      QualityTextOf(segment, text);
      QualityGrammar(text);
      forall t | QualityText(segment, t)
        ensures t == text
      {
        QualityTextOf(segment, t);
      }
    }
  }

  lemma LastPositiveExact(segments: seq<string>)
    requires forall s :: s in segments ==> WellFormedParameter(s)
    ensures PositiveOrAbsent(segments, true) <==> LastPositive(segments)
  {
    forall i: nat, text | i < |segments|
      ensures QualityText(segments[i], text)
         <==> QualityParameter(segments[i]) && text == Trim(SplitOnce(Trim(segments[i]), '=').value.1)
    {
      QualityTextOf(segments[i], text);
    }
    forall i: nat | i < |segments|
      ensures LastQuality(segments, i) <==> QualityParameter(segments[i]) && NoQualityAfter(segments, i)
    {
      LastIsLast(segments, i);
    }
    forall i: nat | i < |segments| && QualityParameter(segments[i])
      ensures var text := Trim(SplitOnce(Trim(segments[i]), '=').value.1);
              ParseQuality(text) == Some(true) <==> NonZero(text)
    {
      var text := Trim(SplitOnce(Trim(segments[i]), '=').value.1);
      assert WellFormedParameter(segments[i]);
      QualityNonZero(text);
      QualityGrammar(text);
    }
  }

  lemma LastIsLast(segments: seq<string>, i: nat)
    requires i < |segments|
    ensures LastQuality(segments, i) <==> QualityParameter(segments[i]) && NoQualityAfter(segments, i)
  {
    forall j, text | i < j < |segments|
      ensures QualityText(segments[j], text)
         <==> QualityParameter(segments[j]) && text == Trim(SplitOnce(Trim(segments[j]), '=').value.1)
    {
      QualityTextOf(segments[j], text);
    }
    forall j | i < j < |segments| && QualityParameter(segments[j])
      ensures !NoQualityAfter(segments, i)
    {
      QualityTextOf(segments[j], Trim(SplitOnce(Trim(segments[j]), '=').value.1));
    }
  }

  lemma RangeCut(segment: string)
    ensures forall kind, subtype :: RangeSpells(segment, kind, subtype)
              <==> SplitOnce(Trim(segment), '/') == Some((kind, subtype))
  {
    SplitOnceParts(Trim(segment), '/');
    forall kind, subtype
      ensures RangeSpells(segment, kind, subtype) <==> SplitOnce(Trim(segment), '/') == Some((kind, subtype))
    {
      if RangeSpells(segment, kind, subtype) {
        SplitOnceUnique(kind, '/', subtype);
      }
    }
  }

  /** One range: well formed, and then allowing, exactly as its text says. */
  lemma ItemExact(item: string)
    ensures ItemVerdict(item).Some? <==> ItemOk(item)
    ensures ItemVerdict(item) == Some(true) <==> ItemOk(item) && ItemAllows(item)
  {
    var segments := Split(Trim(item), ';');
    RangeCut(segments[0]);
    ParametersExact(segments[1..], true);
    forall s | s in segments[1..]
      ensures WellFormedParameter(s) <==> ParameterOk(s)
    {
      ParameterExact(s);
    }
    var cut := SplitOnce(Trim(segments[0]), '/');
    if cut.Some? {
      var (kind, subtype) := cut.value;
      assert RangeSpells(segments[0], kind, subtype);
      AlikeExact(kind, "application");
      AlikeExact(subtype, "json");
      if Parameters(segments[1..], true).Some? {
        LastPositiveExact(segments[1..]);
      }
    }
  }

  // ---------------------------------------------------------------- lists of ranges

  /** Range `k` allows JSON, and it and every range before it are well formed. */
  ghost predicate AllowsAt(items: seq<string>, k: nat) {
    && k < |items| && ItemAllows(items[k])
    && forall j :: 0 <= j <= k ==> ItemOk(items[j])
  }

  /** Range `k` is malformed, and every range before it is well formed and does not allow JSON. */
  ghost predicate BreaksAt(items: seq<string>, k: nat) {
    && k < |items| && !ItemOk(items[k])
    && forall j :: 0 <= j < k ==> ItemOk(items[j]) && !ItemAllows(items[j])
  }

  ghost predicate SomeAllows(items: seq<string>) { exists k: nat :: AllowsAt(items, k) }

  ghost predicate SomeBreaks(items: seq<string>) { exists k: nat :: BreaksAt(items, k) }

  ghost predicate AllOk(items: seq<string>) { forall j :: 0 <= j < |items| ==> ItemOk(items[j]) }

  ghost predicate NoneAllows(items: seq<string>) { forall j :: 0 <= j < |items| ==> !ItemAllows(items[j]) }

  lemma FoundStep(items: seq<string>, k: nat)
    requires 0 < k && items != []
    ensures AllowsAt(items, k) <==> ItemOk(items[0]) && AllowsAt(items[1..], k - 1)
    ensures BreaksAt(items, k) <==> ItemOk(items[0]) && !ItemAllows(items[0]) && BreaksAt(items[1..], k - 1)
  {
    var rest := items[1..];
    assert forall j :: 0 <= j < |rest| ==> rest[j] == items[j + 1];
    assert forall j :: 1 <= j < |items| ==> items[j] == rest[j - 1];
  }

  /** True exactly when some range allows JSON and it and every earlier range are well formed. */
  lemma {:induction false} ScanAllows(items: seq<string>)
    ensures ScanItems(items) == Some(true) <==> SomeAllows(items)
  {
    if items != [] {
      ItemExact(items[0]);
      ScanAllows(items[1..]);
      if k: nat :| AllowsAt(items[1..], k) {
        FoundStep(items, k + 1);
      }
      if k: nat :| AllowsAt(items, k) {
        if k > 0 {
          FoundStep(items, k);
        }
      }
      assert ItemOk(items[0]) && ItemAllows(items[0]) ==> AllowsAt(items, 0);
    }
  }

  /** Refused as malformed exactly when a malformed range comes before any that allows JSON. */
  lemma {:induction false} ScanBreaks(items: seq<string>)
    ensures ScanItems(items).None? <==> SomeBreaks(items)
  {
    if items != [] {
      ItemExact(items[0]);
      ScanBreaks(items[1..]);
      if k: nat :| BreaksAt(items[1..], k) {
        FoundStep(items, k + 1);
      }
      if k: nat :| BreaksAt(items, k) {
        if k > 0 {
          FoundStep(items, k);
        }
      }
      assert !ItemOk(items[0]) ==> BreaksAt(items, 0);
    }
  }

  /** Neither, exactly when all ranges are well formed and none allows JSON. */
  lemma {:induction false} ScanNeither(items: seq<string>)
    ensures ScanItems(items) == Some(false) <==> AllOk(items) && NoneAllows(items)
  {
    if items != [] {
      var rest := items[1..];
      ItemExact(items[0]);
      ScanNeither(rest);
      assert forall j :: 0 <= j < |rest| ==> rest[j] == items[j + 1];
      assert forall j :: 1 <= j < |items| ==> items[j] == rest[j - 1];
    }
  }

  // ------------------------------------------------------------------ lists of lines

  /** A line read to its end without a decision: text, with well-formed ranges none of which allows JSON. */
  ghost predicate PassedBy(line: string) {
    Visible(line) && AllOk(Split(line, ',')) && NoneAllows(Split(line, ','))
  }

  /** Line `k` is text with a range that allows JSON before any malformed one; the lines before it decide nothing. */
  ghost predicate LineAllows(lines: seq<string>, k: nat) {
    && k < |lines| && Visible(lines[k])
    && SomeAllows(Split(lines[k], ','))
    && forall j :: 0 <= j < k ==> PassedBy(lines[j])
  }

  /** Line `k` is not text or has a malformed range before any that allows JSON; the lines before decide nothing. */
  ghost predicate LineBreaks(lines: seq<string>, k: nat) {
    && k < |lines| && (!Visible(lines[k]) || SomeBreaks(Split(lines[k], ',')))
    && forall j :: 0 <= j < k ==> PassedBy(lines[j])
  }

  lemma LineStep(lines: seq<string>, k: nat)
    requires 0 < k && lines != []
    ensures LineAllows(lines, k) <==> PassedBy(lines[0]) && LineAllows(lines[1..], k - 1)
    ensures LineBreaks(lines, k) <==> PassedBy(lines[0]) && LineBreaks(lines[1..], k - 1)
  {
    var rest := lines[1..];
    assert forall j :: 0 <= j < |rest| ==> rest[j] == lines[j + 1];
    assert forall j :: 1 <= j < |lines| ==> lines[j] == rest[j - 1];
  }

  lemma OneLine(line: string)
    ensures ScanLine(line) == Some(true) <==> Visible(line) && SomeAllows(Split(line, ','))
    ensures ScanLine(line).None? <==> !Visible(line) || SomeBreaks(Split(line, ','))
    ensures ScanLine(line) == Some(false) <==> PassedBy(line)
  {
    var items := Split(line, ',');
    ScanAllows(items);
    ScanBreaks(items);
    ScanNeither(items);
    if Visible(line) {
      assert ScanLine(line) == ScanItems(items);
    }
  }

  /** The verdict over all Accept lines, on their text. */
  lemma {:induction false} AcceptExact(lines: seq<string>)
    ensures ScanAccept(lines) == Some(true) <==> exists k: nat :: LineAllows(lines, k)
    ensures ScanAccept(lines).None? <==> exists k: nat :: LineBreaks(lines, k)
  {
    if lines != [] {
      OneLine(lines[0]);
      AcceptExact(lines[1..]);
      assert ScanLine(lines[0]) == Some(true) <==> LineAllows(lines, 0);
      assert ScanLine(lines[0]).None? <==> LineBreaks(lines, 0);
      if k: nat :| LineAllows(lines[1..], k) {
        LineStep(lines, k + 1);
      }
      if k: nat :| LineAllows(lines, k) {
        if k > 0 {
          LineStep(lines, k);
        }
      }
      if k: nat :| LineBreaks(lines[1..], k) {
        LineStep(lines, k + 1);
      }
      if k: nat :| LineBreaks(lines, k) {
        if k > 0 {
          LineStep(lines, k);
        }
      }
    }
  }

  // ------------------------------------------------------- lines or one joined value

  function Then(first: Option<bool>, second: Option<bool>): Option<bool> {
    if first == Some(false) then second else first
  }

  lemma {:induction false} ScanConcat(a: seq<string>, b: seq<string>)
    ensures ScanItems(a + b) == Then(ScanItems(a), ScanItems(b))
  {
    if a == [] {
      assert a + b == b;
    } else {
      ScanConcat(a[1..], b);
      assert (a + b)[1..] == a[1..] + b;
    }
  }

  lemma PadVerdict(pad: string, item: string)
    requires AllBlank(pad)
    ensures ItemVerdict(pad + item) == ItemVerdict(item)
  {
    TrimPadLeft(pad, item);
  }

  lemma ScanPadded(pad: string, line: string)
    requires AllBlank(pad)
    ensures ScanItems(Split(pad + line, ',')) == ScanItems(Split(line, ','))
  {
    SplitPad(pad, line, ',');
    var parts := Split(line, ',');
    PadVerdict(pad, parts[0]);
    assert ([pad + parts[0]] + parts[1..])[1..] == parts[1..];
  }

  /**
   Scanning several Accept lines gives the verdict of the one line that joins
   them with a comma and any blanks (section 5.3 of RFC 9110).
   */
  lemma {:induction false} LinesOrJoined(lines: seq<string>, blanks: string)
    requires lines != [] && AllBlank(blanks) && forall l :: l in lines ==> Visible(l)
    ensures ScanAccept(lines) == ScanAccept([Join(lines, "," + blanks)])
  {
    var joined := Join(lines, "," + blanks);
    JoinedVisible(lines, blanks);
    ScanSingle(joined);
    assert lines[0] in lines;
    if |lines| == 1 {
      ScanSingle(lines[0]);
      assert lines == [lines[0]];
    } else {
      var rest := Join(lines[1..], "," + blanks);
      LinesOrJoined(lines[1..], blanks);
      JoinedVisible(lines[1..], blanks);
      ScanSingle(rest);
      assert joined == lines[0] + [','] + (blanks + rest);
      SplitConcat(lines[0], ',', blanks + rest);
      ScanConcat(Split(lines[0], ','), Split(blanks + rest, ','));
      ScanPadded(blanks, rest);
    }
  }

  lemma ScanSingle(line: string)
    requires Visible(line)
    ensures ScanAccept([line]) == ScanItems(Split(line, ','))
  {
    assert [line][1..] == [];
  }

  lemma {:induction false} JoinedVisible(lines: seq<string>, blanks: string)
    requires AllBlank(blanks) && forall l :: l in lines ==> Visible(l)
    ensures Visible(Join(lines, "," + blanks))
  {
    if |lines| > 1 {
      JoinedVisible(lines[1..], blanks);
      assert lines[0] in lines;
    } else if |lines| == 1 {
      assert lines[0] in lines;
    }
  }
}
