/**
 The query string (src/router.rs, src/request.rs): strict percent and UTF-8
 checks, form-urlencoded splitting (sections 5.1 and 5.2 of the WHATWG URL
 Standard), grouping into an ordered multimap, and printing it back.
 */
module Query {
  import opened Text
  import opened Http
  import opened Utf8

  type Bytes = seq<Byte>

  const PERCENT: Byte := 0x25
  const AMPERSAND: Byte := 0x26
  const EQUALS: Byte := 0x3D
  const PLUS: Byte := 0x2B
  const SPACE: Byte := 0x20

  // ----------------------------------------------------------- percent encoding

  predicate HexDigit(b: Byte) { 0x30 <= b <= 0x39 || 0x41 <= b <= 0x46 || 0x61 <= b <= 0x66 }

  function HexValue(b: Byte): (v: nat)
    requires HexDigit(b)
    ensures v < 16
  {
    if b <= 0x39 then b - 0x30 else if b <= 0x46 then b - 0x41 + 10 else b - 0x61 + 10
  }

  predicate Triple(s: Bytes) { |s| >= 3 && s[0] == PERCENT && HexDigit(s[1]) && HexDigit(s[2]) }

  /** Every '%' starts a triple. */
  predicate PercentOk(s: Bytes)
    decreases |s|
  {
    s == [] || (if s[0] == PERCENT then Triple(s) && PercentOk(s[3..]) else PercentOk(s[1..]))
  }

  /** `validate_percent_encoding`. */
  method ValidatePercentEncoding(bytes: Bytes) returns (ok: bool)
    ensures ok == PercentOk(bytes)
  {
    var index := 0;
    assert bytes[0..] == bytes;
    while index < |bytes|
      invariant index <= |bytes|
      invariant PercentOk(bytes) == PercentOk(bytes[index..])
    {
      var rest := bytes[index..];
      assert rest[0] == bytes[index] && rest[1..] == bytes[index + 1..];
      assert |rest| >= 3 ==>
          rest[1] == bytes[index + 1] && rest[2] == bytes[index + 2] && rest[3..] == bytes[index + 3..];
      if bytes[index] == PERCENT
         && (index + 2 >= |bytes| || !HexDigit(bytes[index + 1]) || !HexDigit(bytes[index + 2])) {
        return false;
      }
      index := index + if bytes[index] == PERCENT then 3 else 1;
    }
    return true;
  }

  /** Percent decoding; a '%' that starts no triple stays. */
  function Decode(s: Bytes): Bytes
    decreases |s|
  {
    if s == [] then []
    else if Triple(s) then [16 * HexValue(s[1]) + HexValue(s[2])] + Decode(s[3..])
    else [s[0]] + Decode(s[1..])
  }

  function PlusToSpace(s: Bytes): (r: Bytes)
    ensures |r| == |s| && forall i :: 0 <= i < |s| ==> r[i] == if s[i] == PLUS then SPACE else s[i]
  {
    seq(|s|, i requires 0 <= i < |s| => if s[i] == PLUS then SPACE else s[i])
  }

  /** One name or value of a form, decoded the way that never fails. */
  function Component(s: Bytes): Bytes { Lossy(Decode(PlusToSpace(s))) }

  // ------------------------------------------------------------------- splitting

  type Pairs = seq<(Bytes, Bytes)>

  /** A piece between two '&' cut at its first '='. */
  function RawPair(piece: Bytes): (Bytes, Bytes) {
    match SplitOnce(piece, EQUALS)
    case Some(nv) => nv
    case None => (piece, [])
  }

  function PairsOf(pieces: seq<Bytes>): Pairs {
    if pieces == [] then []
    else (if pieces[0] == [] then [] else [(Component(RawPair(pieces[0]).0), Component(RawPair(pieces[0]).1))])
         + PairsOf(pieces[1..])
  }

  function FormPairs(text: Bytes): Pairs { PairsOf(Split(text, AMPERSAND)) }

  // ------------------------------------------------------------- ordered multimap

  datatype Entry = Entry(name: Bytes, values: seq<Bytes>)

  /** Names to their values, in ascending order of names. */
  type Multimap = seq<Entry>

  predicate Less(a: Bytes, b: Bytes) {
    b != [] && (a == [] || a[0] < b[0] || (a[0] == b[0] && Less(a[1..], b[1..])))
  }

  predicate Ascending(m: Multimap) {
    forall i, j :: 0 <= i < j < |m| ==> Less(m[i].name, m[j].name)
  }

  predicate NonEmptyLists(m: Multimap) { forall i :: 0 <= i < |m| ==> m[i].values != [] }

  /** Adds a value under a name, as `entry(name).or_default().push(value)`. */
  function Push(m: Multimap, name: Bytes, value: Bytes): Multimap {
    if m == [] then [Entry(name, [value])]
    else if m[0].name == name then [Entry(name, m[0].values + [value])] + m[1..]
    else if Less(name, m[0].name) then [Entry(name, [value])] + m
    else [m[0]] + Push(m[1..], name, value)
  }

  function PushPairs(m: Multimap, pairs: Pairs): Multimap
    decreases |pairs|
  {
    if pairs == [] then m else PushPairs(Push(m, pairs[0].0, pairs[0].1), pairs[1..])
  }

  function Grouped(pairs: Pairs): Multimap { PushPairs([], pairs) }

  function Repeated(name: Bytes, values: seq<Bytes>): (r: Pairs)
    ensures |r| == |values| && forall i :: 0 <= i < |values| ==> r[i] == (name, values[i])
  {
    seq(|values|, i requires 0 <= i < |values| => (name, values[i]))
  }

  /** All pairs in map order. */
  function Flatten(m: Multimap): Pairs {
    if m == [] then [] else Repeated(m[0].name, m[0].values) + Flatten(m[1..])
  }

  // ----------------------------------------------------------------------- parsing

  function QueryOf(query: Option<Bytes>): Option<Multimap> {
    match query
    case None => Some([])
    case Some(text) => if PercentOk(text) && ValidUtf8(Decode(text)) then Some(Grouped(FormPairs(text))) else None
  }

  const BAD_PERCENT := BadRequest("query string contains invalid percent encoding")
  const BAD_UTF8 := BadRequest("query string is not valid UTF-8")

  function QueryFault(query: Option<Bytes>): Option<SoapError> {
    if QueryOf(query).Some? then None
    else Some(if query.Some? && PercentOk(query.value) then BAD_UTF8 else BAD_PERCENT)
  }

  lemma {:induction false} PushPairsConcat(m: Multimap, a: Pairs, b: Pairs)
    ensures PushPairs(m, a + b) == PushPairs(PushPairs(m, a), b)
    decreases |a|
  {
    if a == [] {
      assert a + b == b;
    } else {
      PushPairsConcat(Push(m, a[0].0, a[0].1), a[1..], b);
      assert (a + b)[1..] == a[1..] + b;
    }
  }

  /** `parse_query`: one map from names to all their values, or a bad-request error. */
  method ParseQuery(query: Option<Bytes>) returns (r: Result<Multimap>)
    ensures QueryOf(query) == (if r.Ok? then Some(r.value) else None)
    ensures QueryFault(query) == (if r.Ok? then None else Some(r.error))
  {
    var parameters: Multimap := [];
    if query.Some? {
      var text := query.value;
      var ok := ValidatePercentEncoding(text);
      if !ok {
        return Err(BAD_PERCENT);
      }
      if !ValidUtf8(Decode(text)) {
        return Err(BAD_UTF8);
      }
      var pieces := Split(text, AMPERSAND);
      var i := 0;
      assert pieces[0..] == pieces;
      while i < |pieces|
        invariant i <= |pieces|
        invariant PushPairs(parameters, PairsOf(pieces[i..])) == Grouped(PairsOf(pieces))
      {
        assert pieces[i..][0] == pieces[i] && pieces[i..][1..] == pieces[i + 1..];
        if pieces[i] != [] {
          var (name, value) := RawPair(pieces[i]);
          assert PairsOf(pieces[i..])[1..] == PairsOf(pieces[i + 1..]);
          parameters := Push(parameters, Component(name), Component(value));
        } else {
          assert [] + PairsOf(pieces[i + 1..]) == PairsOf(pieces[i + 1..]);
        }
        i := i + 1;
      }
    }
    return Ok(parameters);
  }

  // --------------------------------------------- the strict check makes decoding lossless

  predicate Separates(c: Byte) { c < 0x80 && c != PERCENT && !HexDigit(c) }

  /** A triple at the front is decoded on its own. */
  lemma TripleFront(t: Bytes, rest: Bytes)
    requires |t| == 3 && Triple(t)
    ensures PercentOk(t + rest) <==> PercentOk(rest)
    ensures Decode(t + rest) == Decode(t) + Decode(rest)
  {
    assert (t + rest)[3..] == rest && t[3..] == [];
  }

  lemma ByteFront(b: Byte, rest: Bytes)
    requires b != PERCENT
    ensures PercentOk([b] + rest) <==> PercentOk(rest)
    ensures Decode([b] + rest) == [b] + Decode(rest)
  {
    assert ([b] + rest)[1..] == rest;
  }

  /** A byte that is neither '%' nor a hex digit never stands inside a triple. */
  lemma {:induction false} PercentCut(a: Bytes, c: Byte, b: Bytes)
    requires Separates(c)
    ensures PercentOk(a + [c] + b) <==> PercentOk(a) && PercentOk(b)
    ensures PercentOk(a + [c] + b) ==> Decode(a + [c] + b) == Decode(a) + [c] + Decode(b)
    decreases |a|
  {
    var s := a + [c] + b;
    if a == [] {
      assert s == [c] + b;
      ByteFront(c, b);
      assert Decode(a) + [c] + Decode(b) == [c] + Decode(b);
    } else if a[0] == PERCENT {
      CutTriple(a, c, b);
      if |a| >= 3 && Triple(a) {
        PercentCut(a[3..], c, b);
        TripleCut(a[..3], a[3..], c, b);
        assert a == a[..3] + a[3..];
      }
    } else {
      PercentCut(a[1..], c, b);
      ByteCut(a[0], a[1..], c, b);
      assert a == [a[0]] + a[1..];
    }
  }

  lemma TripleCut(t: Bytes, rest: Bytes, c: Byte, b: Bytes)
    requires |t| == 3 && Triple(t)
    ensures PercentOk(t + rest) <==> PercentOk(rest)
    ensures PercentOk(t + rest + [c] + b) <==> PercentOk(rest + [c] + b)
    ensures Decode(rest + [c] + b) == Decode(rest) + [c] + Decode(b) ==>
              Decode(t + rest + [c] + b) == Decode(t + rest) + [c] + Decode(b)
  {
    TripleFront(t, rest);
    TripleFront(t, rest + [c] + b);
    assert t + rest + [c] + b == t + (rest + [c] + b);
    Regroup(Decode(t), Decode(rest), [c], Decode(b));
  }

  lemma ByteCut(x: Byte, rest: Bytes, c: Byte, b: Bytes)
    requires x != PERCENT
    ensures PercentOk([x] + rest) <==> PercentOk(rest)
    ensures PercentOk([x] + rest + [c] + b) <==> PercentOk(rest + [c] + b)
    ensures Decode(rest + [c] + b) == Decode(rest) + [c] + Decode(b) ==>
              Decode([x] + rest + [c] + b) == Decode([x] + rest) + [c] + Decode(b)
  {
    ByteFront(x, rest);
    ByteFront(x, rest + [c] + b);
    assert [x] + rest + [c] + b == [x] + (rest + [c] + b);
    Regroup([x], Decode(rest), [c], Decode(b));
  }

  lemma Regroup<T>(t: seq<T>, r: seq<T>, c: seq<T>, b: seq<T>)
    ensures t + (r + c + b) == (t + r) + c + b
  {
  }

  /** The triple a '%' starts cannot reach the separator. */
  lemma CutTriple(a: Bytes, c: Byte, b: Bytes)
    requires Separates(c) && a != [] && a[0] == PERCENT
    ensures PercentOk(a + [c] + b) ==> |a| >= 3 && Triple(a)
    ensures PercentOk(a) ==> |a| >= 3 && Triple(a)
  {
    var s := a + [c] + b;
    assert s[|a|] == c;
    assert forall i :: 0 <= i < |a| ==> s[i] == a[i];
  }

  /** Turning '+' into a space exchanges single ASCII bytes of the decoded text and nothing else. */
  lemma {:induction false} PlusAlike(s: Bytes)
    requires PercentOk(s)
    ensures PercentOk(PlusToSpace(s)) && AsciiAlike(Decode(s), Decode(PlusToSpace(s)))
    decreases |s|
  {
    var t := PlusToSpace(s);
    if s != [] {
      if s[0] == PERCENT {
        assert t[3..] == PlusToSpace(s[3..]);
        PlusAlike(s[3..]);
      } else {
        assert t[1..] == PlusToSpace(s[1..]);
        PlusAlike(s[1..]);
      }
    }
  }

  /** A part that the strict check has passed. */
  predicate Clean(s: Bytes) { PercentOk(s) && ValidUtf8(Decode(s)) }

  lemma CleanCut(a: Bytes, c: Byte, b: Bytes)
    requires Separates(c) && Clean(a + [c] + b)
    ensures Clean(a) && Clean(b)
  {
    PercentCut(a, c, b);
    AsciiCut(Decode(a), c, Decode(b));
  }

  /** A clean part decodes to well-formed text with no replacement. */
  lemma CleanComponent(s: Bytes)
    requires Clean(s)
    ensures Component(s) == Decode(PlusToSpace(s)) && ValidUtf8(Component(s))
  {
    PlusAlike(s);
    AlikeValid(Decode(s), Decode(PlusToSpace(s)));
    LossyExact(Decode(PlusToSpace(s)));
  }

  lemma {:induction false} CleanPieces(text: Bytes)
    requires Clean(text)
    ensures forall p :: p in Split(text, AMPERSAND) ==> Clean(p)
    decreases |text|
  {
    SplitOnceParts(text, AMPERSAND);
    var cut := SplitOnce(text, AMPERSAND);
    if cut.Some? {
      var (head, tail) := cut.value;
      CleanCut(head, AMPERSAND, tail);
      CleanPieces(tail);
      SplitFirst(head, AMPERSAND, tail);
    } else {
      SplitAbsent(text, AMPERSAND);
    }
  }

  /**
   Once the whole query passes the two checks, no split cuts a triple or a
   character: each raw name and value is itself clean, and the decoder that may
   replace bytes replaces none.
   */
  lemma StrictMeansLossless(text: Bytes, piece: Bytes)
    requires PercentOk(text) && ValidUtf8(Decode(text)) && piece in Split(text, AMPERSAND)
    ensures var (name, value) := RawPair(piece);
            && PercentOk(name) && PercentOk(value)
            && Component(name) == Decode(PlusToSpace(name)) && ValidUtf8(Component(name))
            && Component(value) == Decode(PlusToSpace(value)) && ValidUtf8(Component(value))
  {
    CleanPieces(text);
    SplitOnceParts(piece, EQUALS);
    var (name, value) := RawPair(piece);
    if EQUALS in piece {
      CleanCut(name, EQUALS, value);
    }
    CleanComponent(name);
    CleanComponent(value);
  }

  // ------------------------------------------------------------------- the order

  lemma {:induction false} LessTotal(a: Bytes, b: Bytes)
    ensures Less(a, b) || Less(b, a) || a == b
    ensures !(Less(a, b) && Less(b, a)) && !Less(a, a)
  {
    if a != [] && b != [] && a[0] == b[0] {
      LessTotal(a[1..], b[1..]);
      LessIrreflexive(a);
    } else {
      LessIrreflexive(a);
    }
  }

  lemma {:induction false} LessIrreflexive(a: Bytes)
    ensures !Less(a, a)
  {
    if a != [] {
      LessIrreflexive(a[1..]);
    }
  }

  lemma {:induction false} LessTransitive(a: Bytes, b: Bytes, c: Bytes)
    requires Less(a, b) && Less(b, c)
    ensures Less(a, c)
  {
    if a != [] && a[0] == b[0] && b[0] == c[0] {
      LessTransitive(a[1..], b[1..], c[1..]);
    }
  }

  /** Every name of the map comes after `name`. */
  predicate AllAfter(name: Bytes, m: Multimap) { forall i :: 0 <= i < |m| ==> Less(name, m[i].name) }

  lemma {:induction false} PushAfter(before: Bytes, m: Multimap, name: Bytes, value: Bytes)
    requires AllAfter(before, m) && Less(before, name)
    ensures AllAfter(before, Push(m, name, value))
  {
    if m != [] {
      PushAfter(before, m[1..], name, value);
    }
  }

  /** Pushing keeps the map ordered and without empty lists. */
  lemma {:induction false} PushKeeps(m: Multimap, name: Bytes, value: Bytes)
    requires Ascending(m) && NonEmptyLists(m)
    ensures Ascending(Push(m, name, value)) && NonEmptyLists(Push(m, name, value))
  {
    if m != [] {
      var (first, rest) := (m[0], m[1..]);
      assert Ascending(rest) && NonEmptyLists(rest) && AllAfter(first.name, rest);
      PushKeeps(rest, name, value);
      LessTotal(name, first.name);
      if Less(name, first.name) {
        forall i | 0 <= i < |m|
          ensures Less(name, m[i].name)
        {
          if i > 0 {
            LessTransitive(name, first.name, m[i].name);
          }
        }
      } else if first.name != name {
        PushAfter(first.name, rest, name, value);
        AscendingCons(first, Push(rest, name, value));
      }
    }
  }

  lemma AscendingCons(first: Entry, rest: Multimap)
    requires Ascending(rest) && AllAfter(first.name, rest)
    ensures Ascending([first] + rest)
  {
    var m := [first] + rest;
    forall i, j | 0 <= i < j < |m|
      ensures Less(m[i].name, m[j].name)
    {
      assert m[j] == rest[j - 1];
      if i > 0 {
        assert m[i] == rest[i - 1];
      }
    }
  }

  lemma {:induction false} PushPairsKeeps(m: Multimap, pairs: Pairs)
    requires Ascending(m) && NonEmptyLists(m)
    ensures Ascending(PushPairs(m, pairs)) && NonEmptyLists(PushPairs(m, pairs))
    decreases |pairs|
  {
    if pairs != [] {
      PushKeeps(m, pairs[0].0, pairs[0].1);
      PushPairsKeeps(Push(m, pairs[0].0, pairs[0].1), pairs[1..]);
    }
  }

  // ------------------------------------------------------------------ stable sorting

  /** The values given under one name, in order. */
  function Only(pairs: Pairs, name: Bytes): seq<Bytes> {
    if pairs == [] then []
    else (if pairs[0].0 == name then [pairs[0].1] else []) + Only(pairs[1..], name)
  }

  lemma {:induction false} OnlyConcat(a: Pairs, b: Pairs, name: Bytes)
    ensures Only(a + b, name) == Only(a, name) + Only(b, name)
  {
    if a == [] {
      assert a + b == b;
    } else {
      OnlyConcat(a[1..], b, name);
      assert (a + b)[1..] == a[1..] + b;
      Associative(if a[0].0 == name then [a[0].1] else [], Only(a[1..], name), Only(b, name));
    }
  }

  lemma {:induction false} OnlyRepeated(n: Bytes, values: seq<Bytes>, name: Bytes)
    ensures Only(Repeated(n, values), name) == if n == name then values else []
  {
    if values != [] {
      OnlyRepeated(n, values[1..], name);
      assert Repeated(n, values)[1..] == Repeated(n, values[1..]);
      assert [values[0]] + values[1..] == values;
    }
  }

  lemma {:induction false} OnlyAbsent(m: Multimap, name: Bytes)
    requires AllAfter(name, m)
    ensures Only(Flatten(m), name) == []
  {
    if m != [] {
      OnlyAbsent(m[1..], name);
      LessIrreflexive(name);
      OnlyConcat(Repeated(m[0].name, m[0].values), Flatten(m[1..]), name);
      OnlyRepeated(m[0].name, m[0].values, name);
    }
  }

  lemma OnlyCons(e: Entry, rest: Multimap, x: Bytes)
    ensures Only(Flatten([e] + rest), x) == (if e.name == x then e.values else []) + Only(Flatten(rest), x)
  {
    assert ([e] + rest)[1..] == rest;
    OnlyConcat(Repeated(e.name, e.values), Flatten(rest), x);
    OnlyRepeated(e.name, e.values, x);
  }

  lemma OnlyAfter(m: Multimap, name: Bytes)
    requires Ascending(m) && (m == [] || Less(name, m[0].name))
    ensures Only(Flatten(m), name) == []
  {
    forall i | 0 <= i < |m|
      ensures Less(name, m[i].name)
    {
      if i > 0 {
        LessTransitive(name, m[0].name, m[i].name);
      }
    }
    OnlyAbsent(m, name);
  }

  lemma OnlyPushFirst(m: Multimap, name: Bytes, value: Bytes, x: Bytes)
    requires Ascending(m) && (m == [] || Less(name, m[0].name))
    ensures Only(Flatten([Entry(name, [value])] + m), x) == Only(Flatten(m), x) + (if x == name then [value] else [])
  {
    OnlyCons(Entry(name, [value]), m, x);
    if x == name {
      OnlyAfter(m, name);
    }
  }

  lemma OnlyPushHere(rest: Multimap, name: Bytes, values: seq<Bytes>, value: Bytes, x: Bytes)
    requires Ascending(rest) && (rest == [] || Less(name, rest[0].name))
    ensures Only(Flatten([Entry(name, values + [value])] + rest), x)
         == Only(Flatten([Entry(name, values)] + rest), x) + (if x == name then [value] else [])
  {
    OnlyCons(Entry(name, values + [value]), rest, x);
    OnlyCons(Entry(name, values), rest, x);
    if x == name {
      OnlyAfter(rest, name);
    }
  }

  /** Pushing appends the value to its name's values and to no other's. */
  lemma {:induction false} OnlyPush(m: Multimap, name: Bytes, value: Bytes, x: Bytes)
    requires Ascending(m)
    ensures Only(Flatten(Push(m, name, value)), x)
         == Only(Flatten(m), x) + (if x == name then [value] else [])
  {
    if m == [] {
      OnlyPushFirst(m, name, value, x);
      assert Push(m, name, value) == [Entry(name, [value])] + m;
    } else {
      var (first, rest) := (m[0], m[1..]);
      assert m == [first] + rest;
      if first.name == name {
        assert first == Entry(name, first.values);
        OnlyPushHere(rest, name, first.values, value, x);
      } else if Less(name, first.name) {
        OnlyPushFirst(m, name, value, x);
      } else {
        OnlyPush(rest, name, value, x);
        OnlyCons(first, rest, x);
        OnlyCons(first, Push(rest, name, value), x);
        Associative(if first.name == x then first.values else [], Only(Flatten(rest), x),
                    if x == name then [value] else []);
      }
    }
  }

  lemma {:induction false} OnlyPushPairs(m: Multimap, pairs: Pairs, x: Bytes)
    requires Ascending(m) && NonEmptyLists(m)
    ensures Only(Flatten(PushPairs(m, pairs)), x) == Only(Flatten(m), x) + Only(pairs, x)
    decreases |pairs|
  {
    if pairs != [] {
      var (n, v) := pairs[0];
      PushKeeps(m, n, v);
      OnlyPushPairs(Push(m, n, v), pairs[1..], x);
      OnlyPush(m, n, v, x);
      Associative(Only(Flatten(m), x), if n == x then [v] else [], Only(pairs[1..], x));
    }
  }

  /** Names never step down. */
  predicate NamesSorted(pairs: Pairs) {
    forall i, j :: 0 <= i < j < |pairs| ==> !Less(pairs[j].0, pairs[i].0)
  }

  lemma {:induction false} FlattenSorted(m: Multimap)
    requires Ascending(m)
    ensures NamesSorted(Flatten(m))
    ensures forall p :: p in Flatten(m) ==> exists i :: 0 <= i < |m| && m[i].name == p.0
  {
    if m != [] {
      var (first, rest) := (m[0], m[1..]);
      FlattenSorted(rest);
      var (head, tail) := (Repeated(first.name, first.values), Flatten(rest));
      forall p: (Bytes, Bytes) | p in head + tail
        ensures exists i :: 0 <= i < |m| && m[i].name == p.0
      {
        if p in head {
          assert m[0].name == p.0;
        } else {
          var i :| 0 <= i < |rest| && rest[i].name == p.0;
          assert m[i + 1].name == p.0;
        }
      }
      forall i, j | 0 <= i < j < |head + tail|
        ensures !Less((head + tail)[j].0, (head + tail)[i].0)
      {
        LessIrreflexive(first.name);
        if i < |head| && j >= |head| {
          var p := tail[j - |head|];
          assert p in tail;
          var k :| 0 <= k < |rest| && rest[k].name == p.0;
          assert m[k + 1] == rest[k];
          LessTotal(first.name, p.0);
        }
      }
    }
  }

  /**
   The pairs re-emitted for a parsed query are its pairs sorted by name,
   stably: names ascend, and under each name stand its values in query order.
   */
  lemma ReemittedStably(pairs: Pairs, x: Bytes)
    ensures Ascending(Grouped(pairs)) && NonEmptyLists(Grouped(pairs))
    ensures NamesSorted(Flatten(Grouped(pairs)))
    ensures Only(Flatten(Grouped(pairs)), x) == Only(pairs, x)
  {
    PushPairsKeeps([], pairs);
    FlattenSorted(Grouped(pairs));
    OnlyPushPairs([], pairs, x);
  }

  lemma BagOfCons(e: Entry, rest: Multimap)
    ensures multiset(Flatten([e] + rest)) == multiset(Repeated(e.name, e.values)) + multiset(Flatten(rest))
  {
    assert ([e] + rest)[1..] == rest;
  }

  lemma {:induction false} BagOfPush(m: Multimap, name: Bytes, value: Bytes)
    ensures multiset(Flatten(Push(m, name, value))) == multiset(Flatten(m)) + multiset{(name, value)}
  {
    assert Repeated(name, [value]) == [(name, value)];
    if m == [] {
      BagOfCons(Entry(name, [value]), []);
      assert Push(m, name, value) == [Entry(name, [value])] + [];
    } else {
      var (first, rest) := (m[0], m[1..]);
      assert m == [first] + rest;
      BagOfCons(first, rest);
      if first.name == name {
        BagOfCons(Entry(name, first.values + [value]), rest);
        assert Repeated(name, first.values + [value]) == Repeated(name, first.values) + [(name, value)];
      } else if Less(name, first.name) {
        BagOfCons(Entry(name, [value]), m);
      } else {
        BagOfPush(rest, name, value);
        BagOfCons(first, Push(rest, name, value));
      }
    }
  }

  /** No pair is lost and none is doubled. */
  lemma {:induction false} ReemittedAll(m: Multimap, pairs: Pairs)
    ensures multiset(Flatten(PushPairs(m, pairs))) == multiset(Flatten(m)) + multiset(pairs)
    decreases |pairs|
  {
    if pairs != [] {
      var (n, v) := pairs[0];
      BagOfPush(m, n, v);
      ReemittedAll(Push(m, n, v), pairs[1..]);
      assert pairs == [(n, v)] + pairs[1..];
      assert multiset(pairs) == multiset{(n, v)} + multiset(pairs[1..]);
    }
  }

  // ---------------------------------------------------------------------- printing

  /** Bytes the form encoder leaves as they are. */
  predicate Unreserved(b: Byte) {
    || b == 0x2A || b == 0x2D || b == 0x2E || b == 0x5F
    || 0x30 <= b <= 0x39 || 0x41 <= b <= 0x5A || 0x61 <= b <= 0x7A
  }

  function HexUpper(v: nat): (b: Byte)
    requires v < 16
    ensures HexDigit(b) && HexValue(b) == v
  {
    if v < 10 then 0x30 + v else 0x41 + v - 10
  }

  function Encode(b: Byte): Bytes {
    if Unreserved(b) then [b]
    else if b == SPACE then [PLUS]
    else [PERCENT, HexUpper(b / 16), HexUpper(b % 16)]
  }

  /** Section 5.2: letters, digits and four marks stand for themselves, a space is a plus, all else a triple. */
  lemma EncodeExact(b: Byte)
    ensures Encode(b)
         == if ('a' as int <= b <= 'z' as int) || ('A' as int <= b <= 'Z' as int) || ('0' as int <= b <= '9' as int)
               || b as char in "*-._" then [b]
            else if b == ' ' as int then ['+' as int]
            else ['%' as int, HexText(b / 16, true), HexText(b % 16, true)]
  {
    HexTables(b / 16);
    HexTables(b % 16);
  }

  function EncodeAll(s: Bytes): Bytes {
    if s == [] then [] else Encode(s[0]) + EncodeAll(s[1..])
  }

  function EncodedPair(p: (Bytes, Bytes)): Bytes { EncodeAll(p.0) + [EQUALS] + EncodeAll(p.1) }

  function EncodedPairs(pairs: Pairs): (r: seq<Bytes>)
    ensures |r| == |pairs| && forall i :: 0 <= i < |pairs| ==> r[i] == EncodedPair(pairs[i])
  {
    seq(|pairs|, i requires 0 <= i < |pairs| => EncodedPair(pairs[i]))
  }

  function Print(pairs: Pairs): Bytes { Join(EncodedPairs(pairs), [AMPERSAND]) }

  lemma {:induction false} JoinGrows(parts: seq<Bytes>, last: Bytes, sep: Bytes)
    ensures Join(parts + [last], sep) == if parts == [] then last else Join(parts, sep) + sep + last
  {
    if |parts| == 0 {
      assert parts + [last] == [last];
    } else if |parts| == 1 {
      assert (parts + [last])[1..] == [last];
    } else {
      JoinGrows(parts[1..], last, sep);
      assert (parts + [last])[1..] == parts[1..] + [last];
      Associative(parts[0] + sep, Join(parts[1..], sep), sep + last);
      Associative(Join(parts[1..], sep), sep, last);
      Associative(Join(parts, sep), sep, last);
    }
  }

  lemma PrintGrows(done: Pairs, p: (Bytes, Bytes))
    ensures Print(done + [p]) == (if done == [] then [] else Print(done) + [AMPERSAND]) + EncodedPair(p)
    ensures Print(done + [p]) != []
  {
    assert EncodedPairs(done + [p]) == EncodedPairs(done) + [EncodedPair(p)];
    JoinGrows(EncodedPairs(done), EncodedPair(p), [AMPERSAND]);
    assert [] + EncodedPair(p) == EncodedPair(p);
  }

  /** One `append_pair` of the serializer. */
  method AppendPair(out: Bytes, name: Bytes, value: Bytes, ghost done: Pairs) returns (r: Bytes)
    requires out == Print(done) && (out == [] <==> done == [])
    ensures r == Print(done + [(name, value)]) && r != []
  {
    PrintGrows(done, (name, value));
    r := out;
    if r != [] {
      r := r + [AMPERSAND];
    }
    Associative(r, EncodeAll(name) + [EQUALS], EncodeAll(value));
    Associative(r, EncodeAll(name), [EQUALS]);
    r := r + EncodeAll(name) + [EQUALS] + EncodeAll(value);
  }

  /** The inner loop: every value of one name. */
  method AppendValues(out: Bytes, e: Entry, ghost done: Pairs) returns (r: Bytes)
    requires out == Print(done) && (out == [] <==> done == [])
    ensures r == Print(done + Repeated(e.name, e.values))
    ensures r == [] <==> done + Repeated(e.name, e.values) == []
  {
    r := out;
    ghost var all := Repeated(e.name, e.values);
    assert done + all[..0] == done;
    for j := 0 to |e.values|
      invariant r == Print(done + all[..j]) && (r == [] <==> done + all[..j] == [])
    {
      r := AppendPair(r, e.name, e.values[j], done + all[..j]);
      assert all[..j + 1] == all[..j] + [(e.name, e.values[j])];
      Associative(done, all[..j], [(e.name, e.values[j])]);
    }
    assert all[..|e.values|] == all;
  }

  /** `decode_query` up to the typed decoder: appends one pair at a time. */
  method SerializeQuery(m: Multimap) returns (out: Bytes)
    ensures out == Print(Flatten(m))
  {
    out := [];
    ghost var done: Pairs := [];
    assert m[0..] == m;
    for i := 0 to |m|
      invariant out == Print(done) && (out == [] <==> done == [])
      invariant done + Flatten(m[i..]) == Flatten(m)
    {
      assert m[i..][0] == m[i] && m[i..][1..] == m[i + 1..];
      out := AppendValues(out, m[i], done);
      Associative(done, Repeated(m[i].name, m[i].values), Flatten(m[i + 1..]));
      done := done + Repeated(m[i].name, m[i].values);
    }
    assert done + [] == done;
  }

  lemma PlusConcat(a: Bytes, b: Bytes)
    ensures PlusToSpace(a + b) == PlusToSpace(a) + PlusToSpace(b)
  {
  }

  lemma HexOne(b: Byte, rest: Bytes)
    requires PercentOk(rest)
    ensures var e := [PERCENT, HexUpper(b / 16), HexUpper(b % 16)];
            PercentOk(e + rest) && Decode(e + rest) == [b] + Decode(rest) && PlusToSpace(e) == e
  {
    var e := [PERCENT, HexUpper(b / 16), HexUpper(b % 16)];
    assert (e + rest)[3..] == rest;
    assert 16 * (b / 16) + b % 16 == b;
  }

  lemma PlainOne(b: Byte, rest: Bytes)
    requires PercentOk(rest) && b != PERCENT
    ensures PercentOk([b] + rest) && Decode([b] + rest) == [b] + Decode(rest)
  {
    assert ([b] + rest)[1..] == rest;
  }

  lemma EncodeOne(b: Byte, rest: Bytes)
    requires PercentOk(rest) && PercentOk(PlusToSpace(rest))
    ensures PercentOk(Encode(b) + rest)
    ensures Decode(PlusToSpace(Encode(b)) + PlusToSpace(rest)) == [b] + Decode(PlusToSpace(rest))
    ensures Decode(Encode(b) + rest) == [if b == SPACE then PLUS else b] + Decode(rest)
    ensures AMPERSAND !in Encode(b) && EQUALS !in Encode(b)
  {
    if Unreserved(b) || b == SPACE {
      PlainOne(Encode(b)[0], rest);
      PlainOne(b, PlusToSpace(rest));
      assert PlusToSpace(Encode(b)) == [b];
    } else {
      HexOne(b, rest);
      HexOne(b, PlusToSpace(rest));
    }
  }

  /** Encoding yields clean text without separators that decodes to what was encoded. */
  lemma {:induction false} EncodeFacts(s: Bytes)
    ensures PercentOk(EncodeAll(s)) && AMPERSAND !in EncodeAll(s) && EQUALS !in EncodeAll(s)
    ensures Decode(PlusToSpace(EncodeAll(s))) == s
    ensures AsciiAlike(s, Decode(EncodeAll(s)))
  {
    if s != [] {
      var rest := EncodeAll(s[1..]);
      EncodeFacts(s[1..]);
      PlusAlike(rest);
      EncodeOne(s[0], rest);
      PlusConcat(Encode(s[0]), rest);
      assert [s[0]] + s[1..] == s;
    }
  }

  lemma EncodeClean(s: Bytes)
    requires ValidUtf8(s)
    ensures Clean(EncodeAll(s)) && Component(EncodeAll(s)) == s
  {
    EncodeFacts(s);
    AlikeValid(s, Decode(EncodeAll(s)));
    LossyExact(s);
  }

  lemma CleanGlue(a: Bytes, c: Byte, b: Bytes)
    requires Separates(c) && Clean(a) && Clean(b)
    ensures Clean(a + [c] + b)
  {
    PercentCut(a, c, b);
    assert CharLen([c]) == 1 && [c][1..] == [];
    ValidConcat(Decode(a), [c]);
    ValidConcat(Decode(a) + [c], Decode(b));
  }

  predicate TextPairs(pairs: Pairs) {
    forall i :: 0 <= i < |pairs| ==> ValidUtf8(pairs[i].0) && ValidUtf8(pairs[i].1)
  }

  lemma PairFacts(p: (Bytes, Bytes))
    requires ValidUtf8(p.0) && ValidUtf8(p.1)
    ensures Clean(EncodedPair(p)) && AMPERSAND !in EncodedPair(p) && EncodedPair(p) != []
    ensures var raw := RawPair(EncodedPair(p)); (Component(raw.0), Component(raw.1)) == p
  {
    EncodeClean(p.0);
    EncodeClean(p.1);
    EncodeFacts(p.0);
    EncodeFacts(p.1);
    CleanGlue(EncodeAll(p.0), EQUALS, EncodeAll(p.1));
    SplitOnceUnique(EncodeAll(p.0), EQUALS, EncodeAll(p.1));
  }

  lemma {:induction false} PrintClean(pairs: Pairs)
    requires TextPairs(pairs)
    ensures Clean(Print(pairs))
  {
    if |pairs| == 1 {
      PairFacts(pairs[0]);
    } else if |pairs| > 1 {
      PairFacts(pairs[0]);
      PrintClean(pairs[1..]);
      CleanGlue(EncodedPair(pairs[0]), AMPERSAND, Print(pairs[1..]));
      assert EncodedPairs(pairs)[1..] == EncodedPairs(pairs[1..]);
    }
  }

  lemma {:induction false} PairsOfEncoded(pairs: Pairs)
    requires TextPairs(pairs)
    ensures PairsOf(EncodedPairs(pairs)) == pairs
  {
    if pairs != [] {
      PairFacts(pairs[0]);
      PairsOfEncoded(pairs[1..]);
      assert EncodedPairs(pairs)[1..] == EncodedPairs(pairs[1..]);
      assert [pairs[0]] + pairs[1..] == pairs;
    }
  }

  lemma SplitPrinted(pairs: Pairs)
    requires TextPairs(pairs) && pairs != []
    ensures Split(Print(pairs), AMPERSAND) == EncodedPairs(pairs)
  {
    var parts := EncodedPairs(pairs);
    forall p | p in parts
      ensures AMPERSAND !in p
    {
      var i :| 0 <= i < |pairs| && p == EncodedPair(pairs[i]);
      PairFacts(pairs[i]);
    }
    assert [AMPERSAND] + [] == [AMPERSAND];
    SplitJoin(parts, AMPERSAND, []);
    NoPad(parts);
  }

  lemma NoPad(parts: seq<Bytes>)
    requires parts != []
    ensures [parts[0]] + Padded(parts[1..], []) == parts
  {
    assert forall i :: 0 < i < |parts| ==> Padded(parts[1..], [])[i - 1] == [] + parts[i] == parts[i];
  }

  /** Parsing printed pairs gives the pairs. */
  lemma PrintFormPairs(pairs: Pairs)
    requires TextPairs(pairs)
    ensures FormPairs(Print(pairs)) == pairs && Clean(Print(pairs))
  {
    PrintClean(pairs);
    if pairs == [] {
      SplitAbsent([], AMPERSAND);
      assert PairsOf([[]]) == [] + PairsOf([[]][1..]);
    } else {
      SplitPrinted(pairs);
      PairsOfEncoded(pairs);
    }
  }

  /** All names come before `name`. */
  predicate AllBefore(m: Multimap, name: Bytes) { forall i :: 0 <= i < |m| ==> Less(m[i].name, name) }

  lemma {:induction false} PushLast(m: Multimap, name: Bytes, value: Bytes)
    requires AllBefore(m, name)
    ensures Push(m, name, value) == m + [Entry(name, [value])]
  {
    if m != [] {
      PushLast(m[1..], name, value);
      LessTotal(m[0].name, name);
      assert m == [m[0]] + m[1..];
    }
  }

  lemma {:induction false} PushOntoLast(m: Multimap, name: Bytes, values: seq<Bytes>, value: Bytes)
    requires AllBefore(m, name)
    ensures Push(m + [Entry(name, values)], name, value) == m + [Entry(name, values + [value])]
  {
    var whole := m + [Entry(name, values)];
    if m == [] {
      assert whole[1..] == [];
    } else {
      PushOntoLast(m[1..], name, values, value);
      LessTotal(m[0].name, name);
      assert whole[1..] == m[1..] + [Entry(name, values)];
      assert m == [m[0]] + m[1..];
    }
  }

  lemma {:induction false} PushRepeated(m: Multimap, name: Bytes, first: seq<Bytes>, more: seq<Bytes>)
    requires AllBefore(m, name)
    ensures PushPairs(m + [Entry(name, first)], Repeated(name, more)) == m + [Entry(name, first + more)]
    decreases |more|
  {
    if more == [] {
      assert first + more == first;
    } else {
      PushOntoLast(m, name, first, more[0]);
      PushRepeated(m, name, first + [more[0]], more[1..]);
      assert Repeated(name, more)[1..] == Repeated(name, more[1..]);
      assert first + [more[0]] + more[1..] == first + more;
    }
  }

  /** Pushing all pairs of one entry behind smaller names appends the entry. */
  lemma PushEntry(before: Multimap, e: Entry)
    requires AllBefore(before, e.name) && e.values != []
    ensures PushPairs(before, Repeated(e.name, e.values)) == before + [e]
  {
    var pairs := Repeated(e.name, e.values);
    PushLast(before, e.name, e.values[0]);
    PushRepeated(before, e.name, [e.values[0]], e.values[1..]);
    assert pairs[1..] == Repeated(e.name, e.values[1..]);
    assert [e.values[0]] + e.values[1..] == e.values;
  }

  lemma SplitAscending(before: Multimap, e: Entry, after: Multimap)
    requires Ascending(before + [e] + after)
    ensures AllBefore(before, e.name)
  {
    var m := before + [e] + after;
    assert m[|before|] == e;
    assert forall i :: 0 <= i < |before| ==> m[i] == before[i];
  }

  /** Regrouping a map's pairs after the entries before it restores its entries. */
  lemma {:induction false} GroupFlatten(before: Multimap, m: Multimap)
    requires Ascending(before + m) && NonEmptyLists(m)
    ensures PushPairs(before, Flatten(m)) == before + m
    decreases |m|
  {
    if m == [] {
      assert before + m == before;
    } else {
      var (e, rest) := (m[0], m[1..]);
      assert before + m == before + [e] + rest;
      SplitAscending(before, e, rest);
      PushPairsConcat(before, Repeated(e.name, e.values), Flatten(rest));
      PushEntry(before, e);
      GroupFlatten(before + [e], rest);
    }
  }

  predicate TextMap(m: Multimap) {
    forall i :: 0 <= i < |m| ==>
      ValidUtf8(m[i].name) && forall j :: 0 <= j < |m[i].values| ==> ValidUtf8(m[i].values[j])
  }

  lemma {:induction false} FlattenText(m: Multimap)
    requires TextMap(m)
    ensures TextPairs(Flatten(m))
  {
    if m != [] {
      FlattenText(m[1..]);
    }
  }

  /** Parsing what is printed for a multimap of texts gives the multimap back. */
  lemma QueryRoundTrip(m: Multimap)
    requires Ascending(m) && NonEmptyLists(m) && TextMap(m)
    ensures QueryOf(Some(Print(Flatten(m)))) == Some(m)
  {
    FlattenText(m);
    PrintFormPairs(Flatten(m));
    assert [] + m == m;
    GroupFlatten([], m);
  }

  lemma {:induction false} ParsedText(pieces: seq<Bytes>)
    ensures TextPairs(PairsOf(pieces))
  {
    if pieces != [] {
      ParsedText(pieces[1..]);
      LossyValid(Decode(PlusToSpace(RawPair(pieces[0]).0)));
      LossyValid(Decode(PlusToSpace(RawPair(pieces[0]).1)));
    }
  }

  lemma TextByBag(p: Pairs, q: Pairs)
    requires multiset(p) == multiset(q) && TextPairs(p)
    ensures TextPairs(q)
  {
    forall i | 0 <= i < |q|
      ensures ValidUtf8(q[i].0) && ValidUtf8(q[i].1)
    {
      assert q[i] in multiset(p);
      var k :| 0 <= k < |p| && p[k] == q[i];
    }
  }

  /**
   The typed decoder of a parsed query reads its pairs stably sorted by name,
   all of them, from text that passes the same strict checks.
   */
  lemma DecoderSeesSortedPairs(text: Bytes)
    requires QueryOf(Some(text)).Some?
    ensures var emitted := Print(Flatten(QueryOf(Some(text)).value));
            && PercentOk(emitted) && ValidUtf8(Decode(emitted))
            && multiset(FormPairs(emitted)) == multiset(FormPairs(text))
            && NamesSorted(FormPairs(emitted))
            && forall x :: Only(FormPairs(emitted), x) == Only(FormPairs(text), x)
  {
    var pairs := FormPairs(text);
    var sorted := Flatten(Grouped(pairs));
    ParsedText(Split(text, AMPERSAND));
    ReemittedAll([], pairs);
    TextByBag(pairs, sorted);
    PrintFormPairs(sorted);
    forall x
      ensures Only(sorted, x) == Only(pairs, x)
    {
      ReemittedStably(pairs, x);
    }
    ReemittedStably(pairs, []);
  }

  // ------------------------------------------------------- triples on their own terms

  /** What percent-encoded text is written with: a byte, or a triple with digits in either case. */
  datatype Atom = Plain(b: Byte) | Hex(high: nat, low: nat, highUpper: bool, lowUpper: bool)

  predicate AtomOk(a: Atom) { if a.Plain? then a.b != PERCENT else a.high < 16 && a.low < 16 }

  predicate AtomsOk(atoms: seq<Atom>) { forall i :: 0 <= i < |atoms| ==> AtomOk(atoms[i]) }

  function HexText(v: nat, upper: bool): Byte
    requires v < 16
  {
    (if upper then "0123456789ABCDEF"[v] else "0123456789abcdef"[v]) as int
  }

  function Written(a: Atom): Bytes
    requires AtomOk(a)
  {
    if a.Plain? then [a.b] else ['%' as int, HexText(a.high, a.highUpper), HexText(a.low, a.lowUpper)]
  }

  function WrittenAll(atoms: seq<Atom>): Bytes
    requires AtomsOk(atoms)
  {
    if atoms == [] then [] else Written(atoms[0]) + WrittenAll(atoms[1..])
  }

  function Meant(a: Atom): Byte
    requires AtomOk(a)
  {
    if a.Plain? then a.b else 16 * a.high + a.low
  }

  function MeantAll(atoms: seq<Atom>): Bytes
    requires AtomsOk(atoms)
  {
    if atoms == [] then [] else [Meant(atoms[0])] + MeantAll(atoms[1..])
  }

  /** In a form a plain '+' means a space. */
  function FormMeant(atoms: seq<Atom>): Bytes
    requires AtomsOk(atoms)
  {
    if atoms == [] then []
    else [if atoms[0] == Plain('+' as int) then ' ' as int else Meant(atoms[0])] + FormMeant(atoms[1..])
  }

  /** Hex digits are those of the two tables, with the values of their places. */
  lemma HexExact(b: Byte) returns (v: nat, upper: bool)
    requires HexDigit(b)
    ensures v < 16 && HexText(v, upper) == b && HexValue(b) == v
  {
    v, upper := HexValue(b), b <= 0x46;
    HexTables(v);
  }

  lemma HexTables(v: nat)
    requires v < 16
    ensures HexText(v, true) == (if v < 10 then 0x30 + v else 0x41 + v - 10)
    ensures HexText(v, false) == (if v < 10 then 0x30 + v else 0x61 + v - 10)
    ensures HexDigit(HexText(v, true)) && HexValue(HexText(v, true)) == v
    ensures HexDigit(HexText(v, false)) && HexValue(HexText(v, false)) == v
  {
  }

  lemma AtomFront(a: Atom, rest: Bytes)
    requires AtomOk(a) && PercentOk(rest)
    ensures PercentOk(Written(a) + rest) && Decode(Written(a) + rest) == [Meant(a)] + Decode(rest)
    ensures PlusToSpace(Written(a)) == if a == Plain(PLUS) then [SPACE] else Written(a)
  {
    if a.Plain? {
      ByteFront(a.b, rest);
    } else {
      HexWritten(a);
      TripleFront(Written(a), rest);
    }
  }

  lemma HexWritten(a: Atom)
    requires AtomOk(a) && a.Hex?
    ensures |Written(a)| == 3 && Triple(Written(a)) && Decode(Written(a)) == [Meant(a)]
    ensures PlusToSpace(Written(a)) == Written(a)
  {
    HexTables(a.high);
    HexTables(a.low);
    assert Written(a)[3..] == [];
  }

  /** Text written with atoms passes the check and decodes to what they mean. */
  lemma {:induction false} DecodeExact(atoms: seq<Atom>)
    requires AtomsOk(atoms)
    ensures PercentOk(WrittenAll(atoms)) && Decode(WrittenAll(atoms)) == MeantAll(atoms)
  {
    if atoms != [] {
      DecodeExact(atoms[1..]);
      AtomFront(atoms[0], WrittenAll(atoms[1..]));
    }
  }

  /** In a form it decodes to what they mean there. */
  lemma {:induction false} FormExact(atoms: seq<Atom>)
    requires AtomsOk(atoms)
    ensures PercentOk(PlusToSpace(WrittenAll(atoms))) && Decode(PlusToSpace(WrittenAll(atoms))) == FormMeant(atoms)
  {
    if atoms != [] {
      var (a, rest) := (atoms[0], WrittenAll(atoms[1..]));
      FormExact(atoms[1..]);
      PlusConcat(Written(a), rest);
      AtomFront(a, PlusToSpace(rest));
      AtomFront(Plain(SPACE), PlusToSpace(rest));
      assert PLUS == '+' as int && SPACE == ' ' as int;
    }
  }

  lemma {:induction false} AtomsOf(s: Bytes) returns (atoms: seq<Atom>)
    requires PercentOk(s)
    ensures AtomsOk(atoms) && WrittenAll(atoms) == s
    decreases |s|
  {
    atoms := [];
    if s != [] {
      var a, n := Plain(s[0]), 1;
      if s[0] == PERCENT {
        var high, highUpper := HexExact(s[1]);
        var low, lowUpper := HexExact(s[2]);
        a, n := Hex(high, low, highUpper, lowUpper), 3;
      }
      var rest := AtomsOf(s[n..]);
      atoms := [a] + rest;
      assert atoms[1..] == rest && s == Written(a) + s[n..];
    }
  }

  /** The check accepts exactly the text that can be written with atoms. */
  lemma PercentExact(s: Bytes)
    ensures PercentOk(s) <==> exists atoms :: AtomsOk(atoms) && WrittenAll(atoms) == s
  {
    if PercentOk(s) {
      var atoms := AtomsOf(s);
    }
    if atoms :| AtomsOk(atoms) && WrittenAll(atoms) == s {
      DecodeExact(atoms);
    }
  }

  // ---------------------------------------------------------- what a query says

  /** A piece that spells this pair: a name, and after the first '=', if there is one, a value. */
  ghost predicate SpellsPair(piece: Bytes, name: Bytes, value: Bytes) {
    exists n: seq<Atom>, v: Option<seq<Atom>> :: PairWritten(piece, n, v, name, value)
  }

  predicate PairWritten(piece: Bytes, n: seq<Atom>, v: Option<seq<Atom>>, name: Bytes, value: Bytes) {
    && AtomsOk(n) && Plain('=' as int) !in n && name == FormMeant(n)
    && match v
       case None => piece == WrittenAll(n) && value == []
       case Some(w) => AtomsOk(w) && piece == WrittenAll(n) + ['=' as int] + WrittenAll(w) && value == FormMeant(w)
  }

  lemma {:induction false} PlainShows(atoms: seq<Atom>, b: Byte)
    requires AtomsOk(atoms) && Plain(b) in atoms
    ensures b in WrittenAll(atoms)
  {
    if atoms[0] != Plain(b) {
      PlainShows(atoms[1..], b);
    }
  }

  /** A part of a query that passed the checks, read as a form reads it. */
  lemma ComponentSpelled(s: Bytes) returns (atoms: seq<Atom>)
    requires Clean(s)
    ensures AtomsOk(atoms) && WrittenAll(atoms) == s && Component(s) == FormMeant(atoms)
  {
    atoms := AtomsOf(s);
    FormExact(atoms);
    CleanComponent(s);
  }

  lemma PieceSpelled(piece: Bytes)
    requires Clean(piece)
    ensures SpellsPair(piece, Component(RawPair(piece).0), Component(RawPair(piece).1))
  {
    var (name, value) := RawPair(piece);
    SplitOnceParts(piece, EQUALS);
    assert EQUALS == '=' as int;
    if EQUALS in piece {
      CleanCut(name, EQUALS, value);
      var n := ComponentSpelled(name);
      var w := ComponentSpelled(value);
      NoEquals(n, name);
      assert PairWritten(piece, n, Some(w), Component(name), Component(value));
    } else {
      var n := ComponentSpelled(piece);
      NoEquals(n, piece);
      assert PairWritten(piece, n, None, Component(name), Component(value));
    }
  }

  lemma NoEquals(atoms: seq<Atom>, text: Bytes)
    requires AtomsOk(atoms) && WrittenAll(atoms) == text && EQUALS !in text
    ensures Plain(EQUALS) !in atoms
  {
    if Plain(EQUALS) in atoms {
      PlainShows(atoms, EQUALS);
    }
  }

  /** The pieces that are not empty, in order. */
  function Filled(pieces: seq<Bytes>): seq<Bytes> {
    if pieces == [] then [] else (if pieces[0] == [] then [] else [pieces[0]]) + Filled(pieces[1..])
  }

  /** One pair per non-empty piece, in order, each the pair its piece spells. */
  ghost predicate Says(text: Bytes, pairs: Pairs) {
    var ampersand: Byte := '&' as int;
    var pieces := Filled(Split(text, ampersand));
    |pairs| == |pieces| && forall i :: 0 <= i < |pairs| ==> SpellsPair(pieces[i], pairs[i].0, pairs[i].1)
  }

  lemma {:induction false} PiecesSpelled(pieces: seq<Bytes>)
    requires forall p :: p in pieces ==> Clean(p)
    ensures var (pairs, filled) := (PairsOf(pieces), Filled(pieces));
            |pairs| == |filled| && forall i :: 0 <= i < |pairs| ==> SpellsPair(filled[i], pairs[i].0, pairs[i].1)
  {
    if pieces != [] {
      PiecesSpelled(pieces[1..]);
      assert pieces[0] in pieces;
      PieceSpelled(pieces[0]);
      assert forall p :: p in pieces[1..] ==> p in pieces;
      var (rest, filled) := (PairsOf(pieces[1..]), Filled(pieces[1..]));
      var (pairs, all) := (PairsOf(pieces), Filled(pieces));
      if pieces[0] != [] {
        forall i | 0 <= i < |pairs|
          ensures SpellsPair(all[i], pairs[i].0, pairs[i].1)
        {
          if i > 0 {
            assert pairs[i] == rest[i - 1] && all[i] == filled[i - 1];
          }
        }
      } else {
        assert pairs == rest && all == filled;
      }
    }
  }

  /** The map has exactly the names given, each once and in order of its bytes, with its values as given. */
  ghost predicate Groups(m: Multimap, pairs: Pairs) {
    && (forall i, j :: 0 <= i < j < |m| ==> Precedes(m[i].name, m[j].name))
    && (forall i :: 0 <= i < |m| ==> m[i].values != [] && m[i].values == Only(pairs, m[i].name))
    && (forall j :: 0 <= j < |pairs| ==> exists i :: 0 <= i < |m| && m[i].name == pairs[j].0)
  }

  /** Byte order: at the first place where they differ the one ends or has the smaller byte. */
  ghost predicate Precedes(a: Bytes, b: Bytes) {
    exists k :: PrecedesAt(a, b, k)
  }

  predicate PrecedesAt(a: Bytes, b: Bytes, k: int) {
    0 <= k <= |a| && k < |b| && a[..k] == b[..k] && (k == |a| || a[k] < b[k])
  }

  lemma FirstAgree(a: Bytes, b: Bytes, k: int)
    requires PrecedesAt(a, b, k) && k > 0
    ensures a != [] && b != [] && a[0] == b[0]
  {
    assert a[..k][0] == b[..k][0];
  }

  lemma {:induction false} LessExact(a: Bytes, b: Bytes)
    ensures Less(a, b) <==> Precedes(a, b)
  {
    if a != [] && b != [] && a[0] == b[0] {
      LessExact(a[1..], b[1..]);
      if k :| PrecedesAt(a[1..], b[1..], k) {
        assert a[..k + 1] == [a[0]] + a[1..][..k] && b[..k + 1] == [b[0]] + b[1..][..k];
        assert PrecedesAt(a, b, k + 1);
      }
      if k :| PrecedesAt(a, b, k) {
        assert a[1..][..k - 1] == a[..k][1..] && b[1..][..k - 1] == b[..k][1..];
        assert PrecedesAt(a[1..], b[1..], k - 1);
      }
    } else {
      if Less(a, b) {
        assert PrecedesAt(a, b, 0);
      }
      if k :| PrecedesAt(a, b, k) {
        if k > 0 {
          FirstAgree(a, b, k);
        }
      }
    }
  }

  lemma {:induction false} FlattenAt(m: Multimap, i: nat)
    requires Ascending(m) && i < |m|
    ensures Only(Flatten(m), m[i].name) == m[i].values
  {
    var (first, rest) := (m[0], m[1..]);
    assert m == [first] + rest;
    OnlyCons(first, rest, m[i].name);
    if i == 0 {
      OnlyAbsent(rest, first.name);
    } else {
      LessIrreflexive(m[i].name);
      FlattenAt(rest, i - 1);
      assert Less(first.name, m[i].name);
      assert [] + m[i].values == m[i].values;
    }
  }

  lemma {:induction false} OnlyOf(pairs: Pairs, j: nat)
    requires j < |pairs|
    ensures Only(pairs, pairs[j].0) != []
  {
    if j > 0 {
      OnlyOf(pairs[1..], j - 1);
    }
  }

  lemma {:induction false} OnlySome(m: Multimap, name: Bytes)
    requires Only(Flatten(m), name) != []
    ensures exists i :: 0 <= i < |m| && m[i].name == name
  {
    if m != [] {
      assert m == [m[0]] + m[1..];
      OnlyCons(m[0], m[1..], name);
      if m[0].name != name {
        OnlySome(m[1..], name);
        var i :| 0 <= i < |m[1..]| && m[1..][i].name == name;
        assert m[i + 1].name == name;
      }
    }
  }

  lemma GroupedExact(pairs: Pairs)
    ensures Groups(Grouped(pairs), pairs)
  {
    var m := Grouped(pairs);
    ReemittedStably(pairs, []);
    forall i, j | 0 <= i < j < |m|
      ensures Precedes(m[i].name, m[j].name)
    {
      LessExact(m[i].name, m[j].name);
    }
    forall i | 0 <= i < |m|
      ensures m[i].values != [] && m[i].values == Only(pairs, m[i].name)
    {
      ReemittedStably(pairs, m[i].name);
      FlattenAt(m, i);
    }
    forall j | 0 <= j < |pairs|
      ensures exists i :: 0 <= i < |m| && m[i].name == pairs[j].0
    {
      OnlyOf(pairs, j);
      ReemittedStably(pairs, pairs[j].0);
      OnlySome(m, pairs[j].0);
    }
  }

  /** A query that passes the checks is read as the grouping of the pairs it says; any other is refused. */
  lemma ParsedExactly(text: Bytes)
    ensures QueryOf(Some(text)).Some? <==> PercentOk(text) && ValidUtf8(Decode(text))
    ensures QueryOf(Some(text)).Some? ==>
              exists pairs :: Says(text, pairs) && Groups(QueryOf(Some(text)).value, pairs)
  {
    if PercentOk(text) && ValidUtf8(Decode(text)) {
      CleanPieces(text);
      PiecesSpelled(Split(text, AMPERSAND));
      assert Says(text, FormPairs(text));
      GroupedExact(FormPairs(text));
    }
  }
}
