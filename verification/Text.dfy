/**
 The string operations of the Rust standard library that the adapter's small
 grammars are written with: splitting at a separator, trimming, joining and
 ASCII case folding. Header text is modelled with one char per byte.

 Trimming is modelled on text that has already been accepted as visible ASCII
 or tab, so the only white space it can meet is the space and the tab.
 */
module Text {

  datatype Option<+T> = None | Some(value: T)

  // ---------------------------------------------------------------- splitting

  function Join<T>(parts: seq<seq<T>>, sep: seq<T>): seq<T> {
    if |parts| == 0 then []
    else if |parts| == 1 then parts[0]
    else parts[0] + sep + Join(parts[1..], sep)
  }

  /** Position of the first `c`, or the length when there is none. */
  function IndexOf<T(==)>(s: seq<T>, c: T): (i: nat)
    ensures i <= |s|
  {
    if s == [] || s[0] == c then 0 else 1 + IndexOf(s[1..], c)
  }

  /** The text before and after the first `c`, when there is one. */
  function SplitOnce<T(==)>(s: seq<T>, c: T): Option<(seq<T>, seq<T>)> {
    var i := IndexOf(s, c);
    if i < |s| then Some((s[..i], s[i + 1..])) else None
  }

  /** Every part between two separators, in order; the empty text has one empty part. */
  function Split<T(==)>(s: seq<T>, sep: T): (parts: seq<seq<T>>)
    ensures |parts| > 0
    decreases |s|
  {
    var i := IndexOf(s, sep);
    if i == |s| then [s] else [s[..i]] + Split(s[i + 1..], sep)
  }

  lemma {:induction false} IndexOfFirst<T>(s: seq<T>, c: T)
    ensures forall k :: 0 <= k < IndexOf(s, c) ==> s[k] != c
    ensures IndexOf(s, c) < |s| ==> s[IndexOf(s, c)] == c
  {
    if s != [] && s[0] != c {
      IndexOfFirst(s[1..], c);
    }
  }

  lemma SplitOnceParts<T>(s: seq<T>, c: T)
    ensures var r := SplitOnce(s, c);
            && (r.None? <==> c !in s)
            && (r.Some? ==> c !in r.value.0 && s == r.value.0 + [c] + r.value.1)
  {
    IndexOfFirst(s, c);
  }

  lemma {:induction false} IndexOfHead<T>(head: seq<T>, c: T, tail: seq<T>)
    requires c !in head
    ensures IndexOf(head + [c] + tail, c) == |head|
  {
    var s := head + [c] + tail;
    if head != [] {
      IndexOfHead(head[1..], c, tail);
      assert s[1..] == head[1..] + [c] + tail;
      assert s[0] in head;
    }
  }

  lemma Cut<T>(head: seq<T>, c: T, tail: seq<T>)
    ensures (head + [c] + tail)[..|head|] == head
    ensures (head + [c] + tail)[|head| + 1..] == tail
  {
  }

  lemma SplitOnceUnique<T>(head: seq<T>, c: T, tail: seq<T>)
    requires c !in head
    ensures SplitOnce(head + [c] + tail, c) == Some((head, tail))
  {
    IndexOfHead(head, c, tail);
    Cut(head, c, tail);
  }

  lemma SplitAbsent<T>(s: seq<T>, sep: T)
    requires sep !in s
    ensures Split(s, sep) == [s]
  {
    IndexOfFirst(s, sep);
  }

  lemma SplitFirst<T>(head: seq<T>, sep: T, tail: seq<T>)
    requires sep !in head
    ensures Split(head + [sep] + tail, sep) == [head] + Split(tail, sep)
  {
    IndexOfHead(head, sep, tail);
    Cut(head, sep, tail);
  }

  lemma Associative<T>(a: seq<T>, b: seq<T>, c: seq<T>)
    ensures a + (b + c) == (a + b) + c
  {
  }

  lemma {:induction false} SplitConcat<T>(a: seq<T>, sep: T, b: seq<T>)
    ensures Split(a + [sep] + b, sep) == Split(a, sep) + Split(b, sep)
    decreases |a|
  {
    SplitOnceParts(a, sep);
    var cut := SplitOnce(a, sep);
    if cut.None? {
      SplitAbsent(a, sep);
      SplitFirst(a, sep, b);
    } else {
      var (head, tail) := cut.value;
      var rest := tail + [sep] + b;
      SplitFirst(head, sep, tail);
      SplitFirst(head, sep, rest);
      SplitConcat(tail, sep, b);
      assert a + [sep] + b == head + [sep] + rest;
      Associative([head], Split(tail, sep), Split(b, sep));
    }
  }

  /** Parts hold no separator and no char the text did not hold. */
  lemma {:induction false} SplitParts<T>(s: seq<T>, sep: T)
    ensures forall p :: p in Split(s, sep) ==> sep !in p
    ensures forall p, c :: p in Split(s, sep) && c in p ==> c in s
    decreases |s|
  {
    IndexOfFirst(s, sep);
    var i := IndexOf(s, sep);
    if i < |s| {
      SplitParts(s[i + 1..], sep);
    }
  }

  /** Splitting undoes joining when no part holds the separator. */
  lemma {:induction false} SplitJoin<T>(parts: seq<seq<T>>, sep: T, pad: seq<T>)
    requires |parts| > 0
    requires forall p :: p in parts ==> sep !in p
    requires sep !in pad
    ensures Split(Join(parts, [sep] + pad), sep) == [parts[0]] + Padded(parts[1..], pad)
  {
    if |parts| == 1 {
      SplitAbsent(parts[0], sep);
    } else {
      var tail := Join(parts[1..], [sep] + pad);
      assert Join(parts, [sep] + pad) == parts[0] + [sep] + (pad + tail);
      SplitConcat(parts[0], sep, pad + tail);
      SplitAbsent(parts[0], sep);
      SplitJoin(parts[1..], sep, pad);
      SplitPad(pad, tail, sep);
      assert Padded(parts[1..], pad) == [pad + parts[1]] + Padded(parts[2..], pad) by {
        assert parts[1..][1..] == parts[2..];
      }
      assert parts[1..][1..] == parts[2..];
    }
  }

  function Padded<T>(parts: seq<seq<T>>, pad: seq<T>): (r: seq<seq<T>>)
    ensures |r| == |parts|
    ensures forall i :: 0 <= i < |parts| ==> r[i] == pad + parts[i]
  {
    seq(|parts|, i requires 0 <= i < |parts| => pad + parts[i])
  }

  lemma PadOne<T>(part: seq<T>, pad: seq<T>)
    ensures Padded([part], pad) == [pad + part]
  {
  }

  lemma Headed<T>(head: T, rest: seq<T>)
    ensures ([head] + rest)[0] == head && ([head] + rest)[1..] == rest
  {
  }

  lemma SplitPad<T>(pad: seq<T>, s: seq<T>, sep: T)
    requires sep !in pad
    ensures Split(pad + s, sep) == [pad + Split(s, sep)[0]] + Split(s, sep)[1..]
  {
    SplitOnceParts(s, sep);
    var cut := SplitOnce(s, sep);
    if cut.None? {
      SplitAbsent(s, sep);
      SplitAbsent(pad + s, sep);
    } else {
      var (head, tail) := cut.value;
      SplitFirst(head, sep, tail);
      SplitFirst(pad + head, sep, tail);
      assert pad + s == (pad + head) + [sep] + tail;
      Headed(head, Split(tail, sep));
      Headed(pad + head, Split(tail, sep));
    }
  }

  // ----------------------------------------------------------------- trimming

  predicate Blank(c: char) { c == ' ' || c == '\t' }

  predicate AllBlank(s: string) { forall i :: 0 <= i < |s| ==> Blank(s[i]) }

  function TrimStart(s: string): string {
    if s != "" && Blank(s[0]) then TrimStart(s[1..]) else s
  }

  function TrimEnd(s: string): string {
    if s != "" && Blank(s[|s| - 1]) then TrimEnd(s[..|s| - 1]) else s
  }

  function Trim(s: string): string { TrimEnd(TrimStart(s)) }

  /** A text that trimming leaves alone. */
  predicate Trimmed(s: string) {
    s == "" || (!Blank(s[0]) && !Blank(s[|s| - 1]))
  }

  lemma {:induction false} TrimStartOf(pad: string, s: string)
    requires AllBlank(pad) && (s == "" || !Blank(s[0]))
    ensures TrimStart(pad + s) == s
  {
    if pad != "" {
      TrimStartOf(pad[1..], s);
      assert (pad + s)[1..] == pad[1..] + s;
    } else {
      assert pad + s == s;
    }
  }

  lemma {:induction false} TrimEndOf(s: string, pad: string)
    requires AllBlank(pad) && (s == "" || !Blank(s[|s| - 1]))
    ensures TrimEnd(s + pad) == s
  {
    if pad != "" {
      TrimEndOf(s, pad[..|pad| - 1]);
      assert (s + pad)[..|s + pad| - 1] == s + pad[..|pad| - 1];
    } else {
      assert s + pad == s;
    }
  }

  /** Trimming removes exactly the blank margins. */
  lemma TrimOf(left: string, s: string, right: string)
    requires AllBlank(left) && AllBlank(right) && Trimmed(s)
    ensures Trim(left + s + right) == s
  {
    if s == "" {
      assert left + s + right == (left + right) + "";
      TrimStartOf(left + right, "");
    } else {
      assert left + s + right == left + (s + right);
      TrimStartOf(left, s + right);
      TrimEndOf(s, right);
    }
  }

  lemma {:induction false} TrimStartMargin(s: string) returns (pad: string)
    ensures AllBlank(pad) && s == pad + TrimStart(s)
    ensures TrimStart(s) == "" || !Blank(TrimStart(s)[0])
  {
    if s != "" && Blank(s[0]) {
      var rest := TrimStartMargin(s[1..]);
      pad := [s[0]] + rest;
      assert s == [s[0]] + s[1..];
      Associative([s[0]], rest, TrimStart(s[1..]));
    } else {
      pad := "";
    }
  }

  lemma {:induction false} TrimEndMargin(s: string) returns (pad: string)
    ensures AllBlank(pad) && s == TrimEnd(s) + pad
    ensures TrimEnd(s) == "" || !Blank(TrimEnd(s)[|TrimEnd(s)| - 1])
  {
    if s != "" && Blank(s[|s| - 1]) {
      var rest := TrimEndMargin(s[..|s| - 1]);
      pad := rest + [s[|s| - 1]];
      assert s == s[..|s| - 1] + [s[|s| - 1]];
      Associative(TrimEnd(s[..|s| - 1]), rest, [s[|s| - 1]]);
    } else {
      pad := "";
    }
  }

  /** The margins that trimming removed. */
  lemma TrimMargins(s: string) returns (left: string, right: string)
    ensures AllBlank(left) && AllBlank(right)
    ensures s == left + Trim(s) + right && Trimmed(Trim(s))
  {
    left := TrimStartMargin(s);
    right := TrimEndMargin(TrimStart(s));
    assert s == left + (Trim(s) + right) == left + Trim(s) + right;
    if Trim(s) != "" {
      assert TrimStart(s)[0] == Trim(s)[0];
    }
  }

  lemma TrimFixes(s: string)
    requires Trimmed(s)
    ensures Trim(s) == s
  {
    TrimOf("", s, "");
    assert "" + s + "" == s;
  }

  lemma TrimPadLeft(pad: string, s: string)
    requires AllBlank(pad)
    ensures Trim(pad + s) == Trim(s)
  {
    var l, r := TrimMargins(s);
    assert pad + s == (pad + l) + Trim(s) + r;
    TrimOf(pad + l, Trim(s), r);
  }

  lemma TrimKeepsChars(s: string)
    ensures forall c :: c in Trim(s) ==> c in s
  {
    var l, r := TrimMargins(s);
  }

  lemma TrimmedOf(s: string)
    ensures Trimmed(Trim(s))
  {
    var l, r := TrimMargins(s);
  }

  // ------------------------------------------------------------- case folding

  function LowerChar(c: char): char {
    if 'A' <= c <= 'Z' then (c as int + 32) as char else c
  }

  function Lower(s: string): (r: string)
    ensures |r| == |s|
    ensures forall i :: 0 <= i < |s| ==> r[i] == LowerChar(s[i])
  {
    seq(|s|, i requires 0 <= i < |s| => LowerChar(s[i]))
  }

  predicate EqIgnoreCase(a: string, b: string) { Lower(a) == Lower(b) }

  // ------------------------------------------------------- character classes

  /** Text a header value may be read as: visible ASCII, space and tab. */
  predicate VisibleChar(c: char) { c == '\t' || ' ' <= c <= '~' }

  predicate Visible(s: string) { forall i :: 0 <= i < |s| ==> VisibleChar(s[i]) }

  /** Bytes a header value may hold: no control except tab. */
  predicate HeaderByte(c: char) { c == '\t' || (' ' <= c && c != '\U{7F}') }

  predicate Encodable(s: string) { forall i :: 0 <= i < |s| ==> HeaderByte(s[i]) }

  predicate Digit(c: char) { '0' <= c <= '9' }

  predicate AllDigits(s: string) { forall i :: 0 <= i < |s| ==> Digit(s[i]) }

  predicate TokenChar(c: char) {
    || Digit(c) || 'a' <= c <= 'z' || 'A' <= c <= 'Z'
    || c in "!#$%&'*+-.^_`|~"
  }

  predicate Token(s: string) { s != "" && forall i :: 0 <= i < |s| ==> TokenChar(s[i]) }

  // --------------------------------------------------------- decimal numerals

  function DigitChar(d: nat): char
    requires d < 10
  {
    (d + '0' as int) as char
  }

  function Decimal(n: nat): (s: string)
    ensures s != "" && AllDigits(s)
  {
    if n < 10 then [DigitChar(n)] else Decimal(n / 10) + [DigitChar(n % 10)]
  }

  function DecimalValue(s: string): nat
    requires AllDigits(s)
  {
    if s == "" then 0
    else
      var last := s[|s| - 1];
      assert Digit(last);
      10 * DecimalValue(s[..|s| - 1]) + (last as int - '0' as int)
  }

  lemma {:induction false} DecimalRoundTrip(n: nat)
    ensures DecimalValue(Decimal(n)) == n
  {
    if n < 10 {
      assert Decimal(n)[..0] == "";
    } else {
      DecimalRoundTrip(n / 10);
      var s := Decimal(n);
      assert s[..|s| - 1] == Decimal(n / 10);
    }
  }

  function Power10(n: nat): nat { if n == 0 then 1 else 10 * Power10(n - 1) }

  /** The first digit of a numeral weighs a power of ten. */
  lemma {:induction false} FirstDigit(c: char, rest: string)
    requires Digit(c) && AllDigits(rest)
    ensures AllDigits([c] + rest)
    ensures DecimalValue([c] + rest) == (c as int - '0' as int) * Power10(|rest|) + DecimalValue(rest)
  {
    var s := [c] + rest;
    if rest == "" {
      assert s[..0] == "";
    } else {
      var front := rest[..|rest| - 1];
      FirstDigit(c, front);
      assert s[..|s| - 1] == [c] + front;
    }
  }

  /** No numeral but zero's starts with a zero. */
  lemma {:induction false} NoLeadingZero(n: nat)
    ensures Decimal(n)[0] == '0' <==> n == 0
    ensures n == 0 ==> Decimal(n) == "0"
  {
    if n >= 10 {
      NoLeadingZero(n / 10);
    }
  }

  // ------------------------------------------------- the classes on their own terms

  /** Code points of the blanks, of text that is readable, and of bytes a header value may hold. */
  lemma CodesExact(c: char)
    ensures Blank(c) <==> c as int in {9, 32}
    ensures VisibleChar(c) <==> c as int == 9 || 32 <= c as int < 127
    ensures HeaderByte(c) <==> c as int == 9 || (32 <= c as int && c as int != 127)
    ensures Digit(c) <==> c in "0123456789"
  {
  }

  /** Section 5.6.2 of RFC 9110: a token holds visible characters other than the delimiters. */
  lemma TokenCharExact(c: char)
    ensures TokenChar(c) <==> '!' <= c <= '~' && c !in "\"(),/:;<=>?@[\\]{}"
  {
  }

  /** The same character, or the same letter in upper and lower case. */
  predicate SameLetter(a: char, b: char) {
    || a == b
    || ('A' <= a <= 'Z' && b as int - a as int == 32)
    || ('A' <= b <= 'Z' && a as int - b as int == 32)
  }

  /** Texts are alike when they agree letter by letter. */
  lemma AlikeExact(a: string, b: string)
    ensures EqIgnoreCase(a, b) <==> |a| == |b| && forall i :: 0 <= i < |a| ==> SameLetter(a[i], b[i])
  {
    if EqIgnoreCase(a, b) {
      forall i | 0 <= i < |a|
        ensures SameLetter(a[i], b[i])
      {
        assert LowerChar(a[i]) == Lower(a)[i] == Lower(b)[i] == LowerChar(b[i]);
      }
    }
  }
}
