/** UTF-8 as section 4 of RFC 3629 defines it, and the standard library's lossy decoder. */
module Utf8 {
  import opened Text

  type Byte = b: int | 0 <= b < 256

  predicate Continuation(b: Byte) { 0x80 <= b <= 0xBF }

  predicate Within(b: Byte, low: int, high: int) { low <= b <= high }

  /** The second byte a multi-byte lead allows. */
  predicate SecondOk(lead: Byte, second: Byte) {
    if lead == 0xE0 then Within(second, 0xA0, 0xBF)
    else if lead == 0xED then Within(second, 0x80, 0x9F)
    else if lead == 0xF0 then Within(second, 0x90, 0xBF)
    else if lead == 0xF4 then Within(second, 0x80, 0x8F)
    else Continuation(second)
  }

  /** Bytes a lead announces, or 0 when the byte is no lead. */
  function Announced(lead: Byte): nat {
    if lead < 0x80 then 1
    else if Within(lead, 0xC2, 0xDF) then 2
    else if Within(lead, 0xE0, 0xEF) then 3
    else if Within(lead, 0xF0, 0xF4) then 4
    else 0
  }

  /** Length of the well-formed character at the front, or 0. */
  function CharLen(s: seq<Byte>): (n: nat)
    ensures n <= |s| && n <= 4
  {
    if s == [] then 0
    else
      var n := Announced(s[0]);
      if n <= |s| && (n >= 2 ==> SecondOk(s[0], s[1])) && (n >= 3 ==> Continuation(s[2]))
         && (n >= 4 ==> Continuation(s[3]))
      then n else 0
  }

  predicate ValidUtf8(s: seq<Byte>)
    decreases |s|
  {
    s == [] || (CharLen(s) > 0 && ValidUtf8(s[CharLen(s)..]))
  }

  /** A character depends on its own bytes only. */
  lemma CharLenLocal(s: seq<Byte>, t: seq<Byte>)
    requires CharLen(s) > 0 && CharLen(s) <= |t| && s[..CharLen(s)] == t[..CharLen(s)]
    ensures CharLen(t) == CharLen(s)
  {
    var n := CharLen(s);
    assert forall i :: 0 <= i < n ==> s[i] == s[..n][i] == t[..n][i] == t[i];
  }

  lemma {:induction false} ValidConcat(a: seq<Byte>, b: seq<Byte>)
    requires ValidUtf8(a) && ValidUtf8(b)
    ensures ValidUtf8(a + b)
    decreases |a|
  {
    if a == [] {
      assert a + b == b;
    } else {
      var n := CharLen(a);
      assert (a + b)[..n] == a[..n] && (a + b)[n..] == a[n..] + b;
      CharLenLocal(a, a + b);
      ValidConcat(a[n..], b);
    }
  }

  /** The bytes after the first of a character are no ASCII. */
  lemma InsideNotAscii(s: seq<Byte>, i: nat)
    requires 0 < i < CharLen(s)
    ensures s[i] >= 0x80
  {
  }

  /** Cutting well-formed text at an ASCII byte leaves well-formed text on both sides. */
  lemma {:induction false} AsciiCut(a: seq<Byte>, c: Byte, b: seq<Byte>)
    requires c < 0x80 && ValidUtf8(a + [c] + b)
    ensures ValidUtf8(a) && ValidUtf8(b)
    decreases |a|
  {
    var s := a + [c] + b;
    if a == [] {
      assert s[0] == c && s[1..] == b;
    } else {
      var n := CharLen(s);
      assert s[|a|] == c;
      assert n <= |a| by {
        if n > |a| {
          InsideNotAscii(s, |a|);
        }
      }
      assert s[..n] == a[..n] && s[n..] == a[n..] + [c] + b;
      CharLenLocal(s, a);
      AsciiCut(a[n..], c, b);
    }
  }

  /** The same text with some ASCII bytes exchanged for ASCII bytes. */
  predicate AsciiAlike(s: seq<Byte>, t: seq<Byte>) {
    |s| == |t| && forall i :: 0 <= i < |s| ==> s[i] == t[i] || (s[i] < 0x80 && t[i] < 0x80)
  }

  lemma {:induction false} AlikeValid(s: seq<Byte>, t: seq<Byte>)
    requires ValidUtf8(s) && AsciiAlike(s, t)
    ensures ValidUtf8(t)
    decreases |s|
  {
    if s != [] {
      var n := CharLen(s);
      if s[0] < 0x80 {
        assert t[0] < 0x80;
      }
      assert forall i :: 1 <= i < n ==> s[i] == t[i] by {
        forall i | 1 <= i < n
          ensures s[i] == t[i]
        {
          InsideNotAscii(s, i);
        }
      }
      assert CharLen(t) == n;
      AlikeValid(s[n..], t[n..]);
    }
  }

  const REPLACEMENT: seq<Byte> := [0xEF, 0xBF, 0xBD]

  /** How much of an ill-formed front one replacement character stands for. */
  function BadLen(s: seq<Byte>): (n: nat)
    requires s != []
    ensures 1 <= n <= |s|
  {
    var announced := Announced(s[0]);
    if announced < 3 || |s| < 2 || !SecondOk(s[0], s[1]) then 1
    else if announced < 4 || |s| < 3 || !Continuation(s[2]) then 2
    else 3
  }

  /** Decoding that replaces every ill-formed part. */
  function Lossy(s: seq<Byte>): seq<Byte>
    decreases |s|
  {
    if s == [] then []
    else if CharLen(s) > 0 then s[..CharLen(s)] + Lossy(s[CharLen(s)..])
    else REPLACEMENT + Lossy(s[BadLen(s)..])
  }

  lemma {:induction false} LossyValid(s: seq<Byte>)
    ensures ValidUtf8(Lossy(s))
    decreases |s|
  {
    if s != [] {
      var n := CharLen(s);
      if n > 0 {
        LossyValid(s[n..]);
        CharLenLocal(s, s[..n]);
        assert s[..n][n..] == [];
        ValidConcat(s[..n], Lossy(s[n..]));
      } else {
        LossyValid(s[BadLen(s)..]);
        assert CharLen(REPLACEMENT) == 3 && REPLACEMENT[3..] == [];
        ValidConcat(REPLACEMENT, Lossy(s[BadLen(s)..]));
      }
    }
  }

  /** Lossy decoding changes nothing exactly on well-formed text. */
  lemma {:induction false} LossyExact(s: seq<Byte>)
    ensures Lossy(s) == s <==> ValidUtf8(s)
    decreases |s|
  {
    LossyValid(s);
    if ValidUtf8(s) && s != [] {
      var n := CharLen(s);
      LossyExact(s[n..]);
      assert s == s[..n] + s[n..];
    }
  }

  // ------------------------------------------------------------ scalar values

  /** Section 3 of RFC 3629: code points up to U+10FFFF without the surrogates. */
  predicate Scalar(c: nat) { c <= 0x10FFFF && !(0xD800 <= c <= 0xDFFF) }

  predicate Scalars(text: seq<nat>) { forall i :: 0 <= i < |text| ==> Scalar(text[i]) }

  /** The bits of a scalar value laid into one to four bytes, six to a continuation byte. */
  function EncodeScalar(c: nat): seq<Byte>
    requires Scalar(c)
  {
    if c < 0x80 then [c]
    else if c < 0x800 then [0xC0 + c / 64, 0x80 + c % 64]
    else if c < 0x1_0000 then [0xE0 + c / 64 / 64, 0x80 + c / 64 % 64, 0x80 + c % 64]
    else [0xF0 + c / 64 / 64 / 64, 0x80 + c / 64 / 64 % 64, 0x80 + c / 64 % 64, 0x80 + c % 64]
  }

  function EncodeText(text: seq<nat>): seq<Byte>
    requires Scalars(text)
  {
    if text == [] then [] else EncodeScalar(text[0]) + EncodeText(text[1..])
  }

  lemma ScalarIsChar(c: nat)
    requires Scalar(c)
    ensures CharLen(EncodeScalar(c)) == |EncodeScalar(c)| > 0
  {
  }

  lemma SixBits(high: nat, low: nat)
    requires low < 64
    ensures (high * 64 + low) / 64 == high && (high * 64 + low) % 64 == low
  {
  }

  /** What two, three or four bytes with these bits encode. */
  lemma TwoBytes(a: nat, b: nat)
    requires 2 <= a < 32 && b < 64
    ensures var c := a * 64 + b; Scalar(c) && EncodeScalar(c) == [0xC0 + a, 0x80 + b]
  {
    SixBits(a, b);
  }

  lemma ThreeBytes(a: nat, b: nat, d: nat)
    requires a < 16 && b < 64 && d < 64 && (a == 0 ==> b >= 0x20) && (a == 0xD ==> b < 0x20)
    ensures var c := (a * 64 + b) * 64 + d; Scalar(c) && EncodeScalar(c) == [0xE0 + a, 0x80 + b, 0x80 + d]
  {
    SixBits(a, b);
    SixBits(a * 64 + b, d);
  }

  lemma FourBytes(a: nat, b: nat, d: nat, e: nat)
    requires a <= 4 && b < 64 && d < 64 && e < 64 && (a == 0 ==> b >= 0x10) && (a == 4 ==> b < 0x10)
    ensures var c := ((a * 64 + b) * 64 + d) * 64 + e;
            Scalar(c) && EncodeScalar(c) == [0xF0 + a, 0x80 + b, 0x80 + d, 0x80 + e]
  {
    SixBits(a, b);
    SixBits(a * 64 + b, d);
    SixBits((a * 64 + b) * 64 + d, e);
  }

  /** The scalar value that a character's bytes carry. */
  lemma CharIsScalar(s: seq<Byte>) returns (c: nat)
    requires CharLen(s) > 0
    ensures Scalar(c) && s[..CharLen(s)] == EncodeScalar(c)
  {
    var n := CharLen(s);
    var lead: int := s[0];
    if n == 1 {
      c := lead;
    } else if n == 2 {
      var a, b := lead - 0xC0, s[1] as int - 0x80;
      TwoBytes(a, b);
      c := a * 64 + b;
    } else if n == 3 {
      var a, b, d := lead - 0xE0, s[1] as int - 0x80, s[2] as int - 0x80;
      ThreeBytes(a, b, d);
      c := (a * 64 + b) * 64 + d;
    } else {
      var a, b, d, e := lead - 0xF0, s[1] as int - 0x80, s[2] as int - 0x80, s[3] as int - 0x80;
      FourBytes(a, b, d, e);
      c := ((a * 64 + b) * 64 + d) * 64 + e;
    }
  }

  lemma {:induction false} TextIsValid(text: seq<nat>)
    requires Scalars(text)
    ensures ValidUtf8(EncodeText(text))
  {
    if text != [] {
      var (c, rest) := (EncodeScalar(text[0]), EncodeText(text[1..]));
      TextIsValid(text[1..]);
      ScalarIsChar(text[0]);
      assert c[|c|..] == [];
      ValidConcat(c, rest);
    }
  }

  lemma {:induction false} ValidIsText(s: seq<Byte>) returns (text: seq<nat>)
    requires ValidUtf8(s)
    ensures Scalars(text) && s == EncodeText(text)
    decreases |s|
  {
    text := [];
    if s != [] {
      var n := CharLen(s);
      var c := CharIsScalar(s);
      var rest := ValidIsText(s[n..]);
      text := [c] + rest;
      assert text[1..] == rest && s == s[..n] + s[n..];
    }
  }

  /** Well-formed is exactly what encodes a sequence of scalar values. */
  lemma ValidExact(s: seq<Byte>)
    ensures ValidUtf8(s) <==> exists text :: Scalars(text) && EncodeText(text) == s
  {
    if ValidUtf8(s) {
      var text := ValidIsText(s);
    }
    if text :| Scalars(text) && EncodeText(text) == s {
      TextIsValid(text);
    }
  }
}
