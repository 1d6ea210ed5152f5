/**
 Merging a cache policy's Vary names into the response (src/policy.rs).

 The merge reads every Vary line, splits and trims it, keeps the first
 spelling of each name and writes one joined line back. Section 12.5.5 of
 RFC 9110 gives the meaning of the list and of "*".
 */
module Vary {
  import opened Text
  import opened Http
  import opened ResponseHeaders

  // ------------------------------------------------------------ specification

  /** The non-blank, trimmed members of comma-separated parts, in order. */
  function Members(parts: seq<string>): seq<string> {
    if parts == [] then []
    else (if Trim(parts[0]) == "" then [] else [Trim(parts[0])]) + Members(parts[1..])
  }

  function Names(line: string): seq<string> { Members(Split(line, ',')) }

  function AllNames(lines: seq<string>): seq<string> {
    if lines == [] then [] else Names(lines[0]) + AllNames(lines[1..])
  }

  datatype Scan = Star | Unreadable | Listed(names: seq<string>)

  /** What reading the existing lines from the front meets first. */
  function ScanLines(lines: seq<string>): Scan {
    if lines == [] then Listed([])
    else if !Visible(lines[0]) then Unreadable
    else if "*" in Names(lines[0]) then Star
    else
      match ScanLines(lines[1..])
      case Listed(names) => Listed(Names(lines[0]) + names)
      case other => other
  }

  /** Whether the list holds the name under any spelling. */
  predicate Has(list: seq<string>, name: string) {
    exists i :: 0 <= i < |list| && EqIgnoreCase(list[i], name)
  }

  function PushUnique(list: seq<string>, name: string): seq<string> {
    if Has(list, name) then list else list + [name]
  }

  function PushAll(list: seq<string>, names: seq<string>): seq<string>
    decreases |names|
  {
    if names == [] then list else PushAll(PushUnique(list, names[0]), names[1..])
  }

  const BAD_VARY := SoapError(Validation, Foreign(NoSource))

  function VaryFault(lines: seq<string>, policy: seq<string>): Option<SoapError> {
    if policy != [] && ScanLines(lines).Unreadable? then Some(BAD_VARY) else None
  }

  /** The Vary lines after a merge that does not fail. */
  function MergedLines(lines: seq<string>, policy: seq<string>): seq<string> {
    if policy == [] then lines
    else
      match ScanLines(lines)
      case Listed(names) => [Join(PushAll([], names + policy), ", ")]
      case Star => ["*"]
      case Unreadable => lines
  }

  /** Header names are non-empty tokens. */
  predicate NamesOk(policy: seq<string>) { forall n :: n in policy ==> Token(n) }

  // --------------------------------------------------------------- the algorithm

  lemma {:induction false} PushAllConcat(list: seq<string>, a: seq<string>, b: seq<string>)
    ensures PushAll(list, a + b) == PushAll(PushAll(list, a), b)
    decreases |a|
  {
    if a == [] {
      assert a + b == b;
    } else {
      PushAllConcat(PushUnique(list, a[0]), a[1..], b);
      assert (a + b)[1..] == a[1..] + b;
    }
  }

  predicate AllVisible(list: seq<string>) { forall n :: n in list ==> Visible(n) }

  lemma {:induction false} PushAllVisible(list: seq<string>, names: seq<string>)
    requires AllVisible(list) && AllVisible(names)
    ensures AllVisible(PushAll(list, names))
    decreases |names|
  {
    if names != [] {
      PushAllVisible(PushUnique(list, names[0]), names[1..]);
    }
  }

  lemma {:induction false} JoinVisible(list: seq<string>)
    requires AllVisible(list)
    ensures Visible(Join(list, ", "))
  {
    if |list| > 1 {
      JoinVisible(list[1..]);
      assert list[0] in list;
    }
  }

  /** A member of a comma list: trimmed, not empty and free of commas. */
  predicate Member(n: string) { n != "" && Trimmed(n) && ',' !in n }

  predicate AllMembers(list: seq<string>) { forall n :: n in list ==> Member(n) }

  lemma {:induction false} MembersGood(parts: seq<string>)
    requires forall p :: p in parts ==> ',' !in p
    ensures AllMembers(Members(parts))
    ensures AllVisible(parts) ==> AllVisible(Members(parts))
  {
    if parts != [] {
      MembersGood(parts[1..]);
      TrimmedOf(parts[0]);
      TrimKeepsChars(parts[0]);
      assert parts[0] in parts;
      if Visible(parts[0]) {
        assert forall i :: 0 <= i < |Trim(parts[0])| ==> Trim(parts[0])[i] in parts[0];
      }
    }
  }

  lemma NamesGood(line: string)
    ensures AllMembers(Names(line))
    ensures Visible(line) ==> AllVisible(Names(line))
  {
    SplitParts(line, ',');
    MembersGood(Split(line, ','));
    if Visible(line) {
      forall p | p in Split(line, ',')
        ensures Visible(p)
      {
        assert forall i :: 0 <= i < |p| ==> p[i] in p;
      }
    }
  }

  method PushUniqueInto(values: seq<string>, candidate: string) returns (r: seq<string>)
    ensures r == PushUnique(values, candidate)
  {
    var i := 0;
    while i < |values|
      invariant i <= |values|
      invariant forall j :: 0 <= j < i ==> !EqIgnoreCase(values[j], candidate)
    {
      if EqIgnoreCase(values[i], candidate) {
        return values;
      }
      i := i + 1;
    }
    return values + [candidate];
  }

  lemma MembersStep(parts: seq<string>, i: nat)
    requires i < |parts|
    ensures Members(parts[i..])
         == (if Trim(parts[i]) == "" then [] else [Trim(parts[i])]) + Members(parts[i + 1..])
  {
    assert parts[i..][1..] == parts[i + 1..];
  }

  lemma PushNext(r: seq<string>, name: string, rest: seq<string>)
    ensures PushAll(r, [name] + rest) == PushAll(PushUnique(r, name), rest)
  {
    assert ([name] + rest)[1..] == rest;
  }

  /** What one part of a line adds to the names still to come. */
  lemma ScanNext(r: seq<string>, parts: seq<string>, i: nat)
    requires i < |parts|
    ensures Trim(parts[i]) == "" ==> Members(parts[i..]) == Members(parts[i + 1..])
    ensures Trim(parts[i]) != "" ==>
              && PushAll(r, Members(parts[i..])) == PushAll(PushUnique(r, Trim(parts[i])), Members(parts[i + 1..]))
              && ("*" in Members(parts[i..]) <==> Trim(parts[i]) == "*" || "*" in Members(parts[i + 1..]))
  {
    MembersStep(parts, i);
    var rest := Members(parts[i + 1..]);
    if Trim(parts[i]) == "" {
      assert [] + rest == rest;
    } else {
      PushNext(r, Trim(parts[i]), rest);
    }
  }

  /** Adds one line's names; reports a "*" among them. */
  method ScanLine(values: seq<string>, line: string) returns (star: bool, r: seq<string>)
    ensures star <==> "*" in Names(line)
    ensures !star ==> r == PushAll(values, Names(line))
  {
    star, r := ScanParts(values, Split(line, ','));
  }

  method ScanParts(values: seq<string>, parts: seq<string>) returns (star: bool, r: seq<string>)
    ensures star <==> "*" in Members(parts)
    ensures !star ==> r == PushAll(values, Members(parts))
  {
    r := values;
    var i := 0;
    assert parts[0..] == parts;
    while i < |parts|
      invariant i <= |parts|
      invariant "*" in Members(parts) <==> "*" in Members(parts[i..])
      invariant PushAll(values, Members(parts)) == PushAll(r, Members(parts[i..]))
    {
      var name := Trim(parts[i]);
      ScanNext(r, parts, i);
      if name != "" {
        if name == "*" {
          return true, r;
        }
        r := PushUniqueInto(r, name);
      }
      i := i + 1;
    }
    star := false;
  }

  /** The scanning loop over the existing Vary lines. */
  method ReadLines(lines: seq<string>) returns (scan: Scan)
    ensures scan == (if ScanLines(lines).Listed? then Listed(PushAll([], ScanLines(lines).names)) else ScanLines(lines))
    ensures scan.Listed? ==> AllVisible(scan.names)
  {
    var values: seq<string> := [];
    var i := 0;
    ghost var scanned: seq<string> := [];
    assert lines[0..] == lines;
    while i < |lines|
      invariant i <= |lines|
      invariant values == PushAll([], scanned)
      invariant ScanLines(lines) == Prefixed(scanned, ScanLines(lines[i..]))
      invariant AllVisible(values)
    {
      assert lines[i..][0] == lines[i] && lines[i..][1..] == lines[i + 1..];
      if !Visible(lines[i]) {
        return Unreadable;
      }
      var star, more := ScanLine(values, lines[i]);
      if star {
        return Star;
      }
      PushAllConcat([], scanned, Names(lines[i]));
      NamesGood(lines[i]);
      PushAllVisible(values, Names(lines[i]));
      PrefixedTwice(scanned, Names(lines[i]), ScanLines(lines[i + 1..]));
      values := more;
      scanned := scanned + Names(lines[i]);
      i := i + 1;
    }
    assert scanned + [] == scanned;
    return Listed(values);
  }

  /** `merge_vary`: changes nothing but the Vary entry, and that only when it does not fail. */
  method MergeVary(headers: HeaderMap, policy: seq<string>) returns (r: Option<SoapError>)
    requires NamesOk(policy)
    modifies headers
    ensures r == VaryFault(Values(old(headers.entries), VARY), policy)
    ensures headers.entries
         == if r.Some? || policy == [] then old(headers.entries)
            else old(headers.entries)[VARY := MergedLines(Values(old(headers.entries), VARY), policy)]
  {
    if policy == [] {
      return None;
    }
    var scan := ReadLines(Values(headers.entries, VARY));
    if scan.Unreadable? {
      return Some(BAD_VARY);
    }
    if scan.Star? {
      headers.Insert(VARY, "*");
      return None;
    }
    var values := scan.names;
    ghost var names := ScanLines(Values(headers.entries, VARY)).names;
    PushAllConcat([], names, policy);
    var j := 0;
    assert policy[0..] == policy;
    while j < |policy|
      invariant j <= |policy| && headers.entries == old(headers.entries)
      invariant PushAll(values, policy[j..]) == PushAll([], names + policy)
      invariant AllVisible(values)
    {
      assert policy[j..][0] == policy[j] && policy[j..][1..] == policy[j + 1..];
      TokenMember(policy[j]);
      values := PushUniqueInto(values, policy[j]);
      j := j + 1;
    }
    assert Encodable(Join(values, ", ")) by {
      JoinVisible(values);
    }
    headers.Insert(VARY, Join(values, ", "));
    return None;
  }

  function Prefixed(front: seq<string>, scan: Scan): Scan {
    if scan.Listed? then Listed(front + scan.names) else scan
  }

  lemma PrefixedTwice(a: seq<string>, b: seq<string>, scan: Scan)
    ensures Prefixed(a, Prefixed(b, scan)) == Prefixed(a + b, scan)
  {
    if scan.Listed? {
      Associative(a, b, scan.names);
    }
  }

  // ----------------------------------------------------------------- its meaning

  /** Each name's first spelling, in order of first appearance. */
  function FirstSpellings(all: seq<string>): seq<string> {
    if all == [] then []
    else
      var (front, last) := (all[..|all| - 1], all[|all| - 1]);
      FirstSpellings(front) + (if Has(front, last) then [] else [last])
  }

  predicate NoRepeats(list: seq<string>) {
    forall i, j :: 0 <= i < j < |list| ==> !EqIgnoreCase(list[i], list[j])
  }

  lemma {:induction false} SameNames(all: seq<string>, name: string)
    ensures Has(FirstSpellings(all), name) <==> Has(all, name)
  {
    if all != [] {
      var (front, last) := (all[..|all| - 1], all[|all| - 1]);
      SameNames(front, name);
      SameNames(front, last);
      HasConcat(front, [last], name);
      assert all == front + [last];
      var added := if Has(front, last) then [] else [last];
      HasConcat(FirstSpellings(front), added, name);
      if EqIgnoreCase(last, name) && Has(front, last) {
        HasAlike(front, last, name);
      }
    }
  }

  lemma HasConcat(a: seq<string>, b: seq<string>, name: string)
    ensures Has(a + b, name) <==> Has(a, name) || Has(b, name)
  {
    if Has(a, name) {
      var i :| 0 <= i < |a| && EqIgnoreCase(a[i], name);
      assert (a + b)[i] == a[i];
    }
    if Has(b, name) {
      var i :| 0 <= i < |b| && EqIgnoreCase(b[i], name);
      assert (a + b)[|a| + i] == b[i];
    }
  }

  lemma HasAlike(list: seq<string>, a: string, b: string)
    requires EqIgnoreCase(a, b)
    ensures Has(list, a) <==> Has(list, b)
  {
  }

  lemma {:induction false} SpellingsUnique(all: seq<string>)
    ensures NoRepeats(FirstSpellings(all))
  {
    if all != [] {
      var (front, last) := (all[..|all| - 1], all[|all| - 1]);
      SpellingsUnique(front);
      SameNames(front, last);
    }
  }

  lemma PushAllLast(list: seq<string>, front: seq<string>, last: string)
    ensures PushAll(list, front + [last]) == PushUnique(PushAll(list, front), last)
  {
    PushAllConcat(list, front, [last]);
    PushNext(PushAll(list, front), last, []);
    assert [last] + [] == [last];
  }

  lemma {:induction false} PushAllIsFirst(all: seq<string>)
    ensures PushAll([], all) == FirstSpellings(all)
  {
    if all != [] {
      var (front, last) := (all[..|all| - 1], all[|all| - 1]);
      PushAllIsFirst(front);
      assert all == front + [last];
      PushAllLast([], front, last);
      SameNames(front, last);
    }
  }

  lemma {:induction false} SpellingsPrefix(a: seq<string>, b: seq<string>)
    ensures FirstSpellings(a) <= FirstSpellings(a + b)
    decreases |b|
  {
    if b == [] {
      assert a + b == a;
    } else {
      var front := b[..|b| - 1];
      SpellingsPrefix(a, front);
      assert (a + b)[..|a + b| - 1] == a + front;
    }
  }

  /** A merge without "*" writes one line: the union without repeats, existing names first. */
  lemma ListedIsUnion(lines: seq<string>, policy: seq<string>)
    requires policy != [] && ScanLines(lines).Listed?
    ensures var (old', r) := (ScanLines(lines).names, FirstSpellings(ScanLines(lines).names + policy));
            && MergedLines(lines, policy) == [Join(r, ", ")]
            && NoRepeats(r)
            && (forall name :: Has(r, name) <==> Has(old', name) || Has(policy, name))
            && FirstSpellings(old') <= r
  {
    var names := ScanLines(lines).names;
    PushAllIsFirst(names + policy);
    SpellingsUnique(names + policy);
    SpellingsPrefix(names, policy);
    forall name
      ensures Has(FirstSpellings(names + policy), name) <==> Has(names, name) || Has(policy, name)
    {
      SameNames(names + policy, name);
      HasConcat(names, policy, name);
    }
  }

  /** A line with "*" that the scan reaches: every line up to it is text. */
  predicate StarAt(lines: seq<string>, k: nat) {
    k < |lines| && "*" in Names(lines[k]) && AllVisible(lines[..k + 1])
  }

  lemma StarAtStep(lines: seq<string>, k: nat)
    requires 0 < k < |lines|
    ensures StarAt(lines, k) <==> Visible(lines[0]) && StarAt(lines[1..], k - 1)
  {
    assert lines[..k + 1] == [lines[0]] + lines[1..][..k];
  }

  /** "*" decides the merge exactly when it stands on some line and every line up to there is text. */
  lemma {:induction false} StarReached(lines: seq<string>)
    ensures ScanLines(lines).Star? <==> exists k: nat :: StarAt(lines, k)
  {
    if lines != [] {
      StarReached(lines[1..]);
      assert lines[..1] == [lines[0]];
      assert StarAt(lines, 0) <==> Visible(lines[0]) && "*" in Names(lines[0]);
      forall k: nat | 0 < k < |lines|
        ensures StarAt(lines, k) <==> Visible(lines[0]) && StarAt(lines[1..], k - 1)
      {
        StarAtStep(lines, k);
      }
      if k: nat :| StarAt(lines[1..], k) {
        assert Visible(lines[0]) ==> StarAt(lines, k + 1);
      }
      if k: nat :| StarAt(lines, k) {
        assert k == 0 || StarAt(lines[1..], k - 1);
        assert lines[0] in lines[..k + 1];
      }
    }
  }

  /** The names are collected exactly when every line is text and none has "*". */
  lemma {:induction false} ListedWhen(lines: seq<string>)
    ensures ScanLines(lines).Listed? <==> AllVisible(lines) && "*" !in AllNames(lines)
    ensures ScanLines(lines).Listed? ==> ScanLines(lines).names == AllNames(lines)
  {
    if lines != [] {
      ListedWhen(lines[1..]);
      assert lines == [lines[0]] + lines[1..];
    }
  }

  // ---------------------------------------------------------- the merge on the text

  lemma {:induction false} MembersConcat(a: seq<string>, b: seq<string>)
    ensures Members(a + b) == Members(a) + Members(b)
  {
    if a == [] {
      assert a + b == b;
    } else {
      MembersConcat(a[1..], b);
      assert (a + b)[1..] == a[1..] + b;
      Associative(if Trim(a[0]) == "" then [] else [Trim(a[0])], Members(a[1..]), Members(b));
    }
  }

  /** A part between commas stands for its trimmed text, or for nothing if that is empty. */
  lemma MembersExact(a: seq<string>, part: string, b: seq<string>)
    ensures Members([]) == []
    ensures Members(a + [part] + b) == Members(a) + (if Trim(part) == "" then [] else [Trim(part)]) + Members(b)
  {
    MembersConcat(a + [part], b);
    MembersConcat(a, [part]);
    assert [part][1..] == [];
  }

  lemma {:induction false} AllNamesConcat(a: seq<string>, b: seq<string>)
    ensures AllNames(a + b) == AllNames(a) + AllNames(b)
  {
    if a == [] {
      assert a + b == b;
    } else {
      AllNamesConcat(a[1..], b);
      assert (a + b)[1..] == a[1..] + b;
      Associative(Names(a[0]), AllNames(a[1..]), AllNames(b));
    }
  }

  /** A line stands for the members between its commas, where it stands among the lines. */
  lemma AllNamesExact(a: seq<string>, line: string, b: seq<string>)
    ensures AllNames([]) == []
    ensures AllNames(a + [line] + b) == AllNames(a) + Members(Split(line, ',')) + AllNames(b)
  {
    AllNamesConcat(a + [line], b);
    AllNamesConcat(a, [line]);
    assert [line][1..] == [] && Names(line) + [] == Names(line);
  }

  /** The name's first place in a list, under any spelling. */
  predicate FirstAt(all: seq<string>, j: int, n: string) {
    0 <= j < |all| && all[j] == n && !Has(all[..j], n)
  }

  /** The names of one list are those of another at the places where they are new, in that order. */
  ghost predicate FirstPlaces(r: seq<string>, all: seq<string>) {
    exists places: seq<int> ::
      && |places| == |r|
      && (forall i :: 0 <= i < |r| ==> FirstAt(all, places[i], r[i]))
      && (forall i, j :: 0 <= i < j < |r| ==> places[i] < places[j])
  }

  lemma FirstAtGrows(front: seq<string>, last: string, j: int, n: string)
    requires FirstAt(front, j, n)
    ensures FirstAt(front + [last], j, n)
  {
    assert (front + [last])[..j] == front[..j];
  }

  lemma {:induction false} SpellingPlaces(all: seq<string>) returns (places: seq<int>)
    ensures var r := FirstSpellings(all);
            && |places| == |r|
            && (forall i :: 0 <= i < |r| ==> FirstAt(all, places[i], r[i]))
            && (forall i, j :: 0 <= i < j < |r| ==> places[i] < places[j])
  {
    places := [];
    if all != [] {
      var (front, last) := (all[..|all| - 1], all[|all| - 1]);
      assert all == front + [last] && all[..|front|] == front;
      var before := SpellingPlaces(front);
      var r := FirstSpellings(front);
      forall i | 0 <= i < |r|
        ensures FirstAt(all, before[i], r[i])
      {
        FirstAtGrows(front, last, before[i], r[i]);
      }
      places := if Has(front, last) then before else before + [|front|];
    }
  }

  /**
   What a merge comes to, on the text of the lines: nothing without policy
   names, a star if one is reached, the union if all lines are text without a
   star, and a fault otherwise.
   */
  lemma MergeExact(lines: seq<string>, policy: seq<string>)
    ensures policy == [] ==> VaryFault(lines, policy).None? && MergedLines(lines, policy) == lines
    ensures policy != [] && (exists k: nat :: StarAt(lines, k)) ==>
              VaryFault(lines, policy).None? && MergedLines(lines, policy) == ["*"]
    ensures policy != [] && AllVisible(lines) && "*" !in AllNames(lines) ==>
              VaryFault(lines, policy).None?
              && MergedLines(lines, policy) == [Join(FirstSpellings(AllNames(lines) + policy), ", ")]
    ensures policy != [] && !AllVisible(lines) && !(exists k: nat :: StarAt(lines, k)) ==>
              VaryFault(lines, policy) == Some(SoapError(Validation, Foreign(NoSource)))
  {
    StarReached(lines);
    ListedWhen(lines);
    PushAllIsFirst(AllNames(lines) + policy);
    if AllVisible(lines) {
      NotUnreadable(lines);
    }
  }

  lemma {:induction false} NotUnreadable(lines: seq<string>)
    requires AllVisible(lines)
    ensures !ScanLines(lines).Unreadable?
  {
    if lines != [] {
      assert lines[0] in lines;
      NotUnreadable(lines[1..]);
    }
  }

  /**
   A merge of text without "*" writes one line: every name there or in the
   policy, once under its first spelling, in the order of first places, and so
   existing names first.
   */
  lemma MergeIsUnion(lines: seq<string>, policy: seq<string>)
    requires policy != [] && AllVisible(lines) && "*" !in AllNames(lines)
    ensures exists r ::
              && MergedLines(lines, policy) == [Join(r, ", ")]
              && NoRepeats(r)
              && (forall name :: Has(r, name) <==> Has(AllNames(lines), name) || Has(policy, name))
              && FirstPlaces(r, AllNames(lines) + policy)
  {
    ListedWhen(lines);
    ListedIsUnion(lines, policy);
    var all := AllNames(lines) + policy;
    var places := SpellingPlaces(all);
    assert FirstPlaces(FirstSpellings(all), all);
  }

  // ------------------------------------------------------------------ idempotence

  lemma {:induction false} MembersOf(list: seq<string>, pad: string)
    requires AllMembers(list) && AllBlank(pad)
    ensures Members(Padded(list, pad)) == list
  {
    if list != [] {
      MembersOf(list[1..], pad);
      assert Padded(list, pad)[1..] == Padded(list[1..], pad);
      assert list[0] in list;
      TrimPadLeft(pad, list[0]);
      TrimFixes(list[0]);
    }
  }

  /** Splitting and trimming undo joining. */
  lemma NamesOfJoin(list: seq<string>)
    requires list != [] && AllMembers(list)
    ensures Names(Join(list, ", ")) == list
  {
    SplitJoin(list, ',', " ");
    assert [','] + " " == ", ";
    MembersOf(list[1..], " ");
    assert list[0] in list;
    TrimFixes(list[0]);
    assert ([list[0]] + Padded(list[1..], " "))[1..] == Padded(list[1..], " ");
    assert [list[0]] + list[1..] == list;
  }

  lemma {:induction false} ScanGood(lines: seq<string>)
    requires ScanLines(lines).Listed?
    ensures var names := ScanLines(lines).names;
            AllMembers(names) && AllVisible(names) && "*" !in names
  {
    if lines != [] {
      ScanGood(lines[1..]);
      NamesGood(lines[0]);
    }
  }

  lemma {:induction false} SpellingsAmong(all: seq<string>)
    ensures forall n :: n in FirstSpellings(all) ==> n in all
    ensures all != [] ==> FirstSpellings(all) != [] && FirstSpellings(all)[0] == all[0]
  {
    if all != [] {
      var (front, last) := (all[..|all| - 1], all[|all| - 1]);
      SpellingsAmong(front);
    }
  }

  lemma LastIsNew(list: seq<string>)
    requires list != [] && NoRepeats(list)
    ensures !Has(list[..|list| - 1], list[|list| - 1]) && NoRepeats(list[..|list| - 1])
  {
    var front := list[..|list| - 1];
    assert forall i :: 0 <= i < |front| ==> front[i] == list[i];
  }

  lemma {:induction false} NoRepeatsFixed(list: seq<string>)
    requires NoRepeats(list)
    ensures FirstSpellings(list) == list
  {
    if list != [] {
      var (front, last) := (list[..|list| - 1], list[|list| - 1]);
      NoRepeatsFixed(front);
      LastIsNew(list);
      assert front + [last] == list;
    }
  }

  lemma {:induction false} NothingNew(list: seq<string>, more: seq<string>)
    requires forall n :: n in more ==> Has(list, n)
    ensures PushAll(list, more) == list
  {
    if more != [] {
      NothingNew(list, more[1..]);
    }
  }

  lemma StarAlone(name: string)
    ensures EqIgnoreCase("*", name) <==> name == "*"
    ensures EqIgnoreCase(name, "*") <==> name == "*"
  {
    assert EqIgnoreCase("*", name) ==> |name| == 1 && LowerChar(name[0]) == Lower(name)[0];
    assert Lower("*")[0] == '*';
  }

  lemma StarKept(all: seq<string>)
    ensures "*" in FirstSpellings(all) <==> "*" in all
  {
    SameNames(all, "*");
    HasStar(FirstSpellings(all));
    HasStar(all);
  }

  lemma HasStar(list: seq<string>)
    ensures Has(list, "*") <==> "*" in list
  {
    forall i | 0 <= i < |list|
      ensures EqIgnoreCase(list[i], "*") <==> list[i] == "*"
    {
      StarAlone(list[i]);
    }
  }

  lemma TokenMember(n: string)
    requires Token(n)
    ensures Member(n) && Visible(n)
  {
    forall i | 0 <= i < |n|
      ensures VisibleChar(n[i]) && n[i] != ',' && !Blank(n[i])
    {
      assert TokenChar(n[i]);
    }
  }

  /** The second merge of a list that was written by the first. */
  lemma SecondMerge(r: seq<string>, policy: seq<string>)
    requires r != [] && policy != [] && AllMembers(r) && AllVisible(r) && NoRepeats(r)
    requires forall n :: n in policy ==> Has(r, n)
    ensures VaryFault([Join(r, ", ")], policy).None?
    ensures MergedLines([Join(r, ", ")], policy) == if "*" in r then ["*"] else [Join(r, ", ")]
  {
    NamesOfJoin(r);
    JoinVisible(r);
    var line := Join(r, ", ");
    assert [line][1..] == [];
    if "*" !in r {
      assert ScanLines([line]) == Listed(r + []);
      assert r + [] == r;
      PushAllConcat([], r, policy);
      PushAllIsFirst(r);
      NoRepeatsFixed(r);
      NothingNew(r, policy);
    }
  }

  lemma JoinedStar(r: seq<string>)
    requires r != []
    ensures [Join(r, ", ")] == ["*"] <==> r == ["*"]
  {
    if |r| > 1 {
      assert |Join(r, ", ")| >= 2;
    } else {
      assert r == [r[0]];
    }
    assert [Join(r, ", ")][0] == Join(r, ", ");
  }

  predicate OnlyStars(list: seq<string>) { forall n :: n in list ==> n == "*" }

  /** What the first merge wrote, when it met no "*". */
  lemma FirstMerge(lines: seq<string>, policy: seq<string>)
    requires NamesOk(policy) && policy != [] && ScanLines(lines).Listed?
    ensures var r := FirstSpellings(ScanLines(lines).names + policy);
            && MergedLines(lines, policy) == [Join(r, ", ")]
            && r != [] && AllMembers(r) && AllVisible(r) && NoRepeats(r)
            && forall n :: n in policy ==> Has(r, n)
  {
    var all := ScanLines(lines).names + policy;
    var r := FirstSpellings(all);
    ListedIsUnion(lines, policy);
    ScanGood(lines);
    SpellingsAmong(all);
    forall n | n in r
      ensures Member(n) && Visible(n)
    {
      if n in policy {
        TokenMember(n);
      }
    }
    forall n | n in policy
      ensures Has(r, n)
    {
      var i :| 0 <= i < |policy| && policy[i] == n;
      assert EqIgnoreCase(policy[i], n);
    }
  }

  lemma ListedIdempotent(lines: seq<string>, policy: seq<string>)
    requires NamesOk(policy) && policy != [] && ScanLines(lines).Listed?
    ensures var once := MergedLines(lines, policy);
            VaryFault(once, policy).None? &&
            (MergedLines(once, policy) == once <==> "*" !in policy || (AllNames(lines) == [] && OnlyStars(policy)))
  {
    var names := ScanLines(lines).names;
    var r := FirstSpellings(names + policy);
    FirstMerge(lines, policy);
    SecondMerge(r, policy);
    ListedWhen(lines);
    StarKept(names + policy);
    JoinedStar(r);
    OneStar(names, policy, r);
  }

  /**
   Merging twice equals merging once exactly when the policy does not bring
   in a "*" beside some other name; with policy names other than "*" it always does.
   */
  lemma MergeIdempotent(lines: seq<string>, policy: seq<string>)
    requires NamesOk(policy) && VaryFault(lines, policy).None?
    ensures var once := MergedLines(lines, policy);
            VaryFault(once, policy).None? &&
            (MergedLines(once, policy) == once
             <==> "*" !in policy || (exists k: nat :: StarAt(lines, k)) || (AllNames(lines) == [] && OnlyStars(policy)))
  {
    StarReached(lines);
    if policy != [] {
      if ScanLines(lines).Listed? {
        ListedIdempotent(lines, policy);
      } else {
        StarLine();
      }
    }
  }

  /** The failing case: what a policy with "*" beside a name writes is not what a second merge leaves. */
  lemma StarMergedTwice()
    ensures var policy := ["*", "accept"];
            MergedLines(MergedLines([], policy), policy) != MergedLines([], policy)
  {
    var policy := ["*", "accept"];
    assert policy[0] == "*" && policy[1] == "accept" && "accept" in policy && "accept" != "*";
    MergeIdempotent([], policy);
  }

  lemma StarLine()
    ensures ScanLines(["*"]) == Star
  {
    SplitAbsent("*", ',');
    TrimFixes("*");
    assert ["*"][1..] == [];
  }

  lemma OneStar(names: seq<string>, policy: seq<string>, r: seq<string>)
    requires policy != [] && "*" !in names && r == FirstSpellings(names + policy)
    ensures r == ["*"] <==> names == [] && OnlyStars(policy)
  {
    var all := names + policy;
    SpellingsAmong(all);
    assert all[0] == if names == [] then policy[0] else names[0];
    if r == ["*"] {
      assert all[0] == "*";
      forall n | n in policy
        ensures n == "*"
      {
        var i :| 0 <= i < |policy| && policy[i] == n;
        assert EqIgnoreCase(all[|names| + i], n);
        SameNames(all, n);
        StarAlone(n);
      }
    }
    if names == [] && OnlyStars(policy) {
      assert all == policy;
      SpellingsUnique(all);
      assert r[0] == all[0] == policy[0] && policy[0] in policy;
      assert |r| > 1 ==> r[1] in r && EqIgnoreCase(r[0], r[1]);
    }
  }
}
