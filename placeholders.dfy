/**
 * The `${...}` placeholders of Spring @Value literals, as the plugin's two patterns
 * `\$\{\s*([^}]+)\s*}` and `\$\{([^}]+)}` see them under java.util.regex.Matcher.
 * Both match at p exactly when "${" starts at p and the first '}' after it is not right after
 * the "{"; the match then ends just after that '}'.  find() returns the leftmost match at or
 * after the end of the previous one.  The patterns differ only in their group 1.
 */
module Placeholders {
  import opened Wrappers
  import opened JavaStrings
  import opened Seqs

  /** The qualified name of the Spring annotation whose literals are scanned. */
  const SPRING_VALUE: string := "org.springframework.beans.factory.annotation.Value"

  /**
   * What the plugin sees of a PSI element: a literal expression with its getValue() when that
   * is a String (None otherwise) and the qualified name of the enclosing annotation (None when
   * there is none or its name is unknown), or any other element.
   */
  datatype Element = Literal(value: Option<string>, annotationName: Option<string>) | Other

  /** A String literal inside @Value: the only elements whose placeholders are looked at. */
  predicate IsValueLiteral(e: Element) {
    e.Literal? && e.value.Some? && e.annotationName == Some(SPRING_VALUE)
  }

  /** com.intellij.openapi.util.TextRange. */
  datatype TextRange = TextRange(startOffset: int, endOffset: int)

  /** One regex match: the span [start, end) and the text between "${" and "}". */
  datatype Match = Match(start: nat, end: nat, body: string)

  /** m is a placeholder of s: "${", a non-empty body without '}', then '}'. */
  predicate IsPlaceholder(s: string, m: Match) {
    m.start + 4 <= m.end <= |s|
    && s[m.start] == '$' && s[m.start + 1] == '{' && s[m.end - 1] == '}'
    && m.body == s[m.start + 2..m.end - 1]
    && forall k :: 0 <= k < |m.body| ==> m.body[k] != '}'
  }

  /** The first '}' at or after from. */
  function CloseBrace(s: string, from: nat): (r: Option<nat>)
    ensures r.Some? ==> from <= r.value < |s| && s[r.value] == '}'
    decreases |s| - from
  {
    if from >= |s| then None
    else if s[from] == '}' then Some(from)
    else CloseBrace(s, from + 1)
  }

  /** CloseBrace passes over no '}'. */
  lemma {:induction false} CloseBraceFirst(s: string, from: nat)
    ensures CloseBrace(s, from).Some? ==> forall k :: from <= k < CloseBrace(s, from).value ==> s[k] != '}'
    ensures CloseBrace(s, from).None? ==> forall k :: from <= k < |s| ==> s[k] != '}'
    decreases |s| - from
  {
    if from < |s| && s[from] != '}' {
      CloseBraceFirst(s, from + 1);
    }
  }

  /** The match of either pattern starting at p, if there is one. */
  function MatchAt(s: string, p: nat): (r: Option<Match>)
    ensures r.Some? ==> r.value.start == p && p + 4 <= r.value.end <= |s|
  {
    if p + 2 <= |s| && s[p] == '$' && s[p + 1] == '{' then
      match CloseBrace(s, p + 2)
      case None => None
      case Some(q) => if q > p + 2 then Some(Match(p, q + 1, s[p + 2..q])) else None
    else None
  }

  /** What MatchAt finds is a placeholder. */
  lemma MatchAtPlaceholder(s: string, p: nat)
    requires MatchAt(s, p).Some?
    ensures IsPlaceholder(s, MatchAt(s, p).value)
  {
    var q := CloseBrace(s, p + 2).value;
    CloseBraceFirst(s, p + 2);
    var body := s[p + 2..q];
    assert forall k :: 0 <= k < |body| ==> body[k] == s[p + 2 + k];
  }

  /** Every placeholder starting at p is the match MatchAt finds there. */
  lemma MatchAtComplete(s: string, m: Match)
    requires IsPlaceholder(s, m)
    ensures MatchAt(s, m.start) == Some(m)
  {
    var p := m.start;
    assert forall k :: p + 2 <= k < m.end - 1 ==> s[k] == m.body[k - p - 2];
    CloseBraceAt(s, p + 2, m.end - 1);
  }

  lemma {:induction false} CloseBraceAt(s: string, from: nat, q: nat)
    requires from <= q < |s| && s[q] == '}'
    requires forall k :: from <= k < q ==> s[k] != '}'
    ensures CloseBrace(s, from) == Some(q)
    decreases q - from
  {
    if from < q {
      CloseBraceAt(s, from + 1, q);
    }
  }

  /** Matcher.find() from position from: the leftmost match starting at or after it. */
  function FindFrom(s: string, from: nat): (r: Option<Match>)
    ensures r.Some? ==> from <= r.value.start && r.value.start + 4 <= r.value.end <= |s|
    decreases |s| - from
  {
    if from >= |s| then None
    else match MatchAt(s, from)
      case Some(m) => Some(m)
      case None => FindFrom(s, from + 1)
  }

  /** What FindFrom finds is the match at its start. */
  lemma {:induction false} FindFromMatch(s: string, from: nat)
    requires FindFrom(s, from).Some?
    ensures MatchAt(s, FindFrom(s, from).value.start) == FindFrom(s, from)
    decreases |s| - from
  {
    if MatchAt(s, from).None? {
      FindFromMatch(s, from + 1);
    }
  }

  /** FindFrom skips no match: none starts between from and what it finds, or after from when it finds nothing. */
  lemma {:induction false} FindFromLeftmost(s: string, from: nat)
    ensures FindFrom(s, from).Some? ==>
      forall p :: from <= p < FindFrom(s, from).value.start ==> MatchAt(s, p).None?
    ensures FindFrom(s, from).None? ==> forall p :: from <= p ==> MatchAt(s, p).None?
    decreases |s| - from
  {
    if from < |s| && MatchAt(s, from).None? {
      FindFromLeftmost(s, from + 1);
    }
  }

  /** The matches of the find() loop started at from, in order. */
  function ScanFrom(s: string, from: nat): seq<Match>
    decreases |s| - from
  {
    match FindFrom(s, from)
    case None => []
    case Some(m) => [m] + ScanFrom(s, m.end)
  }

  /** Every match of the scan is a placeholder at or after from. */
  lemma {:induction false} ScanFromPlaceholders(s: string, from: nat)
    ensures forall m :: m in ScanFrom(s, from) ==> from <= m.start && IsPlaceholder(s, m)
    decreases |s| - from
  {
    match FindFrom(s, from)
    case None =>
    case Some(m) =>
      ScanFromPlaceholders(s, m.end);
      FindFromMatch(s, from);
      MatchAtPlaceholder(s, m.start);
      assert ScanFrom(s, from) == [m] + ScanFrom(s, m.end);
  }

  /** The matches of a fresh matcher over s. */
  function Scan(s: string): seq<Match> {
    ScanFrom(s, 0)
  }

  /** Position p lies inside one of the spans of ms. */
  predicate Covered(ms: seq<Match>, p: nat) {
    exists i :: 0 <= i < |ms| && ms[i].start <= p < ms[i].end
  }

  /** No placeholder is skipped: every one starts at a match or inside one. */
  lemma {:induction false} ScanFromComplete(s: string, from: nat, p: nat)
    requires from <= p && MatchAt(s, p).Some?
    ensures Covered(ScanFrom(s, from), p)
    decreases |s| - from
  {
    FindFromLeftmost(s, from);
    var m := FindFrom(s, from).value;
    var rest := ScanFrom(s, m.end);
    var r := ScanFrom(s, from);
    assert r == [m] + rest;
    if p >= m.end {
      ScanFromComplete(s, m.end, p);
      var i :| 0 <= i < |rest| && rest[i].start <= p < rest[i].end;
      assert r[i + 1] == rest[i];
    } else {
      assert r[0] == m;
    }
  }

  lemma ScanComplete(s: string, p: nat)
    requires MatchAt(s, p).Some?
    ensures Covered(Scan(s), p)
  {
    ScanFromComplete(s, 0, p);
  }

  /** A scan that finds anything saw "${" and "}" in s. */
  lemma ScanNonEmptyHasBraces(s: string)
    requires Scan(s) != []
    ensures Contains(s, "${") && Contains(s, "}")
  {
    var m := Scan(s)[0];
    ScanFromPlaceholders(s, 0);
    assert m in Scan(s);
    assert s[m.start..m.start + 2] == "${";
    assert OccursAt(s, "${", m.start);
    assert s[m.end - 1..m.end] == "}";
    assert OccursAt(s, "}", m.end - 1);
    ContainsOccurs(s, "${");
    ContainsOccurs(s, "}");
  }

  /** One step of the find() loop: the scan is the found match followed by the scan after it. */
  lemma ScanFromStep(s: string, from: nat)
    requires FindFrom(s, from).Some?
    ensures ScanFrom(s, from) == [FindFrom(s, from).value] + ScanFrom(s, FindFrom(s, from).value.end)
  {
  }

  /**
   * How many leading characters `\s*` takes before group 1 of `\$\{\s*([^}]+)\s*}`: the whole
   * leading `\s` run, given back one character when the run is all of the body.
   */
  function LeadingSpaces(body: string): (k: nat)
    ensures k <= |body| && (|body| > 0 ==> k < |body|)
    ensures k < |body| - 1 ==> !IsRegexSpace(body[k])
  {
    if |body| <= 1 || !IsRegexSpace(body[0]) then 0
    else 1 + LeadingSpaces(body[1..])
  }

  /** What `\s*` takes is all `\s`. */
  lemma {:induction false} LeadingSpacesAreSpaces(body: string)
    ensures forall j :: 0 <= j < LeadingSpaces(body) ==> IsRegexSpace(body[j])
  {
    if |body| > 1 && IsRegexSpace(body[0]) {
      LeadingSpacesAreSpaces(body[1..]);
      assert forall j :: 1 <= j < |body| ==> body[1..][j - 1] == body[j];
    }
  }

  /** Group 1 of `\$\{\s*([^}]+)\s*}`: the body after its leading spaces; trailing ones stay. */
  function SpacedGroup(body: string): string {
    body[LeadingSpaces(body)..]
  }

  /** The two patterns: `\$\{\s*([^}]+)\s*}` and `\$\{([^}]+)}`. */
  datatype Pattern = Spaced | Raw

  /** Group 1 of the pattern for a match with this body. */
  function Group1(pat: Pattern, body: string): (g: string)
    ensures pat.Raw? ==> g == body
  {
    match pat
    case Spaced => SpacedGroup(body)
    case Raw => body
  }

  /** How a consumer decides to skip a match: its key trims to nothing, or its key is blank. */
  datatype Skip = TrimEmpty | Blank

  predicate Keeps(pat: Pattern, skip: Skip, m: Match) {
    match skip
    case TrimEmpty => Trim(Group1(pat, m.body)) != ""
    case Blank => !IsBlank(Group1(pat, m.body))
  }

  /** The matches a consumer does not skip, in scan order. */
  function Kept(ms: seq<Match>, pat: Pattern, skip: Skip): (r: seq<Match>)
    ensures |r| <= |ms|
  {
    if ms == [] then []
    else (if Keeps(pat, skip, ms[0]) then [ms[0]] else []) + Kept(ms[1..], pat, skip)
  }

  /** Kept drops exactly the skipped matches. */
  lemma {:induction false} KeptMembers(ms: seq<Match>, pat: Pattern, skip: Skip)
    ensures forall m :: m in Kept(ms, pat, skip) <==> m in ms && Keeps(pat, skip, m)
  {
    if ms != [] {
      KeptMembers(ms[1..], pat, skip);
      assert ms == [ms[0]] + ms[1..];
    }
  }

  /** The spans of ms start at or after from, are non-empty, and each starts where or after the previous ends. */
  predicate Ordered(ms: seq<Match>, from: nat)
    decreases |ms|
  {
    ms == [] || (from <= ms[0].start < ms[0].end && Ordered(ms[1..], ms[0].end))
  }

  lemma {:induction false} OrderedWeaken(ms: seq<Match>, a: nat, b: nat)
    requires a <= b && Ordered(ms, b)
    ensures Ordered(ms, a)
  {
  }

  /** Ordered spans, index by index. */
  lemma {:induction false} OrderedIndices(ms: seq<Match>, from: nat)
    requires Ordered(ms, from)
    ensures forall k :: 0 <= k < |ms| ==> from <= ms[k].start < ms[k].end
    ensures forall k :: 0 <= k < |ms| - 1 ==> ms[k].end <= ms[k + 1].start
    decreases |ms|
  {
    if ms != [] {
      OrderedIndices(ms[1..], ms[0].end);
      assert forall k :: 1 <= k < |ms| ==> ms[k] == ms[1..][k - 1];
    }
  }

  lemma {:induction false} ScanFromOrdered(s: string, from: nat)
    ensures Ordered(ScanFrom(s, from), from)
    decreases |s| - from
  {
    var r := ScanFrom(s, from);
    if r != [] {
      var m := FindFrom(s, from).value;
      ScanFromOrdered(s, m.end);
      assert r == [m] + ScanFrom(s, m.end);
      assert r[1..] == ScanFrom(s, m.end);
    }
  }

  lemma {:induction false} KeptOrdered(ms: seq<Match>, from: nat, pat: Pattern, skip: Skip)
    requires Ordered(ms, from)
    ensures Ordered(Kept(ms, pat, skip), from)
    decreases |ms|
  {
    if ms != [] {
      var rest := Kept(ms[1..], pat, skip);
      KeptOrdered(ms[1..], ms[0].end, pat, skip);
      var r := Kept(ms, pat, skip);
      if Keeps(pat, skip, ms[0]) {
        assert r == [ms[0]] + rest;
        assert r[1..] == rest;
      } else {
        assert r == rest;
        OrderedWeaken(rest, from, ms[0].end);
      }
    }
  }

  /** The matches of s that a consumer keeps are in increasing, non-overlapping order. */
  lemma ScanKeptOrdered(s: string, pat: Pattern, skip: Skip)
    ensures Ordered(Kept(Scan(s), pat, skip), 0)
  {
    ScanFromOrdered(s, 0);
    KeptOrdered(Scan(s), 0, pat, skip);
  }

  /** Every match a consumer keeps is a placeholder of s. */
  lemma KeptPlaceholders(s: string, pat: Pattern, skip: Skip)
    ensures var kept := Kept(Scan(s), pat, skip);
      forall k :: 0 <= k < |kept| ==> IsPlaceholder(s, kept[k])
  {
    var kept := Kept(Scan(s), pat, skip);
    ScanFromPlaceholders(s, 0);
    KeptMembers(Scan(s), pat, skip);
    assert forall k :: 0 <= k < |kept| ==> kept[k] in Scan(s);
  }

  /** One step of Kept: the head is kept or dropped, then the rest follows. */
  lemma KeptCons(m: Match, rest: seq<Match>, pat: Pattern, skip: Skip)
    ensures Kept([m] + rest, pat, skip)
      == (if Keeps(pat, skip, m) then [m] else []) + Kept(rest, pat, skip)
  {
    assert ([m] + rest)[0] == m && ([m] + rest)[1..] == rest;
  }

  // --- the steps of a find() loop that collects the matches it does not skip

  /** A find() that fails ends the loop: what was collected is everything. */
  lemma KeptScanNone(s: string, from: nat, pat: Pattern, skip: Skip, seen: seq<Match>, total: seq<Match>)
    requires seen + Kept(ScanFrom(s, from), pat, skip) == total
    requires FindFrom(s, from).None?
    ensures seen == total
  {
    assert ScanFrom(s, from) == [];
  }

  /** A find() of a match that is skipped collects nothing. */
  lemma KeptScanSkip(s: string, from: nat, m: Match, pat: Pattern, skip: Skip,
                     seen: seq<Match>, total: seq<Match>)
    requires seen + Kept(ScanFrom(s, from), pat, skip) == total
    requires FindFrom(s, from) == Some(m) && !Keeps(pat, skip, m)
    ensures seen + Kept(ScanFrom(s, m.end), pat, skip) == total
  {
    ScanFromStep(s, from);
    KeptCons(m, ScanFrom(s, m.end), pat, skip);
    assert [] + Kept(ScanFrom(s, m.end), pat, skip) == Kept(ScanFrom(s, m.end), pat, skip);
  }

  /** A find() of a match that is kept collects it. */
  lemma KeptScanKeep(s: string, from: nat, m: Match, pat: Pattern, skip: Skip,
                     seen: seq<Match>, total: seq<Match>)
    requires seen + Kept(ScanFrom(s, from), pat, skip) == total
    requires FindFrom(s, from) == Some(m) && Keeps(pat, skip, m)
    ensures (seen + [m]) + Kept(ScanFrom(s, m.end), pat, skip) == total
  {
    ScanFromStep(s, from);
    KeptCons(m, ScanFrom(s, m.end), pat, skip);
    var rest := Kept(ScanFrom(s, m.end), pat, skip);
    assert (seen + [m]) + rest == seen + ([m] + rest);
  }

  /** The spaced group trims to the same key as the whole body. */
  lemma SpacedGroupTrim(body: string)
    ensures Trim(SpacedGroup(body)) == Trim(body)
  {
    var k := LeadingSpaces(body);
    LeadingSpacesAreSpaces(body);
    assert forall j :: 0 <= j < k ==> IsTrimmable(body[j]) by {
      assert forall j :: 0 <= j < k ==> IsRegexSpace(body[j]);
    }
    TrimSkipsTrimmable(body, k);
  }

  /** Dropping a prefix of characters that trim() strips does not change the trimmed text. */
  lemma TrimSkipsTrimmable(body: string, k: nat)
    requires k <= |body| && forall j :: 0 <= j < k ==> IsTrimmable(body[j])
    ensures Trim(body[k..]) == Trim(body)
  {
    KeptFromSkip(body, 0, k);
    KeptFromSlice(body, k, 0);
    KeptUntilSlice(body, k, |body|);
    TrimOfSuffix(body, k);
  }

  /** trim() of a suffix, given how the suffix's trim bounds sit against those of the whole. */
  lemma TrimOfSuffix(body: string, k: nat)
    requires k <= |body|
    requires KeptFrom(body, 0) == k + KeptFrom(body[k..], 0)
    requires KeptUntil(body[k..], |body| - k)
      == if KeptUntil(body, |body|) >= k then KeptUntil(body, |body|) - k else 0
    ensures Trim(body[k..]) == Trim(body)
  {
    var g := body[k..];
    var a, b := KeptFrom(body, 0), KeptUntil(body, |body|);
    var a', b' := KeptFrom(g, 0), KeptUntil(g, |g|);
    if a < b {
      assert a' < b' && a == k + a' && b == k + b';
      calc {
        Trim(g);
        g[a'..b'];
        { SliceOfSuffix(body, k, a', b'); }
        body[a..b];
        Trim(body);
      }
    } else {
      assert a' >= b';
      assert Trim(g) == [];
      assert Trim(body) == [];
    }
  }

  lemma SliceOfSuffix(s: string, k: nat, i: nat, j: nat)
    requires k <= |s| && i <= j <= |s| - k
    ensures s[k..][i..j] == s[k + i..k + j]
  {
    var t := s[k..][i..j];
    assert forall x :: 0 <= x < |t| ==> t[x] == s[k + i + x];
  }

  lemma {:induction false} KeptFromSkip(s: string, i: nat, k: nat)
    requires i <= k <= |s| && forall j :: i <= j < k ==> IsTrimmable(s[j])
    ensures KeptFrom(s, i) == KeptFrom(s, k)
    decreases k - i
  {
    if i < k {
      KeptFromSkip(s, i + 1, k);
    }
  }

  lemma {:induction false} KeptFromSlice(s: string, k: nat, i: nat)
    requires k + i <= |s|
    ensures KeptFrom(s[k..], i) + k == KeptFrom(s, k + i)
    decreases |s| - k - i
  {
    if k + i < |s| {
      assert s[k..][i] == s[k + i];
      KeptFromSlice(s, k, i + 1);
    }
  }

  lemma {:induction false} KeptUntilSlice(s: string, k: nat, j: nat)
    requires k <= j <= |s|
    ensures KeptUntil(s[k..], j - k) == if KeptUntil(s, j) >= k then KeptUntil(s, j) - k else 0
    decreases j
  {
    if j > k {
      assert s[k..][j - k - 1] == s[j - 1];
      KeptUntilSlice(s, k, j - 1);
    }
  }

  /**
   * A Java Matcher over one input: find() stores the next match and resumes from its end; a
   * failed find() finds nothing more.
   */
  class Matcher {
    const input: string
    var searchFrom: nat
    var matched: Option<Match>

    constructor (input: string)
      ensures this.input == input && searchFrom == 0 && matched.None?
    {
      this.input := input;
      searchFrom := 0;
      matched := None;
    }

    method Find() returns (found: bool)
      requires searchFrom <= |input|
      modifies this
      ensures matched == FindFrom(input, old(searchFrom))
      ensures found <==> matched.Some?
      ensures found ==> searchFrom == matched.value.end && old(searchFrom) < searchFrom <= |input|
      ensures !found ==> searchFrom == old(searchFrom)
    {
      matched := FindFrom(input, searchFrom);
      found := matched.Some?;
      if found {
        searchFrom := matched.value.end;
      }
    }
  }

  /** The blank placeholder of the malformed-key case still matches, with a blank body. */
  lemma BlankPlaceholder()
    ensures Scan("${ }") == [Match(0, 4, " ")]
    ensures SpacedGroup(" ") == " " && Trim(" ") == ""
    ensures SpacedGroup(" a ") == "a "
  {
    var s := "${ }";
    assert s[2..3] == " ";
    assert CloseBrace(s, 3) == Some(3);
    assert CloseBrace(s, 2) == Some(3);
    assert MatchAt(s, 0) == Some(Match(0, 4, " "));
    assert FindFrom(s, 0) == Some(Match(0, 4, " "));
    assert FindFrom(s, 4) == None;
    assert " a "[1..] == "a ";
    assert LeadingSpaces("a ") == 0;
    assert LeadingSpaces(" a ") == 1;
  }
}
