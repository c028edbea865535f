/**
 * The java.lang.String and java.util.regex behaviour the plugin depends on: the character
 * classes of `\s`, trim() and isBlank(), contains(), and split("\\.").
 */
module JavaStrings {

  /** A character of the regex class `\s` (no UNICODE_CHARACTER_CLASS flag): [ \t\n\x0B\f\r]. */
  predicate IsRegexSpace(c: char) {
    c == ' ' || ('\t' <= c <= '\r')
  }

  /** A character that String.trim() strips from either end: every code point up to U+0020. */
  predicate IsTrimmable(c: char) {
    c <= ' '
  }

  /** Character.isWhitespace, the test String.isBlank() applies to every code point. */
  predicate IsJavaWhitespace(c: char) {
    ('\t' <= c <= '\r') || ('\U{1C}' <= c <= ' ') || c == '\U{1680}'
    || ('\U{2000}' <= c <= '\U{2006}') || ('\U{2008}' <= c <= '\U{200A}')
    || c == '\U{2028}' || c == '\U{2029}' || c == '\U{205F}' || c == '\U{3000}'
  }

  /** String.isBlank(): empty or only whitespace code points. */
  predicate IsBlank(s: string) {
    forall i :: 0 <= i < |s| ==> IsJavaWhitespace(s[i])
  }

  /** The first index at or after i whose character trim() keeps, or |s|. */
  function KeptFrom(s: string, i: nat): (k: nat)
    requires i <= |s|
    ensures i <= k <= |s| && (k < |s| ==> !IsTrimmable(s[k]))
    decreases |s| - i
  {
    if i < |s| && IsTrimmable(s[i]) then KeptFrom(s, i + 1) else i
  }

  /** Everything KeptFrom passes over is trimmable. */
  lemma {:induction false} KeptFromSkipped(s: string, i: nat)
    requires i <= |s|
    ensures forall j :: i <= j < KeptFrom(s, i) ==> IsTrimmable(s[j])
    decreases |s| - i
  {
    if i < |s| && IsTrimmable(s[i]) {
      KeptFromSkipped(s, i + 1);
    }
  }

  /** One past the last index before j whose character trim() keeps, or 0. */
  function KeptUntil(s: string, j: nat): (k: nat)
    requires j <= |s|
    ensures k <= j && (k > 0 ==> !IsTrimmable(s[k - 1]))
  {
    if j > 0 && IsTrimmable(s[j - 1]) then KeptUntil(s, j - 1) else j
  }

  /** Everything KeptUntil passes over is trimmable. */
  lemma {:induction false} KeptUntilSkipped(s: string, j: nat)
    requires j <= |s|
    ensures forall i :: KeptUntil(s, j) <= i < j ==> IsTrimmable(s[i])
  {
    if j > 0 && IsTrimmable(s[j - 1]) {
      KeptUntilSkipped(s, j - 1);
    }
  }

  /** trim() leaves nothing of s: every character is at most U+0020. */
  predicate TrimsToEmpty(s: string) {
    forall i :: 0 <= i < |s| ==> IsTrimmable(s[i])
  }

  /** String.trim(): s without its leading and trailing characters up to U+0020. */
  function Trim(s: string): (r: string)
    ensures |r| <= |s|
  {
    var a, b := KeptFrom(s, 0), KeptUntil(s, |s|);
    if a < b then s[a..b] else []
  }

  /**
   * What trim() leaves: nothing exactly when every character is trimmable, and otherwise a
   * piece of s that neither starts nor ends with a trimmable character.
   */
  lemma TrimProperties(s: string)
    ensures |Trim(s)| == 0 <==> TrimsToEmpty(s)
    ensures Trim(s) == [] || (!IsTrimmable(Trim(s)[0]) && !IsTrimmable(Trim(s)[|Trim(s)| - 1]))
  {
    var a, b := KeptFrom(s, 0), KeptUntil(s, |s|);
    KeptFromSkipped(s, 0);
    KeptUntilSkipped(s, |s|);
    if a < b {
      assert Trim(s)[0] == s[a];
      assert !TrimsToEmpty(s);
    } else {
      forall i | 0 <= i < |s|
        ensures IsTrimmable(s[i])
      {
        assert i < a || b <= i;
      }
    }
  }

  predicate OccursAt(s: string, t: string, i: int) {
    0 <= i && i + |t| <= |s| && s[i..i + |t|] == t
  }

  function ContainsFrom(s: string, t: string, i: nat): bool
    decreases |s| - i
  {
    if i + |t| > |s| then false
    else OccursAt(s, t, i) || ContainsFrom(s, t, i + 1)
  }

  /** String.contains(t). */
  function Contains(s: string, t: string): bool {
    ContainsFrom(s, t, 0)
  }

  /** The search from i finds t exactly when t occurs at or after i. */
  lemma {:induction false} ContainsFromOccurs(s: string, t: string, i: nat)
    ensures ContainsFrom(s, t, i) <==> exists j :: i <= j && OccursAt(s, t, j)
    decreases |s| - i
  {
    if i + |t| <= |s| {
      ContainsFromOccurs(s, t, i + 1);
    }
  }

  /** contains(t) holds exactly when t occurs somewhere in s. */
  lemma ContainsOccurs(s: string, t: string)
    ensures Contains(s, t) <==> exists j :: OccursAt(s, t, j)
  {
    ContainsFromOccurs(s, t, 0);
  }

  /** The pieces of s between '.' characters, every empty piece kept. */
  function SplitAll(s: string): (r: seq<string>)
    ensures |r| >= 1
    ensures forall k :: 0 <= k < |r| ==> '.' !in r[k]
    ensures '.' !in s ==> r == [s]
  {
    if |s| == 0 then [""]
    else
      var rest := SplitAll(s[1..]);
      if s[0] == '.' then [""] + rest
      else
        assert s == [s[0]] + s[1..];
        [[s[0]] + rest[0]] + rest[1..]
  }

  /** The pieces joined back together, with a '.' between each two. */
  function JoinDots(ps: seq<string>): string
    requires |ps| >= 1
  {
    if |ps| == 1 then ps[0] else ps[0] + "." + JoinDots(ps[1..])
  }

  function DropTrailingEmpty(ps: seq<string>): (r: seq<string>)
    ensures |r| <= |ps| && r == ps[..|r|]
    ensures forall k :: |r| <= k < |ps| ==> ps[k] == ""
    ensures r == [] || r[|r| - 1] != ""
  {
    if |ps| > 0 && ps[|ps| - 1] == "" then DropTrailingEmpty(ps[..|ps| - 1]) else ps
  }

  /**
   * s.split("\\."): when no '.' occurs the result is [s] (so "" gives [""]); otherwise the
   * pieces between the dots with every trailing empty piece removed.
   */
  function SplitOnDots(s: string): seq<string> {
    if '.' !in s then [s] else DropTrailingEmpty(SplitAll(s))
  }

  /**
   * What split("\\.") gives: pieces without '.', a prefix of all the pieces whose dropped tail
   * is empty pieces only; [""] for the empty text; no empty last piece otherwise; and nothing at
   * all exactly when the text is a non-empty run of dots.
   */
  lemma SplitOnDotsMeaning(s: string)
    ensures var r := SplitOnDots(s);
      && (forall k :: 0 <= k < |r| ==> '.' !in r[k])
      && |r| <= |SplitAll(s)| && r == SplitAll(s)[..|r|]
      && (forall k :: |r| <= k < |SplitAll(s)| ==> SplitAll(s)[k] == "")
      && (s == "" ==> r == [""])
      && (s != "" ==> r == [] || r[|r| - 1] != "")
      && (r == [] <==> s != "" && forall i :: 0 <= i < |s| ==> s[i] == '.')
  {
    if '.' in s {
      var r := DropTrailingEmpty(SplitAll(s));
      EmptyPiecesIffDots(s);
      assert r == [] <==> forall k :: 0 <= k < |SplitAll(s)| ==> SplitAll(s)[k] == "";
    }
  }

  lemma {:induction false} EmptyPiecesIffDots(s: string)
    ensures (forall k :: 0 <= k < |SplitAll(s)| ==> SplitAll(s)[k] == "")
        <==> (forall i :: 0 <= i < |s| ==> s[i] == '.')
  {
    if |s| > 0 {
      EmptyPiecesIffDots(s[1..]);
      var rest := SplitAll(s[1..]);
      if s[0] == '.' {
        assert SplitAll(s) == [""] + rest;
        assert forall k :: 0 <= k < |rest| ==> rest[k] == SplitAll(s)[k + 1];
        assert forall i :: 0 <= i < |s| - 1 ==> s[1..][i] == s[i + 1];
      } else {
        assert SplitAll(s)[0] == [s[0]] + rest[0];
      }
    }
  }

  /** Splitting and rejoining gives the original text back. */
  lemma {:induction false} JoinSplitAll(s: string)
    ensures JoinDots(SplitAll(s)) == s
  {
    if |s| > 0 {
      JoinSplitAll(s[1..]);
      var rest := SplitAll(s[1..]);
      if s[0] == '.' {
        assert SplitAll(s) == [""] + rest;
        assert JoinDots(SplitAll(s)) == "" + "." + JoinDots(rest);
      } else {
        JoinConsChar(s[0], rest);
        assert s == [s[0]] + s[1..];
      }
    }
  }

  lemma {:induction false} JoinConsChar(c: char, ps: seq<string>)
    requires |ps| >= 1
    ensures JoinDots([[c] + ps[0]] + ps[1..]) == [c] + JoinDots(ps)
  {
    var qs := [[c] + ps[0]] + ps[1..];
    if |ps| > 1 {
      assert qs[1..] == ps[1..];
    }
  }

  /** A trailing dot leaves no empty last piece. */
  lemma SplitOnDotsTrailing()
    ensures SplitOnDots("a.b.") == ["a", "b"]
  {
    assert SplitAll(".") == ["", ""];
    assert SplitAll("b.") == ["b", ""] by {
      assert "b."[1..] == "." && ['b'] + "" == "b";
    }
    assert SplitAll(".b.") == ["", "b", ""] by {
      assert ".b."[1..] == "b.";
    }
    assert SplitAll("a.b.") == ["a", "b", ""] by {
      assert "a.b."[1..] == ".b." && ['a'] + "" == "a";
    }
  }

  /** Only dots split to nothing, the empty text to one empty piece, a leading dot to an empty first piece. */
  lemma SplitOnDotsEdges()
    ensures SplitOnDots("...") == []
    ensures SplitOnDots("") == [""]
    ensures SplitOnDots(".a") == ["", "a"]
  {
    assert SplitOnDots("...") == [];
    assert SplitAll(".a"[1..]) == ["a"];
    assert SplitAll(".a") == ["", "a"];
  }
}
