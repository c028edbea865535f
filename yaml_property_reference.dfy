/**
 * YamlPropertyReference: a reference from a `${key}` placeholder of an @Value literal to the
 * YAML entry its dot-path names, and the scan that creates one reference per placeholder.
 */
module YamlPropertyReference {
  import opened Wrappers
  import opened JavaStrings
  import opened Placeholders
  import opened YamlPsiUtils
  import opened Seqs

  /** The text of an unresolved reference: "YAML key '" + key + "' not found". */
  function NotFoundMessage(key: string): string {
    "YAML key '" + key + "' not found"
  }

  /** The message names the key between two fixed texts. */
  lemma NotFoundMessageNamesKey(key: string)
    ensures var r := NotFoundMessage(key);
      |r| == |key| + 21 && r[..10] == "YAML key '" && r[10..10 + |key|] == key && r[10 + |key|..] == "' not found"
  {
  }

  /** Two keys give the same message only when they are the same key. */
  lemma NotFoundMessageInjective(a: string, b: string)
    requires NotFoundMessage(a) == NotFoundMessage(b)
    ensures a == b
  {
    NotFoundMessageNamesKey(a);
    NotFoundMessageNamesKey(b);
    var r := NotFoundMessage(a);
    assert a == r[10..10 + |a|];
    assert |a| == |b|;
  }

  /** A reference of an element: the range it covers in the element's text and its dot-path. */
  datatype PropertyReference = PropertyReference(range: TextRange, keyPath: string)
  {
    /** resolve(): findYamlKey of the project for keyPath. */
    method Resolve(p: Project) returns (target: Option<KeyHit>)
      ensures target == FirstHit(RankedFiles(p), SplitOnDots(keyPath))
    {
      target := FindYamlKey(p, keyPath);
    }

    /** multiResolve(): no result when resolve() finds nothing, else exactly its one target. */
    method MultiResolve(p: Project) returns (results: seq<KeyHit>)
      ensures |results| <= 1
      ensures results == [] <==> FirstHit(RankedFiles(p), SplitOnDots(keyPath)).None?
      ensures results != [] ==> Some(results[0]) == FirstHit(RankedFiles(p), SplitOnDots(keyPath))
    {
      var target := Resolve(p);
      if target.None? {
        return [];
      }
      results := [target.value];
    }

    /** getVariants(): no completion variants. */
    function GetVariants(): (r: seq<string>)
      ensures |r| == 0
    {
      []
    }

    function GetUnresolvedMessagePattern(): (r: string)
      ensures r == NotFoundMessage(keyPath)
      ensures r[10..|r| - 11] == keyPath
    {
      NotFoundMessage(keyPath)
    }

    /** handleElementRename always throws IncorrectOperationException: it never yields an element. */
    function HandleElementRename(newElementName: string): (r: Result<PropertyReference, string>)
      ensures r.Failure? && r.error == "Rename not supported for literal references"
    {
      Failure("Rename not supported for literal references")
    }
  }

  /** The reference made from one match: the placeholder's span moved past the opening quote, and group 1. */
  function ReferenceOf(m: Match): PropertyReference {
    PropertyReference(TextRange(1 + m.start, 1 + m.end), Group1(Spaced, m.body))
  }

  /** One reference per match, in order. */
  function ReferencesOf(ms: seq<Match>): (r: seq<PropertyReference>)
    ensures |r| == |ms|
  {
    if ms == [] then [] else [ReferenceOf(ms[0])] + ReferencesOf(ms[1..])
  }

  /** The k-th reference is made from the k-th match. */
  lemma {:induction false} ReferencesOfIndex(ms: seq<Match>)
    ensures forall k :: 0 <= k < |ms| ==> ReferencesOf(ms)[k] == ReferenceOf(ms[k])
  {
    if ms != [] {
      ReferencesOfIndex(ms[1..]);
      var r, rest := ReferencesOf(ms), ReferencesOf(ms[1..]);
      assert r == [ReferenceOf(ms[0])] + rest;
      forall k | 1 <= k < |ms|
        ensures r[k] == ReferenceOf(ms[k])
      {
        assert r[k] == rest[k - 1];
        assert ms[k] == ms[1..][k - 1];
      }
    }
  }

  /** The references of the find() loop from position from, one find() at a time. */
  function ReferencesFrom(s: string, from: nat): seq<PropertyReference>
    decreases |s| - from
  {
    match FindFrom(s, from)
    case None => []
    case Some(m) =>
      (if Trim(Group1(Spaced, m.body)) != "" then [ReferenceOf(m)] else []) + ReferencesFrom(s, m.end)
  }

  /** The loop-shaped definition agrees with the references of the kept matches of the scan. */
  lemma {:induction false} ReferencesFromScan(s: string, from: nat)
    ensures ReferencesFrom(s, from) == ReferencesOf(Kept(ScanFrom(s, from), Spaced, TrimEmpty))
    decreases |s| - from
  {
    match FindFrom(s, from)
    case None =>
      assert ScanFrom(s, from) == [];
    case Some(m) =>
      ReferencesFromScan(s, m.end);
      ReferencesFromUnfold(s, from, m);
      var rest := ScanFrom(s, m.end);
      var tail := Kept(rest, Spaced, TrimEmpty);
      assert ScanFrom(s, from) == [m] + rest;
      KeptCons(m, rest, Spaced, TrimEmpty);
      if Keeps(Spaced, TrimEmpty, m) {
        ConsTail([m], tail);
        assert ReferencesOf([m] + tail) == [ReferenceOf(m)] + ReferencesOf(tail);
      } else {
        assert [] + tail == tail;
      }
  }

  /** The references createReferencesForLiteral returns for a literal's text: those of the kept matches. */
  function ReferencesFor(literalText: string): seq<PropertyReference> {
    ReferencesOf(Kept(Scan(literalText), Spaced, TrimEmpty))
  }

  /** One find() that fails ends the references. */
  lemma ReferencesFromNone(s: string, from: nat, done: seq<PropertyReference>, total: seq<PropertyReference>)
    requires done + ReferencesFrom(s, from) == total
    requires FindFrom(s, from).None?
    ensures done == total
  {
  }

  /** One find() of m: the reference of m, unless group 1 trims to nothing, then the rest. */
  lemma ReferencesFromUnfold(s: string, from: nat, m: Match)
    requires FindFrom(s, from) == Some(m)
    ensures Trim(Group1(Spaced, m.body)) != "" ==> ReferencesFrom(s, from) == [ReferenceOf(m)] + ReferencesFrom(s, m.end)
    ensures Trim(Group1(Spaced, m.body)) == "" ==> ReferencesFrom(s, from) == ReferencesFrom(s, m.end)
  {
    assert [] + ReferencesFrom(s, m.end) == ReferencesFrom(s, m.end);
  }

  /** A find() whose group 1 trims to nothing adds no reference. */
  lemma ReferencesFromSkip(s: string, from: nat, m: Match, done: seq<PropertyReference>, total: seq<PropertyReference>)
    requires done + ReferencesFrom(s, from) == total
    requires FindFrom(s, from) == Some(m) && Trim(Group1(Spaced, m.body)) == ""
    ensures done + ReferencesFrom(s, m.end) == total
  {
    ReferencesFromUnfold(s, from, m);
  }

  /** A find() whose group 1 keeps a character adds the reference of its match. */
  lemma ReferencesFromKeep(s: string, from: nat, m: Match, done: seq<PropertyReference>, total: seq<PropertyReference>)
    requires done + ReferencesFrom(s, from) == total
    requires FindFrom(s, from) == Some(m) && Trim(Group1(Spaced, m.body)) != ""
    ensures (done + [PropertyReference(TextRange(1 + m.start, 1 + m.end), Group1(Spaced, m.body))])
      + ReferencesFrom(s, m.end) == total
  {
    var ref := ReferenceOf(m);
    var rest := ReferencesFrom(s, m.end);
    assert (done + [ref]) + rest == done + ([ref] + rest);
    assert ref == PropertyReference(TextRange(1 + m.start, 1 + m.end), Group1(Spaced, m.body));
    ReferencesFromUnfold(s, from, m);
  }

  method CreateReferencesForLiteral(literalText: string) returns (refs: seq<PropertyReference>)
    ensures refs == ReferencesFor(literalText)
  {
    ReferencesFromScan(literalText, 0);
    ghost var total := ReferencesFor(literalText);
    refs := [];
    var matcher := new Matcher(literalText);
    while true
      invariant matcher.input == literalText && matcher.searchFrom <= |literalText|
      invariant refs + ReferencesFrom(literalText, matcher.searchFrom) == total
      decreases |literalText| - matcher.searchFrom
    {
      ghost var from := matcher.searchFrom;
      var found := matcher.Find();
      if !found {
        ReferencesFromNone(literalText, from, refs, total);
        break;
      }
      var m := matcher.matched.value;
      var key := Group1(Spaced, m.body);
      if Trim(key) == "" {
        ReferencesFromSkip(literalText, from, m, refs, total);
        continue;
      }
      ReferencesFromKeep(literalText, from, m, refs, total);
      refs := refs + [PropertyReference(TextRange(1 + m.start, 1 + m.end), key)];
    }
  }

  /** A match of the scan gives a reference exactly when its group 1 does not trim to nothing. */
  lemma ReferencesForKept(s: string)
    ensures forall m :: m in Kept(Scan(s), Spaced, TrimEmpty) <==> m in Scan(s) && Trim(SpacedGroup(m.body)) != ""
  {
    KeptMembers(Scan(s), Spaced, TrimEmpty);
  }

  /**
   * The k-th reference of a literal comes from the k-th kept match: it covers the whole
   * placeholder, one character to the right (past the opening quote), and carries group 1 untrimmed.
   */
  lemma ReferencesForShape(s: string)
    ensures var refs, kept := ReferencesFor(s), Kept(Scan(s), Spaced, TrimEmpty);
      |refs| == |kept|
      && forall k :: 0 <= k < |refs| ==>
           refs[k].range == TextRange(1 + kept[k].start, 1 + kept[k].end)
           && refs[k].keyPath == SpacedGroup(kept[k].body)
  {
    ReferencesOfIndex(Kept(Scan(s), Spaced, TrimEmpty));
  }

  /** The references of a literal are in text order and do not overlap. */
  lemma ReferencesForOrdered(s: string)
    ensures var refs := ReferencesFor(s);
      forall k :: 0 <= k < |refs| - 1 ==> refs[k].range.endOffset <= refs[k + 1].range.startOffset
  {
    var kept := Kept(Scan(s), Spaced, TrimEmpty);
    ReferencesOfIndex(kept);
    ScanKeptOrdered(s, Spaced, TrimEmpty);
    OrderedIndices(kept, 0);
  }

  /** Group 1 keeps the trailing blank of "${ a }": the dot-path becomes ["a "]. */
  lemma TrailingSpaceKept()
    ensures ReferencesFor("${ a }") == [PropertyReference(TextRange(1, 7), "a ")]
    ensures SplitOnDots("a ") == ["a "]
  {
    var s := "${ a }";
    assert s[2..5] == " a ";
    assert CloseBrace(s, 5) == Some(5);
    assert CloseBrace(s, 2) == Some(5);
    assert MatchAt(s, 0) == Some(Match(0, 6, " a "));
    assert FindFrom(s, 0) == Some(Match(0, 6, " a "));
    assert FindFrom(s, 6) == None;
    assert Scan(s) == [Match(0, 6, " a ")];
    assert " a "[1..] == "a ";
    assert SpacedGroup(" a ") == "a ";
    assert Trim("a ") != "";
  }

  /** The whitespace-only placeholder of the malformed-key case yields no reference. */
  lemma BlankPlaceholderNoReference()
    ensures ReferencesFor("${ }") == []
  {
    BlankPlaceholder();
    assert Scan("${ }")[0] == Match(0, 4, " ");
  }
}
