/**
 * MissingYamlKeyInspection: the local inspection that reports a problem on every `${key}` of a
 * String literal inside @Value, unless some reference of that literal resolves.  It scans with
 * the pattern `\$\{\s*([^}]+)\s*}`, skips a match whose group 1 is blank, and attaches the quick
 * fix for the untrimmed group 1.
 *
 * The inspection changes no file, so what it reports depends only on the root mappings of the
 * ranked application.yml/application.yaml files; the specification functions below take those
 * roots as a value.
 */
module MissingYamlKeyInspection {
  import opened Wrappers
  import opened JavaStrings
  import opened YamlTree
  import opened Placeholders
  import opened YamlPsiUtils
  import opened YamlPropertyReference
  import opened CreateYamlKeyQuickFix

  /** The root mapping of every YAML file probed, in rank order. */
  type Roots = seq<Option<seq<KeyValue>>>

  function RootsOf(files: seq<PsiFile>): (r: Roots)
    reads files
    ensures |r| == |files|
  {
    if files == [] then [] else [files[0].root] + RootsOf(files[1..])
  }

  /** Some root resolves the parts. */
  predicate FoundIn(roots: Roots, parts: seq<string>) {
    roots != [] && (ResolveDoc(roots[0], parts).Some? || FoundIn(roots[1..], parts))
  }

  /** findYamlKey finds something exactly when some probed root resolves the path. */
  lemma {:induction false} FirstHitFound(files: seq<PsiFile>, parts: seq<string>)
    ensures FirstHit(files, parts).Some? == FoundIn(RootsOf(files), parts)
  {
    if files != [] {
      FirstHitFound(files[1..], parts);
      assert RootsOf(files)[1..] == RootsOf(files[1..]);
    }
  }

  /** FoundIn holds exactly when one of the roots resolves the parts. */
  lemma {:induction false} FoundInMeaning(roots: Roots, parts: seq<string>)
    ensures FoundIn(roots, parts) <==> exists j :: 0 <= j < |roots| && ResolveDoc(roots[j], parts).Some?
  {
    if roots != [] {
      FoundInMeaning(roots[1..], parts);
      assert forall j :: 1 <= j < |roots| ==> roots[j] == roots[1..][j - 1];
      if ResolveDoc(roots[0], parts).None? && exists j :: 0 <= j < |roots| && ResolveDoc(roots[j], parts).Some? {
        var j :| 0 <= j < |roots| && ResolveDoc(roots[j], parts).Some?;
        assert ResolveDoc(roots[1..][j - 1], parts).Some?;
      }
    }
  }

  datatype ProblemHighlightType = GenericErrorOrWarning

  /** createProblemDescriptor(expression, range, message, highlightType, isOnTheFly, fix). */
  datatype ProblemDescriptor = ProblemDescriptor(range: TextRange, message: string,
                                                 highlightType: ProblemHighlightType, fix: QuickFix)

  /**
   * The descriptor the loop builds for an unresolved match: the match's span moved past the
   * literal's opening quote, the message naming group 1, and a fix creating group 1.
   */
  function ProblemOf(m: Match): ProblemDescriptor {
    var key := Group1(Spaced, m.body);
    ProblemDescriptor(TextRange(m.start + 1, m.end + 1), NotFoundMessage(key), GenericErrorOrWarning, QuickFix(key))
  }

  /** One problem per match, in order. */
  function ProblemsOf(ms: seq<Match>): (r: seq<ProblemDescriptor>)
    ensures |r| == |ms|
  {
    if ms == [] then [] else ProblemsOf(ms[..|ms| - 1]) + [ProblemOf(ms[|ms| - 1])]
  }

  lemma ProblemsOfSnoc(ms: seq<Match>, m: Match)
    ensures ProblemsOf(ms + [m]) == ProblemsOf(ms) + [ProblemOf(m)]
  {
    assert (ms + [m])[..|ms|] == ms;
  }

  /** The k-th problem is made from the k-th match. */
  lemma {:induction false} ProblemsOfIndex(ms: seq<Match>)
    ensures forall k :: 0 <= k < |ms| ==> ProblemsOf(ms)[k] == ProblemOf(ms[k])
  {
    if ms != [] {
      var init := ms[..|ms| - 1];
      ProblemsOfIndex(init);
      forall k | 0 <= k < |ms| - 1
        ensures ProblemsOf(ms)[k] == ProblemOf(ms[k])
      {
        assert ms[k] == init[k];
      }
    }
  }

  /** ref.resolve() != null: the reference's dot-path is found in some probed root. */
  predicate Resolves(roots: Roots, ref: PropertyReference) {
    FoundIn(roots, SplitOnDots(ref.keyPath))
  }

  /** Some reference of the list resolves, checked in order from the first one. */
  predicate AnyResolves(roots: Roots, refs: seq<PropertyReference>) {
    refs != [] && (AnyResolves(roots, refs[..|refs| - 1]) || Resolves(roots, refs[|refs| - 1]))
  }

  /** AnyResolves holds exactly when one of the references resolves. */
  lemma {:induction false} AnyResolvesMeaning(roots: Roots, refs: seq<PropertyReference>)
    ensures AnyResolves(roots, refs) <==> exists k :: 0 <= k < |refs| && Resolves(roots, refs[k])
  {
    if refs != [] {
      var init := refs[..|refs| - 1];
      AnyResolvesMeaning(roots, init);
      assert forall k :: 0 <= k < |init| ==> init[k] == refs[k];
    }
  }

  /**
   * The problems visitLiteralExpression registers for a literal inside @Value: none when any
   * reference of the whole literal resolves, else one per match whose group 1 is not blank.
   */
  function ProblemsFor(roots: Roots, s: string): seq<ProblemDescriptor> {
    if AnyResolves(roots, ReferencesFor(s)) then [] else ProblemsOf(Kept(Scan(s), Spaced, Blank))
  }

  /** The problems registered for an element: only String literals inside @Value are inspected. */
  function Reported(roots: Roots, e: Element): seq<ProblemDescriptor> {
    if IsValueLiteral(e) then ProblemsFor(roots, e.value.value) else []
  }

  /**
   * The inner loop of visitLiteralExpression: createReferences(expression), then resolve() on
   * each reference until one succeeds.
   */
  method AnyReferenceResolves(p: Project, literal: string) returns (resolved: bool)
    ensures resolved == AnyResolves(RootsOf(RankedFiles(p)), ReferencesFor(literal))
  {
    var refs := CreateReferencesForLiteral(literal);
    resolved := ResolveUntilHit(p, refs);
  }

  /** resolve() on each reference in turn, stopping at the first that succeeds. */
  method ResolveUntilHit(p: Project, refs: seq<PropertyReference>) returns (resolved: bool)
    ensures resolved == AnyResolves(RootsOf(RankedFiles(p)), refs)
  {
    ghost var roots := RootsOf(RankedFiles(p));
    RankedFilesAllocated(p);
    var i := 0;
    while i < |refs|
      invariant 0 <= i <= |refs|
      invariant forall j :: 0 <= j < |RankedFiles(p)| ==> allocated(RankedFiles(p)[j])
      invariant RootsOf(RankedFiles(p)) == roots
      invariant !AnyResolves(roots, refs[..i])
    {
      var target := refs[i].Resolve(p);
      FirstHitFound(RankedFiles(p), SplitOnDots(refs[i].keyPath));
      if target.Some? {
        HitResolves(roots, refs, i);
        return true;
      }
      MissResolvesNot(roots, refs, i);
      i := i + 1;
    }
    assert refs[..i] == refs;
    resolved := false;
  }

  /** One resolving reference makes the list resolve. */
  lemma HitResolves(roots: Roots, refs: seq<PropertyReference>, i: nat)
    requires i < |refs| && Resolves(roots, refs[i])
    ensures AnyResolves(roots, refs)
  {
    AnyResolvesMeaning(roots, refs);
  }

  /** A prefix that does not resolve, followed by a reference that does not, still does not. */
  lemma MissResolvesNot(roots: Roots, refs: seq<PropertyReference>, i: nat)
    requires i < |refs| && !AnyResolves(roots, refs[..i]) && !Resolves(roots, refs[i])
    ensures !AnyResolves(roots, refs[..i + 1])
  {
    assert refs[..i + 1][..i] == refs[..i];
  }

  /** The ranked files are objects of the heap the plugin runs in. */
  lemma RankedFilesAllocated(p: Project)
    ensures forall j :: 0 <= j < |RankedFiles(p)| ==> allocated(RankedFiles(p)[j])
  {
    RankedFilesMembers(p);
    forall j | 0 <= j < |RankedFiles(p)|
      ensures allocated(RankedFiles(p)[j])
    {
      var f := RankedFiles(p)[j];
      assert f in AllFiles(p);
      if f !in p.files.Values {
        var name :| name in p.index && f in p.index[name];
      }
    }
  }

  /**
   * visitLiteralExpression(expression): the guards in the order the visitor tests them, then
   * the matcher loop; the problems it registers in the holder, in order.
   */
  method VisitLiteralExpression(p: Project, e: Element) returns (registered: seq<ProblemDescriptor>)
    ensures registered == Reported(RootsOf(RankedFiles(p)), e)
  {
    if !e.Literal? {
      return [];
    }
    if e.value.None? {
      return [];
    }
    var literal := e.value.value;
    if e.annotationName.None? {
      return [];
    }
    if e.annotationName.value != SPRING_VALUE {
      return [];
    }
    registered := InspectLiteral(p, literal);
  }

  /**
   * The matcher loop of visitLiteralExpression over the literal's text.  The matcher is a
   * cursor into the text; for every match whose group 1 is not blank, the references of the
   * whole literal are resolved until one resolves, and a problem is registered when none does.
   */
  method InspectLiteral(p: Project, literal: string) returns (registered: seq<ProblemDescriptor>)
    ensures registered == ProblemsFor(RootsOf(RankedFiles(p)), literal)
  {
    ghost var roots := RootsOf(RankedFiles(p));
    ghost var total := Kept(Scan(literal), Spaced, Blank);
    ghost var masked := AnyResolves(roots, ReferencesFor(literal));
    ghost var seen: seq<Match> := [];
    registered := [];
    RankedFilesAllocated(p);
    var matcher := new Matcher(literal);
    while true
      invariant matcher.input == literal && matcher.searchFrom <= |literal|
      invariant RootsOf(RankedFiles(p)) == roots
      invariant seen + Kept(ScanFrom(literal, matcher.searchFrom), Spaced, Blank) == total
      invariant registered == if masked then [] else ProblemsOf(seen)
      decreases |literal| - matcher.searchFrom
    {
      ghost var from := matcher.searchFrom;
      var found := matcher.Find();
      assert RootsOf(RankedFiles(p)) == roots;
      if !found {
        KeptScanNone(literal, from, Spaced, Blank, seen, total);
        break;
      }
      var m := matcher.matched.value;
      var key := Group1(Spaced, m.body);
      if IsBlank(key) {
        KeptScanSkip(literal, from, m, Spaced, Blank, seen, total);
      } else {
        KeptScanKeep(literal, from, m, Spaced, Blank, seen, total);
        registered := InspectMatch(p, literal, m, masked, seen, registered);
        seen := seen + [m];
      }
    }
  }

  /**
   * The body of the matcher loop for a match whose group 1 is not blank: resolve the references
   * of the whole literal, and register the match's problem when none resolves.
   */
  method InspectMatch(p: Project, literal: string, m: Match, ghost masked: bool, ghost seen: seq<Match>,
                      registered: seq<ProblemDescriptor>) returns (registered': seq<ProblemDescriptor>)
    requires masked == AnyResolves(RootsOf(RankedFiles(p)), ReferencesFor(literal))
    requires registered == if masked then [] else ProblemsOf(seen)
    ensures registered' == if masked then [] else ProblemsOf(seen + [m])
    ensures RootsOf(RankedFiles(p)) == old(RootsOf(RankedFiles(p)))
  {
    ghost var roots := RootsOf(RankedFiles(p));
    RankedFilesAllocated(p);
    var resolved := AnyReferenceResolves(p, literal);
    assert RootsOf(RankedFiles(p)) == roots;
    registered' := registered;
    if !resolved {
      ProblemsOfSnoc(seen, m);
      registered' := registered + [ProblemOf(m)];
    }
  }

  /**
   * The problems are those of the matches, one each and in order: the k-th covers the k-th
   * match past the opening quote, carries a fix for its untrimmed group 1, and its message
   * names that same key.
   */
  predicate Describes(probs: seq<ProblemDescriptor>, ms: seq<Match>) {
    |probs| == |ms|
    && forall k :: 0 <= k < |probs| ==>
         probs[k].range == TextRange(ms[k].start + 1, ms[k].end + 1)
         && probs[k].fix.keyPath == SpacedGroup(ms[k].body)
         && probs[k].message == NotFoundMessage(probs[k].fix.keyPath)
         && probs[k].highlightType == GenericErrorOrWarning
  }

  /** When no reference of the literal resolves, its problems describe the non-blank matches. */
  lemma ProblemsShape(roots: Roots, s: string)
    requires !AnyResolves(roots, ReferencesFor(s))
    ensures Describes(ProblemsFor(roots, s), Kept(Scan(s), Spaced, Blank))
  {
    var kept := Kept(Scan(s), Spaced, Blank);
    assert ProblemsFor(roots, s) == ProblemsOf(kept);
    ProblemsOfShape(kept);
  }

  /** The problems of a list of matches describe it. */
  lemma ProblemsOfShape(ms: seq<Match>)
    ensures Describes(ProblemsOf(ms), ms)
  {
    ProblemsOfIndex(ms);
  }

  /** A single resolving reference anywhere in the literal silences every problem of it. */
  lemma ResolvedSilences(roots: Roots, s: string, k: nat)
    requires k < |ReferencesFor(s)| && Resolves(roots, ReferencesFor(s)[k])
    ensures ProblemsFor(roots, s) == []
  {
    HitResolves(roots, ReferencesFor(s), k);
  }

  /** A match is inspected exactly when its group 1 is not blank. */
  lemma InspectedMatches(s: string)
    ensures forall m :: m in Kept(Scan(s), Spaced, Blank) <==> m in Scan(s) && !IsBlank(SpacedGroup(m.body))
  {
    KeptMembers(Scan(s), Spaced, Blank);
  }

  /** The problems of a literal are in text order and do not overlap. */
  lemma ProblemsOrdered(roots: Roots, s: string)
    ensures var probs := ProblemsFor(roots, s);
      forall k :: 0 <= k < |probs| - 1 ==> probs[k].range.endOffset <= probs[k + 1].range.startOffset
  {
    var kept := Kept(Scan(s), Spaced, Blank);
    if !AnyResolves(roots, ReferencesFor(s)) {
      assert ProblemsFor(roots, s) == ProblemsOf(kept);
      ScanKeptOrdered(s, Spaced, Blank);
      ProblemsOfOrdered(kept);
    }
  }

  /** Problems made from ordered matches are ordered. */
  lemma ProblemsOfOrdered(ms: seq<Match>)
    requires Ordered(ms, 0)
    ensures var probs := ProblemsOf(ms);
      forall k :: 0 <= k < |probs| - 1 ==> probs[k].range.endOffset <= probs[k + 1].range.startOffset
  {
    ProblemsOfIndex(ms);
    OrderedIndices(ms, 0);
  }

  /** Other elements and literals outside @Value are not inspected. */
  lemma OnlyValueLiteralsInspected(roots: Roots, e: Element)
    requires !IsValueLiteral(e)
    ensures Reported(roots, e) == []
  {
  }
}
