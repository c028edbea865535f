/**
 * YamlBuddyAnnotator: a warning on every `${key}` of a String literal inside @Value whose
 * trimmed key is not empty.  It uses the pattern `\$\{([^}]+)}`, whose group 1 is the raw
 * body, trims it, and never consults the YAML files.
 */
module YamlBuddyAnnotator {
  import opened Wrappers
  import opened JavaStrings
  import opened Placeholders
  import opened YamlPropertyReference

  datatype HighlightSeverity = Warning

  /** holder.newAnnotation(severity, message).range(range).tooltip(tooltip).create(). */
  datatype Annotation = Annotation(severity: HighlightSeverity, message: string, range: TextRange,
                                   tooltip: string)

  /** "YAML key '" + key + "' might be missing". */
  function MightBeMissing(key: string): string {
    "YAML key '" + key + "' might be missing"
  }

  /** "Key '" + key + "' not found in application.yaml.\nClick to create it.". */
  function Tooltip(key: string): string {
    "Key '" + key + "' not found in application.yaml.\nClick to create it."
  }

  /** The warning and its tooltip both name the key, between fixed texts. */
  lemma MessagesNameKey(key: string)
    ensures var r := MightBeMissing(key);
      |r| == |key| + 28 && r[..10] == "YAML key '" && r[10..10 + |key|] == key
      && r[10 + |key|..] == "' might be missing"
    ensures var t := Tooltip(key);
      |t| == |key| + 57 && t[..5] == "Key '" && t[5..5 + |key|] == key
      && t[5 + |key|..] == "' not found in application.yaml.\nClick to create it."
  {
  }

  /** Different keys give different warnings. */
  lemma MightBeMissingInjective(a: string, b: string)
    requires MightBeMissing(a) == MightBeMissing(b)
    ensures a == b
  {
    MessagesNameKey(a);
    MessagesNameKey(b);
    var r := MightBeMissing(a);
    assert a == r[10..10 + |a|];
    assert |a| == |b|;
  }

  /** The annotation for one match of a literal starting at literalStart in the file. */
  function AnnotationOf(literalStart: int, m: Match): Annotation {
    var key := Trim(m.body);
    Annotation(Warning, MightBeMissing(key), TextRange(literalStart + 1 + m.start, literalStart + 1 + m.end),
               Tooltip(key))
  }

  /** One annotation per match, in order. */
  function AnnotationsOf(literalStart: int, ms: seq<Match>): (r: seq<Annotation>)
    ensures |r| == |ms|
  {
    if ms == [] then [] else AnnotationsOf(literalStart, ms[..|ms| - 1]) + [AnnotationOf(literalStart, ms[|ms| - 1])]
  }

  lemma AnnotationsOfSnoc(literalStart: int, ms: seq<Match>, m: Match)
    ensures AnnotationsOf(literalStart, ms + [m]) == AnnotationsOf(literalStart, ms) + [AnnotationOf(literalStart, m)]
  {
    assert (ms + [m])[..|ms|] == ms;
  }

  /** The k-th annotation is made from the k-th match. */
  lemma {:induction false} AnnotationsOfIndex(literalStart: int, ms: seq<Match>)
    ensures forall k :: 0 <= k < |ms| ==> AnnotationsOf(literalStart, ms)[k] == AnnotationOf(literalStart, ms[k])
  {
    if ms != [] {
      var init := ms[..|ms| - 1];
      AnnotationsOfIndex(literalStart, init);
      forall k | 0 <= k < |ms| - 1
        ensures AnnotationsOf(literalStart, ms)[k] == AnnotationOf(literalStart, ms[k])
      {
        assert ms[k] == init[k];
      }
    }
  }

  /** The annotations annotate() creates for an element whose literal starts at literalStart. */
  function Annotations(e: Element, literalStart: int): seq<Annotation> {
    if IsValueLiteral(e) then AnnotationsOf(literalStart, Kept(Scan(e.value.value), Raw, TrimEmpty)) else []
  }

  /**
   * annotate(element, holder), with the literal's getTextRange().getStartOffset(): the
   * annotations it creates in the holder, in the order it creates them.
   */
  method Annotate(e: Element, literalStart: int) returns (created: seq<Annotation>)
    ensures created == Annotations(e, literalStart)
  {
    if !e.Literal? {
      return [];
    }
    if e.value.None? {
      return [];
    }
    var text := e.value.value;
    if e.annotationName.None? {
      return [];
    }
    if e.annotationName.value != SPRING_VALUE {
      return [];
    }
    created := AnnotateText(text, literalStart);
  }

  /** The matcher loop of annotate() over the literal's text. */
  method AnnotateText(text: string, literalStart: int) returns (created: seq<Annotation>)
    ensures created == AnnotationsOf(literalStart, Kept(Scan(text), Raw, TrimEmpty))
  {
    ghost var total := Kept(Scan(text), Raw, TrimEmpty);
    ghost var seen: seq<Match> := [];
    created := [];
    var matcher := new Matcher(text);
    while true
      invariant matcher.input == text && matcher.searchFrom <= |text|
      invariant seen + Kept(ScanFrom(text, matcher.searchFrom), Raw, TrimEmpty) == total
      invariant created == AnnotationsOf(literalStart, seen)
      decreases |text| - matcher.searchFrom
    {
      ghost var from := matcher.searchFrom;
      var found := matcher.Find();
      if !found {
        KeptScanNone(text, from, Raw, TrimEmpty, seen, total);
        break;
      }
      var m := matcher.matched.value;
      var key := Trim(Group1(Raw, m.body));
      if key == "" {
        KeptScanSkip(text, from, m, Raw, TrimEmpty, seen, total);
        continue;
      }
      KeptScanKeep(text, from, m, Raw, TrimEmpty, seen, total);
      AnnotateKeep(literalStart, seen, m, key);
      var highlightRange := TextRange(literalStart + 1 + m.start, literalStart + 1 + m.end);
      created := created + [Annotation(Warning, MightBeMissing(key), highlightRange, Tooltip(key))];
      seen := seen + [m];
    }
  }

  /** The warning annotate() creates for a kept match is the next one of the specification. */
  lemma AnnotateKeep(literalStart: int, seen: seq<Match>, m: Match, key: string)
    requires key == Trim(Group1(Raw, m.body))
    ensures AnnotationsOf(literalStart, seen) + [Annotation(Warning, MightBeMissing(key),
              TextRange(literalStart + 1 + m.start, literalStart + 1 + m.end), Tooltip(key))]
         == AnnotationsOf(literalStart, seen + [m])
  {
    AnnotationsOfSnoc(literalStart, seen, m);
  }

  /**
   * One warning per match whose trimmed body is not empty, in scan order: it covers the whole
   * placeholder in file coordinates (past the opening quote) and names the trimmed key in its
   * message and its tooltip.
   */
  lemma AnnotationsShape(s: string, annotationName: string, literalStart: int)
    requires annotationName == SPRING_VALUE
    ensures var anns, kept := Annotations(Literal(Some(s), Some(annotationName)), literalStart),
                              Kept(Scan(s), Raw, TrimEmpty);
      |anns| == |kept|
      && forall k :: 0 <= k < |anns| ==>
           anns[k].severity == Warning
           && anns[k].range == TextRange(literalStart + 1 + kept[k].start, literalStart + 1 + kept[k].end)
           && anns[k].message == MightBeMissing(Trim(kept[k].body))
           && anns[k].tooltip == Tooltip(Trim(kept[k].body))
  {
    AnnotationsOfIndex(literalStart, Kept(Scan(s), Raw, TrimEmpty));
  }

  /** A match is annotated exactly when its body does not trim to nothing. */
  lemma AnnotatedMatches(s: string)
    ensures forall m :: m in Kept(Scan(s), Raw, TrimEmpty) <==> m in Scan(s) && Trim(m.body) != ""
  {
    KeptMembers(Scan(s), Raw, TrimEmpty);
  }

  /** Only String literals inside @Value are annotated. */
  lemma OnlyValueLiterals(e: Element, literalStart: int)
    requires !IsValueLiteral(e)
    ensures Annotations(e, literalStart) == []
  {
  }

  /** Two patterns that keep the same matches. */
  lemma {:induction false} KeptAgree(ms: seq<Match>, a: Pattern, b: Pattern, skip: Skip)
    requires forall k :: 0 <= k < |ms| ==> Keeps(a, skip, ms[k]) == Keeps(b, skip, ms[k])
    ensures Kept(ms, a, skip) == Kept(ms, b, skip)
  {
    if ms != [] {
      assert forall k :: 0 <= k < |ms| - 1 ==> ms[1..][k] == ms[k + 1];
      KeptAgree(ms[1..], a, b, skip);
    }
  }

  /**
   * The annotator and the references agree: as many warnings as references, the k-th warning
   * covering the k-th reference's range moved by the literal's start, and naming the trimmed
   * reference key.
   */
  predicate Agree(anns: seq<Annotation>, refs: seq<PropertyReference>, literalStart: int) {
    |anns| == |refs|
    && forall k :: 0 <= k < |anns| ==>
         anns[k].range == TextRange(literalStart + refs[k].range.startOffset, literalStart + refs[k].range.endOffset)
         && anns[k].message == MightBeMissing(Trim(refs[k].keyPath))
  }

  /** The warnings of a literal inside @Value agree with the references of its value. */
  lemma AnnotationsMatchReferences(s: string, literalStart: int)
    ensures Agree(Annotations(Literal(Some(s), Some(SPRING_VALUE)), literalStart), ReferencesFor(s), literalStart)
  {
    var kept := Kept(Scan(s), Raw, TrimEmpty);
    KeptRawIsKeptSpaced(s);
    AnnotationsMatchReferencesOf(kept, literalStart);
  }

  /** Both patterns keep the same placeholders of a text: the trim ignores the leading spaces. */
  lemma KeptRawIsKeptSpaced(s: string)
    ensures Kept(Scan(s), Raw, TrimEmpty) == Kept(Scan(s), Spaced, TrimEmpty)
  {
    var ms := Scan(s);
    forall k | 0 <= k < |ms|
      ensures Keeps(Raw, TrimEmpty, ms[k]) == Keeps(Spaced, TrimEmpty, ms[k])
    {
      SpacedGroupTrim(ms[k].body);
    }
    KeptAgree(ms, Raw, Spaced, TrimEmpty);
  }

  /** The same agreement for any list of matches. */
  lemma AnnotationsMatchReferencesOf(kept: seq<Match>, literalStart: int)
    ensures Agree(AnnotationsOf(literalStart, kept), ReferencesOf(kept), literalStart)
  {
    var anns, refs := AnnotationsOf(literalStart, kept), ReferencesOf(kept);
    AnnotationsOfIndex(literalStart, kept);
    ReferencesOfIndex(kept);
    forall k | 0 <= k < |kept|
      ensures anns[k].range == TextRange(literalStart + refs[k].range.startOffset, literalStart + refs[k].range.endOffset)
      ensures anns[k].message == MightBeMissing(Trim(refs[k].keyPath))
    {
      AgreeAt(literalStart, kept[k]);
    }
  }

  /** The warning and the reference of one match. */
  lemma AgreeAt(literalStart: int, m: Match)
    ensures AnnotationOf(literalStart, m).range
         == TextRange(literalStart + ReferenceOf(m).range.startOffset, literalStart + ReferenceOf(m).range.endOffset)
    ensures AnnotationOf(literalStart, m).message == MightBeMissing(Trim(ReferenceOf(m).keyPath))
  {
    SpacedGroupTrim(m.body);
  }
}
