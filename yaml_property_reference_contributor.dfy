/**
 * YamlPropertyReferenceContributor: the reference provider registered for literal
 * expressions.  It hands out the references of a String literal inside @Value whose text
 * holds both "${" and "}", and nothing for any other element.
 */
module YamlPropertyReferenceContributor {
  import opened Wrappers
  import opened JavaStrings
  import opened Placeholders
  import opened YamlPropertyReference

  /**
   * getReferencesByElement: the guards in the order the provider tests them, then the
   * references of the literal's value.
   */
  function GetReferencesByElement(e: Element): (r: seq<PropertyReference>)
    ensures IsValueLiteral(e) ==> r == ReferencesFor(e.value.value)
    ensures !IsValueLiteral(e) ==> r == []
  {
    if e.Other? then []
    else if e.value.None? then []
    else if e.annotationName.None? || e.annotationName.value != SPRING_VALUE then []
    else
      var value := e.value.value;
      if !Contains(value, "${") || !Contains(value, "}") then
        GuardIsSound(value);
        []
      else ReferencesFor(value)
  }

  /**
   * The brace guard drops nothing: a text without "${" or without "}" has no reference,
   * because every match of the scan holds both.
   */
  lemma GuardIsSound(value: string)
    requires !Contains(value, "${") || !Contains(value, "}")
    ensures ReferencesFor(value) == []
  {
    if Scan(value) != [] {
      ScanNonEmptyHasBraces(value);
    }
  }

  /** "${a}" inside @Value gets one reference over the whole placeholder; under another annotation, none. */
  lemma ContributorExample()
    ensures GetReferencesByElement(Literal(Some("${a}"), Some(SPRING_VALUE)))
         == [PropertyReference(TextRange(1, 5), "a")]
    ensures GetReferencesByElement(Literal(Some("${a}"), Some("Value"))) == []
  {
    var s := "${a}";
    assert s[2..3] == "a";
    assert CloseBrace(s, 3) == Some(3);
    assert CloseBrace(s, 2) == Some(3);
    assert MatchAt(s, 0) == Some(Match(0, 4, "a"));
    assert FindFrom(s, 0) == Some(Match(0, 4, "a"));
    assert FindFrom(s, 4) == None;
    assert Scan(s) == [Match(0, 4, "a")];
    assert LeadingSpaces("a") == 0;
    assert Trim("a") == "a";
  }
}
