/**
 * CreateYamlKeyQuickFix: the fix offered for a missing key, both as an inspection quick fix
 * and as an Alt+Enter intention.  Its one field, the key path, is fixed at construction; the
 * fix creates the path in the chosen application.yaml and then looks it up to navigate there.
 */
module CreateYamlKeyQuickFix {
  import opened Wrappers
  import opened JavaStrings
  import opened YamlTree
  import opened YamlPsiUtils

  /** The family every fix of the plugin belongs to. */
  const FAMILY_NAME: string := "YAML Buddy QuickFixes"

  /** A fix for one key path; the path is final, so the fix is a value. */
  datatype QuickFix = QuickFix(keyPath: string)
  {
    /** getName(): "Create key '" + keyPath + "' in application.yaml". */
    function GetName(): (r: string)
      ensures |r| == |keyPath| + 33
      ensures r[..12] == "Create key '" && r[12..12 + |keyPath|] == keyPath
      ensures r[12 + |keyPath|..] == "' in application.yaml"
    {
      "Create key '" + keyPath + "' in application.yaml"
    }

    /** getText(), the text of the Alt+Enter entry: the name, so it names the same key. */
    function GetText(): (r: string)
      ensures |r| == |keyPath| + 33
      ensures r[..12] == "Create key '" && r[12..|r| - 21] == keyPath
    {
      GetName()
    }

    /** getFamilyName(): one family for every fix, whatever its key. */
    function GetFamilyName(): (r: string)
      ensures r == FAMILY_NAME
    {
      FAMILY_NAME
    }

    /** isAvailable(project, editor, file): the fix is offered everywhere. */
    predicate IsAvailable()
      ensures IsAvailable()
    {
      true
    }

    /** startInWriteAction(): the fix writes to application.yaml. */
    predicate StartInWriteAction()
      ensures StartInWriteAction()
    {
      true
    }

    /**
     * executeFix: createMissingPathInYaml(keyPath), then findYamlKey(keyPath); the hit found
     * is the element navigated to.  The project's file index is the one given: a file the
     * fix creates is not in it, so the lookup does not see that file.
     */
    method ExecuteFix(p: Project, b: PsiEditBehaviour) returns (target: Option<PsiFile>, navigated: Option<KeyHit>)
      modifies AllFiles(p)
      ensures RankedFiles(p) != [] ==> target == Some(RankedFiles(p)[0])
      ensures RankedFiles(p) == [] && (p.basePath.None? || p.ioFails) ==> target.None?
      ensures !CreatesFile(p) ==> target == ChosenFile(p)
      ensures CreatesFile(p) ==>
        target.Some? && fresh(target.value) && target.value.path == CreatedPath(p.basePath.value)
        && target.value.isYamlFile
      ensures target.Some? && target.value in AllFiles(p) ==>
        target.value.root == Synthesize(old(target.value.root), SplitOnDots(keyPath), b)
      ensures target.Some? && target.value !in AllFiles(p) ==>
        fresh(target.value) && target.value.root == Synthesize(None, SplitOnDots(keyPath), b)
      ensures forall f :: f in AllFiles(p) && Some(f) != target ==> f.root == old(f.root)
      ensures navigated == FirstHit(RankedFiles(p), SplitOnDots(keyPath))
      ensures RankedFiles(p) != [] && |SplitOnDots(keyPath)| > 0 ==>
        navigated.Some? && navigated.value.file == RankedFiles(p)[0]
    {
      target := CreateMissingPathInYaml(p, keyPath, b);
      navigated := FindYamlKey(p, keyPath);
      if RankedFiles(p) != [] && |SplitOnDots(keyPath)| > 0 {
        var first := RankedFiles(p)[0];
        RankedFilesMembers(p);
        SynthesizeResolves(old(first.root), SplitOnDots(keyPath), b);
        FirstHitOfResolvingHead(RankedFiles(p), SplitOnDots(keyPath));
      }
    }

    /** applyFix(project, descriptor): the inspection's entry point, executeFix. */
    method ApplyFix(p: Project, b: PsiEditBehaviour) returns (target: Option<PsiFile>, navigated: Option<KeyHit>)
      modifies AllFiles(p)
      ensures RankedFiles(p) != [] ==> target == Some(RankedFiles(p)[0])
      ensures RankedFiles(p) == [] && (p.basePath.None? || p.ioFails) ==> target.None?
      ensures !CreatesFile(p) ==> target == ChosenFile(p)
      ensures CreatesFile(p) ==>
        target.Some? && fresh(target.value) && target.value.path == CreatedPath(p.basePath.value)
        && target.value.isYamlFile
      ensures target.Some? && target.value in AllFiles(p) ==>
        target.value.root == Synthesize(old(target.value.root), SplitOnDots(keyPath), b)
      ensures target.Some? && target.value !in AllFiles(p) ==>
        fresh(target.value) && target.value.root == Synthesize(None, SplitOnDots(keyPath), b)
      ensures forall f :: f in AllFiles(p) && Some(f) != target ==> f.root == old(f.root)
      ensures navigated == FirstHit(RankedFiles(p), SplitOnDots(keyPath))
    {
      target, navigated := ExecuteFix(p, b);
    }

    /** invoke(project, editor, file): the intention's entry point, the same executeFix. */
    method Invoke(p: Project, b: PsiEditBehaviour) returns (target: Option<PsiFile>, navigated: Option<KeyHit>)
      modifies AllFiles(p)
      ensures RankedFiles(p) != [] ==> target == Some(RankedFiles(p)[0])
      ensures RankedFiles(p) == [] && (p.basePath.None? || p.ioFails) ==> target.None?
      ensures !CreatesFile(p) ==> target == ChosenFile(p)
      ensures CreatesFile(p) ==>
        target.Some? && fresh(target.value) && target.value.path == CreatedPath(p.basePath.value)
        && target.value.isYamlFile
      ensures target.Some? && target.value in AllFiles(p) ==>
        target.value.root == Synthesize(old(target.value.root), SplitOnDots(keyPath), b)
      ensures target.Some? && target.value !in AllFiles(p) ==>
        fresh(target.value) && target.value.root == Synthesize(None, SplitOnDots(keyPath), b)
      ensures forall f :: f in AllFiles(p) && Some(f) != target ==> f.root == old(f.root)
      ensures navigated == FirstHit(RankedFiles(p), SplitOnDots(keyPath))
    {
      target, navigated := ExecuteFix(p, b);
    }
  }

  /** The probe stops at the first file when that file resolves the path. */
  lemma FirstHitOfResolvingHead(files: seq<PsiFile>, parts: seq<string>)
    requires files != [] && ResolveDoc(files[0].root, parts).Some?
    ensures FirstHit(files, parts) == Some(KeyHit(files[0], ResolveDoc(files[0].root, parts).value))
  {
  }

  /** Two fixes share a name only when they create the same key. */
  lemma GetNameInjective(a: QuickFix, b: QuickFix)
    requires a.GetName() == b.GetName()
    ensures a == b
  {
    var r := a.GetName();
    assert a.keyPath == r[12..12 + |a.keyPath|];
    assert |a.keyPath| == |b.keyPath|;
  }

  /** Every fix is in the same family, whatever key it creates. */
  lemma FamilyIsShared(a: QuickFix, b: QuickFix)
    ensures a.GetFamilyName() == b.GetFamilyName()
    ensures a.GetText() == a.GetName()
  {
  }

  /** The name of the fix for server.port. */
  lemma GetNameExample()
    ensures QuickFix("server.port").GetName() == "Create key 'server.port' in application.yaml"
  {
  }
}
