/**
 * YamlPsiUtils: locating application.yml / application.yaml, resolving a dot-path in a YAML
 * tree, and creating the missing part of a dot-path in place.
 *
 * The YAML parser and generator are foreign: parsing the text that BuildYamlText(ps) renders
 * is taken to give ChainKv(ps), the chain of nested entries for ps, with every key exactly as
 * written.  That holds for plain keys only: not empty, no leading or trailing blank, no line
 * break, no ": " or " #", not ending in ':' and not starting with a YAML indicator.  A real
 * parser trims "port " to "port", for instance; the synthesis lemmas do not cover such keys.
 */
module YamlPsiUtils {
  import opened Wrappers
  import opened JavaStrings
  import opened YamlTree
  import opened Seqs

  /** The two file names searched, in this order. */
  const CANDIDATES: seq<string> := ["application.yml", "application.yaml"]

  /** A PSI file returned by the filename index. */
  class PsiFile {
    /** getVirtualFile().getPath() */
    const path: string
    /** whether the file is a YAMLFile */
    const isYamlFile: bool
    /**
     * findChildOfType(file, YAMLMapping.class): the first mapping in depth-first order (for a
     * file "- a: 1", the mapping inside the first sequence item), None when there is none
     */
    var root: Option<seq<KeyValue>>

    constructor (path: string, isYamlFile: bool, root: Option<seq<KeyValue>>)
      ensures this.path == path && this.isYamlFile == isYamlFile && this.root == root
    {
      this.path := path;
      this.isYamlFile := isYamlFile;
      this.root := root;
    }
  }

  /**
   * What the project gives the plugin: the files the filename index returns per name, the
   * project's base path, the PSI files found by path on the local file system, and whether the
   * file-system calls of chooseOrCreateApplicationYaml throw.
   */
  datatype Project = Project(index: map<string, seq<PsiFile>>, basePath: Option<string>,
                             files: map<string, PsiFile>, ioFails: bool)

  /** FilenameIndex.getFilesByName. */
  function FilesByName(p: Project, name: string): seq<PsiFile> {
    if name in p.index then p.index[name] else []
  }

  /** Every file the plugin can reach in p. */
  ghost function AllFiles(p: Project): set<PsiFile> {
    (set name, f | name in p.index && f in p.index[name] :: f) + p.files.Values
  }

  /** A YAMLKeyValue found by findYamlKey, with the file it was found in. */
  datatype KeyHit = KeyHit(file: PsiFile, kv: KeyValue)

  // ---------------------------------------------------------------------------------------
  // Ranking: findApplicationYamlFiles

  /** The comparator's weight of a path: 0 for src/main/resources, 1 for other resources, 2 else. */
  function Weight(path: string): (w: nat)
    ensures w <= 2
  {
    if Contains(path, "/src/main/resources") then 0
    else if Contains(path, "/resources") then 1
    else 2
  }

  /** The files of fs whose weight is w, in their order in fs. */
  function OfWeight(fs: seq<PsiFile>, w: nat): seq<PsiFile> {
    if fs == [] then []
    else (if Weight(fs[0].path) == w then [fs[0]] else []) + OfWeight(fs[1..], w)
  }

  /** The YAMLFile instances of fs, in their order in fs. */
  function YamlOnly(fs: seq<PsiFile>): seq<PsiFile> {
    if fs == [] then []
    else (if fs[0].isYamlFile then [fs[0]] else []) + YamlOnly(fs[1..])
  }

  /** Arrays.sort with the weight comparator, which is stable. */
  function SortByWeight(fs: seq<PsiFile>): seq<PsiFile> {
    OfWeight(fs, 0) + OfWeight(fs, 1) + OfWeight(fs, 2)
  }

  ghost predicate SortedByWeight(fs: seq<PsiFile>) {
    forall i, j :: 0 <= i < j < |fs| ==> Weight(fs[i].path) <= Weight(fs[j].path)
  }

  /** What one candidate name contributes: its index hits sorted by weight, YAML files only. */
  function Group(p: Project, name: string): seq<PsiFile> {
    YamlOnly(SortByWeight(FilesByName(p, name)))
  }

  /** The groups of names, in the order of names. */
  function Groups(p: Project, names: seq<string>): seq<PsiFile>
    decreases |names|
  {
    if names == [] then [] else Groups(p, names[..|names| - 1]) + Group(p, names[|names| - 1])
  }

  /** The list findApplicationYamlFiles returns. */
  function RankedFiles(p: Project): seq<PsiFile> {
    Groups(p, CANDIDATES)
  }

  method FindApplicationYamlFiles(p: Project) returns (result: seq<PsiFile>)
    ensures result == RankedFiles(p)
  {
    result := [];
    for n := 0 to |CANDIDATES|
      invariant result == Groups(p, CANDIDATES[..n])
    {
      var name := CANDIDATES[n];
      var psiFiles := SortByWeight(FilesByName(p, name));
      ghost var before := result;
      for k := 0 to |psiFiles|
        invariant result == before + YamlOnly(psiFiles[..k])
      {
        var psi := psiFiles[k];
        YamlOnlySnoc(psiFiles[..k], psi);
        assert psiFiles[..k + 1] == psiFiles[..k] + [psi];
        if psi.isYamlFile {
          result := result + [psi];
        }
      }
      assert psiFiles[..|psiFiles|] == psiFiles;
      assert CANDIDATES[..n + 1][..n] == CANDIDATES[..n];
    }
    assert CANDIDATES[..|CANDIDATES|] == CANDIDATES;
  }

  lemma {:induction false} YamlOnlyAppend(a: seq<PsiFile>, b: seq<PsiFile>)
    ensures YamlOnly(a + b) == YamlOnly(a) + YamlOnly(b)
  {
    if a == [] {
      assert a + b == b;
    } else {
      ConsTail(a, b);
      YamlOnlyAppend(a[1..], b);
      var h := if a[0].isYamlFile then [a[0]] else [];
      assert YamlOnly(a + b) == h + YamlOnly(a[1..] + b);
      assert (h + YamlOnly(a[1..])) + YamlOnly(b) == h + (YamlOnly(a[1..]) + YamlOnly(b));
    }
  }

  lemma YamlOnlySnoc(fs: seq<PsiFile>, f: PsiFile)
    ensures YamlOnly(fs + [f]) == YamlOnly(fs) + (if f.isYamlFile then [f] else [])
  {
    YamlOnlyAppend(fs, [f]);
    assert YamlOnly([f]) == (if f.isYamlFile then [f] else []) + YamlOnly([f][1..]);
  }

  lemma {:induction false} OfWeightAppend(a: seq<PsiFile>, b: seq<PsiFile>, w: nat)
    ensures OfWeight(a + b, w) == OfWeight(a, w) + OfWeight(b, w)
  {
    if a == [] {
      assert a + b == b;
    } else {
      ConsTail(a, b);
      OfWeightAppend(a[1..], b, w);
      var h := if Weight(a[0].path) == w then [a[0]] else [];
      assert OfWeight(a + b, w) == h + OfWeight(a[1..] + b, w);
      assert (h + OfWeight(a[1..], w)) + OfWeight(b, w)
          == h + (OfWeight(a[1..], w) + OfWeight(b, w));
    }
  }

  /** Selecting weight v and then weight w keeps everything when v == w and nothing otherwise. */
  lemma {:induction false} OfWeightTwice(fs: seq<PsiFile>, v: nat, w: nat)
    ensures OfWeight(OfWeight(fs, v), w) == if v == w then OfWeight(fs, w) else []
  {
    if fs != [] {
      OfWeightTwice(fs[1..], v, w);
      var head := if Weight(fs[0].path) == v then [fs[0]] else [];
      OfWeightAppend(head, OfWeight(fs[1..], v), w);
      if Weight(fs[0].path) == v {
        assert OfWeight(head, w) == (if v == w then [fs[0]] else []) + OfWeight(head[1..], w);
      }
    }
  }

  lemma {:induction false} OfWeightBeyond(fs: seq<PsiFile>, w: nat)
    requires w > 2
    ensures OfWeight(fs, w) == []
  {
    if fs != [] {
      OfWeightBeyond(fs[1..], w);
    }
  }

  /** The two selections commute. */
  lemma {:induction false} OfWeightYamlOnly(fs: seq<PsiFile>, w: nat)
    ensures OfWeight(YamlOnly(fs), w) == YamlOnly(OfWeight(fs, w))
  {
    if fs != [] {
      OfWeightYamlOnly(fs[1..], w);
      var f := fs[0];
      var hy := if f.isYamlFile then [f] else [];
      var hw := if Weight(f.path) == w then [f] else [];
      OfWeightAppend(hy, YamlOnly(fs[1..]), w);
      YamlOnlyAppend(hw, OfWeight(fs[1..], w));
      if f.isYamlFile {
        assert OfWeight(hy, w) == hw + OfWeight(hy[1..], w);
      }
      if Weight(f.path) == w {
        assert YamlOnly(hw) == hy + YamlOnly(hw[1..]);
      }
    }
  }

  lemma {:induction false} YamlOnlyMembers(fs: seq<PsiFile>)
    ensures forall f :: f in YamlOnly(fs) ==> f in fs && f.isYamlFile
  {
    if fs != [] {
      YamlOnlyMembers(fs[1..]);
    }
  }

  /** The weight-sorted list holds exactly the files of fs, each as often as before. */
  lemma {:induction false} SortByWeightPermutes(fs: seq<PsiFile>)
    ensures multiset(SortByWeight(fs)) == multiset(fs)
  {
    if fs != [] {
      SortByWeightPermutes(fs[1..]);
      SortByWeightCons(fs[0], fs[1..]);
      assert fs == [fs[0]] + fs[1..];
    }
  }

  /** Sorting a list with one more file in front adds that file once. */
  lemma SortByWeightCons(f: PsiFile, rest: seq<PsiFile>)
    ensures multiset(SortByWeight([f] + rest)) == multiset{f} + multiset(SortByWeight(rest))
  {
    var t := [f] + rest;
    OfWeightCons(f, rest, 0);
    OfWeightCons(f, rest, 1);
    OfWeightCons(f, rest, 2);
    assert multiset(SortByWeight(t))
        == multiset(OfWeight(t, 0)) + multiset(OfWeight(t, 1)) + multiset(OfWeight(t, 2));
    assert multiset(SortByWeight(rest))
        == multiset(OfWeight(rest, 0)) + multiset(OfWeight(rest, 1)) + multiset(OfWeight(rest, 2));
  }

  /** The weight-sorted list is in non-decreasing weight order. */
  lemma SortByWeightSorted(fs: seq<PsiFile>)
    ensures SortedByWeight(SortByWeight(fs))
  {
    var a, b, c := OfWeight(fs, 0), OfWeight(fs, 1), OfWeight(fs, 2);
    OfWeightMembers(fs, 0);
    OfWeightMembers(fs, 1);
    OfWeightMembers(fs, 2);
    var r := SortByWeight(fs);
    assert forall i :: 0 <= i < |r| ==> r[i] == (if i < |a| then a[i] else if i < |a| + |b| then b[i - |a|] else c[i - |a| - |b|]);
    assert forall i :: 0 <= i < |r| ==> Weight(r[i].path) == (if i < |a| then 0 else if i < |a| + |b| then 1 else 2);
  }

  lemma {:induction false} OfWeightMembers(fs: seq<PsiFile>, w: nat)
    ensures forall i :: 0 <= i < |OfWeight(fs, w)| ==> Weight(OfWeight(fs, w)[i].path) == w
  {
    if fs != [] {
      OfWeightMembers(fs[1..], w);
    }
  }

  /** Stability: the files of any one weight keep the order in which the index returned them. */
  lemma SortByWeightStable(fs: seq<PsiFile>, w: nat)
    ensures OfWeight(SortByWeight(fs), w) == OfWeight(fs, w)
  {
    var a, b, c := OfWeight(fs, 0), OfWeight(fs, 1), OfWeight(fs, 2);
    OfWeightAppend(a + b, c, w);
    OfWeightAppend(a, b, w);
    OfWeightTwice(fs, 0, w);
    OfWeightTwice(fs, 1, w);
    OfWeightTwice(fs, 2, w);
    if w > 2 {
      OfWeightBeyond(fs, w);
    }
  }

  /** A list already sorted by weight is its weight-0, weight-1 and weight-2 files in turn. */
  lemma {:induction false} SortedSplits(t: seq<PsiFile>)
    requires SortedByWeight(t)
    ensures t == SortByWeight(t)
  {
    if t != [] {
      var rest := t[1..];
      assert forall i :: 0 <= i < |rest| ==> rest[i] == t[i + 1];
      SortedSplits(rest);
      SortedCons(t[0], rest);
      assert t == [t[0]] + rest;
    }
  }

  /** A file no heavier than any file of a sorted list goes in front of it. */
  lemma SortedCons(f: PsiFile, rest: seq<PsiFile>)
    requires rest == SortByWeight(rest)
    requires forall i :: 0 <= i < |rest| ==> Weight(rest[i].path) >= Weight(f.path)
    ensures [f] + rest == SortByWeight([f] + rest)
  {
    var t := [f] + rest;
    OfWeightCons(f, rest, 0);
    OfWeightCons(f, rest, 1);
    OfWeightCons(f, rest, 2);
    var a, b, c := OfWeight(rest, 0), OfWeight(rest, 1), OfWeight(rest, 2);
    assert rest == a + b + c;
    var v := Weight(f.path);
    if v == 0 {
      calc {
        SortByWeight(t);
        ([f] + a) + b + c;
        { AppendAssoc([f], a, b); }
        ([f] + (a + b)) + c;
        { AppendAssoc([f], a + b, c); }
        [f] + rest;
      }
    } else if v == 1 {
      OfWeightAbsent(rest, 0);
      calc {
        SortByWeight(t);
        [] + ([f] + b) + c;
        { assert [] + ([f] + b) == [f] + b; }
        ([f] + b) + c;
        { AppendAssoc([f], b, c); }
        [f] + (b + c);
        { assert rest == [] + b + c == b + c; }
        [f] + rest;
      }
    } else {
      OfWeightAbsent(rest, 0);
      OfWeightAbsent(rest, 1);
      calc {
        SortByWeight(t);
        [] + [] + ([f] + c);
        { assert [] + [] + ([f] + c) == [f] + c; }
        [f] + c;
        { assert rest == [] + [] + c == c; }
        [f] + rest;
      }
    }
  }




  lemma OfWeightCons(f: PsiFile, rest: seq<PsiFile>, w: nat)
    ensures OfWeight([f] + rest, w) == (if Weight(f.path) == w then [f] else []) + OfWeight(rest, w)
  {
    ConsTail([f], rest);
  }

  lemma {:induction false} OfWeightAbsent(fs: seq<PsiFile>, w: nat)
    requires forall i :: 0 <= i < |fs| ==> Weight(fs[i].path) > w
    ensures OfWeight(fs, w) == []
  {
    if fs != [] {
      OfWeightAbsent(fs[1..], w);
    }
  }

  /**
   * The result of the sort is determined: a list sorted by weight that holds, for each weight,
   * the files of fs of that weight in their order in fs, is SortByWeight(fs).
   */
  lemma SortByWeightUnique(fs: seq<PsiFile>, t: seq<PsiFile>)
    requires SortedByWeight(t)
    requires OfWeight(t, 0) == OfWeight(fs, 0)
    requires OfWeight(t, 1) == OfWeight(fs, 1)
    requires OfWeight(t, 2) == OfWeight(fs, 2)
    ensures t == SortByWeight(fs)
  {
    SortedSplits(t);
  }

  /** Keeping only the YAML files of a sorted list leaves it sorted. */
  lemma {:induction false} YamlOnlyKeepsSorted(fs: seq<PsiFile>)
    requires SortedByWeight(fs)
    ensures SortedByWeight(YamlOnly(fs))
  {
    if fs != [] {
      var rest := fs[1..];
      assert forall i :: 0 <= i < |rest| ==> rest[i] == fs[i + 1];
      YamlOnlyKeepsSorted(rest);
      YamlOnlyMembers(rest);
      var yr := YamlOnly(rest);
      forall i | 0 <= i < |yr| ensures Weight(fs[0].path) <= Weight(yr[i].path) {
        assert yr[i] in rest;
      }
    }
  }

  /** The ranked list is the application.yml group followed by the application.yaml group. */
  lemma RankedFilesGroups(p: Project)
    ensures RankedFiles(p) == Group(p, "application.yml") + Group(p, "application.yaml")
  {
    assert CANDIDATES[..1] == ["application.yml"];
    assert ["application.yml"][..0] == [];
    assert Groups(p, CANDIDATES[..1]) == Group(p, "application.yml");
  }

  lemma GroupProperties(p: Project, name: string)
    ensures forall f :: f in Group(p, name) ==> f.isYamlFile && f in FilesByName(p, name)
    ensures SortedByWeight(Group(p, name))
    ensures forall w: nat :: OfWeight(Group(p, name), w) == YamlOnly(OfWeight(FilesByName(p, name), w))
  {
    var hits := FilesByName(p, name);
    SortByWeightPermutes(hits);
    YamlOnlyMembers(SortByWeight(hits));
    forall f | f in Group(p, name) ensures f in hits {
      assert f in multiset(SortByWeight(hits));
    }
    SortByWeightSorted(hits);
    YamlOnlyKeepsSorted(SortByWeight(hits));
    forall w: nat ensures OfWeight(Group(p, name), w) == YamlOnly(OfWeight(hits, w)) {
      OfWeightYamlOnly(SortByWeight(hits), w);
      SortByWeightStable(hits, w);
    }
  }

  /**
   * findApplicationYamlFiles: every application.yml hit comes before every application.yaml
   * hit, only YAML files are kept, each group is sorted by weight, and within a group the
   * YAML files of one weight keep the order the index returned them in.
   */
  lemma RankedFilesProperties(p: Project)
    ensures var yml, yaml := Group(p, "application.yml"), Group(p, "application.yaml");
      RankedFiles(p) == yml + yaml &&
      (forall f :: f in RankedFiles(p) ==> f.isYamlFile) &&
      (forall f :: f in yml ==> f in FilesByName(p, "application.yml")) &&
      (forall f :: f in yaml ==> f in FilesByName(p, "application.yaml")) &&
      SortedByWeight(yml) && SortedByWeight(yaml) &&
      (forall w: nat :: OfWeight(yml, w) == YamlOnly(OfWeight(FilesByName(p, "application.yml"), w))) &&
      (forall w: nat :: OfWeight(yaml, w) == YamlOnly(OfWeight(FilesByName(p, "application.yaml"), w)))
  {
    RankedFilesGroups(p);
    GroupProperties(p, "application.yml");
    GroupProperties(p, "application.yaml");
  }

  /**
   * The ranking is per name, not global: an application.yml file of weight 2 still comes
   * before an application.yaml file of weight 1.
   */
  lemma RankingIsPerName(p: Project, main: PsiFile, tmp: PsiFile, other: PsiFile)
    requires FilesByName(p, "application.yml") == [tmp, main]
    requires FilesByName(p, "application.yaml") == [other]
    requires main.isYamlFile && tmp.isYamlFile && other.isYamlFile
    requires Weight(main.path) == 0 && Weight(tmp.path) == 2 && Weight(other.path) == 1
    ensures RankedFiles(p) == [main, tmp, other]
  {
    RankedFilesGroups(p);
    var yml := [tmp, main];
    assert yml[1..] == [main] && [main][1..] == [];
    assert OfWeight([main], 0) == [main] && OfWeight([main], 1) == [] && OfWeight([main], 2) == [];
    assert OfWeight(yml, 0) == [main];
    assert OfWeight(yml, 1) == [];
    assert OfWeight(yml, 2) == [tmp];
    assert [main, tmp][1..] == [tmp] && [tmp][1..] == [];
    assert YamlOnly([tmp]) == [tmp];
    assert YamlOnly([main, tmp]) == [main, tmp];
    assert [other][1..] == [];
    assert OfWeight([other], 0) == [] && OfWeight([other], 1) == [other] && OfWeight([other], 2) == [];
    assert YamlOnly([other]) == [other];
  }

  // ---------------------------------------------------------------------------------------
  // Resolution: findKeyInYamlPsi and findYamlKey

  /** The walk of findKeyInYamlPsi over the split path, from the root mapping m. */
  function Resolve(m: seq<KeyValue>, parts: seq<string>): Option<KeyValue>
    decreases |parts|
  {
    if |parts| == 0 then None
    else if |parts| == 1 then GetKeyValueByKey(m, parts[0])
    else match Child(m, parts[0])
      case None => None
      case Some(c) => Resolve(c, parts[1..])
  }

  /** findKeyInYamlPsi on a file whose root mapping is root. */
  function ResolveDoc(root: Option<seq<KeyValue>>, parts: seq<string>): Option<KeyValue> {
    if root.None? then None else Resolve(root.value, parts)
  }

  /**
   * What findKeyInYamlPsi returns: null without a root mapping or for an empty split path;
   * null when a segment before the last is missing or holds no mapping; otherwise the first
   * entry for the last segment, whatever its value.
   */
  lemma {:induction false} ResolveMeaning(m: seq<KeyValue>, parts: seq<string>)
    ensures Resolve(m, parts) == if |parts| == 0 then None else
      match MappingAt(m, parts[..|parts| - 1])
      case None => None
      case Some(x) => GetKeyValueByKey(x, parts[|parts| - 1])
    decreases |parts|
  {
    if |parts| > 1 {
      var rest := parts[1..];
      ResolveMeaning(if Child(m, parts[0]).Some? then Child(m, parts[0]).value else m, rest);
      assert parts[..|parts| - 1][1..] == rest[..|rest| - 1];
      assert parts[..|parts| - 1][0] == parts[0];
    } else if |parts| == 1 {
      assert parts[..0] == [];
    }
  }

  /** Resolving p + q is resolving q in the mapping found at p. */
  lemma {:induction false} ResolveAppend(m: seq<KeyValue>, p: seq<string>, q: seq<string>)
    requires |q| > 0
    ensures Resolve(m, p + q) == match MappingAt(m, p)
      case None => None
      case Some(x) => Resolve(x, q)
    decreases |p|
  {
    if p == [] {
      assert p + q == q;
    } else {
      assert (p + q)[0] == p[0] && (p + q)[1..] == p[1..] + q;
      match Child(m, p[0])
      case None =>
      case Some(c) => ResolveAppend(c, p[1..], q);
    }
  }

  method FindKeyInYamlPsi(file: PsiFile, dotPath: string) returns (kv: Option<KeyValue>)
    ensures kv == ResolveDoc(file.root, SplitOnDots(dotPath))
  {
    var parts := SplitOnDots(dotPath);
    if file.root.None? {
      return None;
    }
    var root := file.root.value;
    var currentMapping := root;
    var i := 0;
    while i < |parts|
      invariant 0 <= i <= |parts|
      invariant i == |parts| ==> |parts| == 0
      invariant i < |parts| ==> Resolve(root, parts) == Resolve(currentMapping, parts[i..])
    {
      var part := parts[i];
      var existing := GetKeyValueByKey(currentMapping, part);
      if existing.None? {
        return None;
      }
      var entry := existing.value;
      if i == |parts| - 1 {
        return Some(entry);
      }
      if entry.value.Mapping? {
        assert parts[i..][1..] == parts[i + 1..];
        currentMapping := entry.value.entries;
      } else {
        return None;
      }
      i := i + 1;
    }
    return None;
  }

  /** findYamlKey's probe over the ranked files: the first that resolves the path. */
  function FirstHit(files: seq<PsiFile>, parts: seq<string>): (r: Option<KeyHit>)
    reads files
    ensures r.Some? ==> r.value.file in files
    decreases |files|
  {
    if files == [] then None
    else match ResolveDoc(files[0].root, parts)
      case Some(kv) => Some(KeyHit(files[0], kv))
      case None => FirstHit(files[1..], parts)
  }

  /**
   * The probe finds nothing exactly when no file resolves the path, and otherwise the hit of
   * the first file that does.
   */
  lemma {:induction false} FirstHitMeaning(files: seq<PsiFile>, parts: seq<string>)
    ensures FirstHit(files, parts).None? <==>
      forall i :: 0 <= i < |files| ==> ResolveDoc(files[i].root, parts).None?
    ensures FirstHit(files, parts).Some? ==> exists i :: (0 <= i < |files|
      && ResolveDoc(files[i].root, parts).Some?
      && FirstHit(files, parts).value == KeyHit(files[i], ResolveDoc(files[i].root, parts).value)
      && forall j :: 0 <= j < i ==> ResolveDoc(files[j].root, parts).None?)
    decreases |files|
  {
    if files != [] && ResolveDoc(files[0].root, parts).None? {
      FirstHitMeaning(files[1..], parts);
      assert forall i :: 1 <= i < |files| ==> files[i] == files[1..][i - 1];
      if FirstHit(files, parts).Some? {
        var i :| 0 <= i < |files| - 1
          && ResolveDoc(files[1..][i].root, parts).Some?
          && FirstHit(files, parts).value == KeyHit(files[1..][i], ResolveDoc(files[1..][i].root, parts).value)
          && forall j :: 0 <= j < i ==> ResolveDoc(files[1..][j].root, parts).None?;
        assert ResolveDoc(files[i + 1].root, parts).Some?;
      }
    }
  }

  method FindYamlKey(p: Project, dotPath: string) returns (hit: Option<KeyHit>)
    ensures hit == FirstHit(RankedFiles(p), SplitOnDots(dotPath))
  {
    var files := FindApplicationYamlFiles(p);
    var parts := SplitOnDots(dotPath);
    for i := 0 to |files|
      invariant FirstHit(files, parts) == FirstHit(files[i..], parts)
    {
      assert files[i..][0] == files[i] && files[i..][1..] == files[i + 1..];
      var kv := FindKeyInYamlPsi(files[i], dotPath);
      if kv.Some? {
        return Some(KeyHit(files[i], kv.value));
      }
    }
    assert files[|files|..] == [];
    return None;
  }

  // ---------------------------------------------------------------------------------------
  // Creation of a missing path: buildYamlText, createMissingPathInYaml

  /**
   * The entry the generator parses out of buildYamlText(ps) when every key is plain: ps[0],
   * holding ps[1..] nested.
   */
  function ChainKv(ps: seq<string>): (kv: KeyValue)
    requires |ps| > 0
    ensures kv.key == ps[0]
    ensures kv.value.Mapping? <==> |ps| > 1
    ensures kv.value.Mapping? ==> kv.value.entries == [ChainKv(ps[1..])]
    ensures |ps| == 1 ==> kv.value == Empty
    decreases |ps|
  {
    if |ps| == 1 then KeyValue(ps[0], Empty) else KeyValue(ps[0], Mapping([ChainKv(ps[1..])]))
  }

  /**
   * The two behaviours of the PSI the code depends on and that are not part of this model:
   * whether addBefore(kv, getLastChild()) lands before the last entry, and whether
   * existing.getValue() sees the new value after existing.replace(newKv).
   */
  datatype PsiEditBehaviour = PsiEditBehaviour(insertBeforeLast: bool, descendAfterReplace: bool)

  /** The tree and the key path of the mapping `current` points at. */
  datatype Cursor = Cursor(root: seq<KeyValue>, path: seq<string>)

  /** One iteration of the loop of createMissingPathInYaml, for parts[i]. */
  function Step(root: seq<KeyValue>, cursor: seq<string>, parts: seq<string>, i: nat,
                b: PsiEditBehaviour): (r: Cursor)
    requires MappingAt(root, cursor).Some? && i < |parts|
    ensures MappingAt(r.root, r.path).Some?
  {
    var current := MappingAt(root, cursor).value;
    var key := parts[i];
    var isLast := i == |parts| - 1;
    match KeyIndex(current, key)
    case None =>
      // absent: add the chain for the rest of the path; enter it unless this is the last part
      var current' := AddBefore(current, ChainKv(parts[i..]), b.insertBeforeLast);
      AddBeforeNewKey(current, ChainKv(parts[i..]), b.insertBeforeLast);
      ReplaceAtGet(root, cursor, current');
      CursorAfterEdit(root, cursor, current', key);
      Cursor(ReplaceAt(root, cursor, current'), if isLast then cursor else cursor + [key])
    case Some(j) =>
      if current[j].value.Mapping? then
        // existing mapping: go deeper
        MappingAtSnoc(root, cursor, key);
        Cursor(root, cursor + [key])
      else
        // existing scalar or empty value: replace the whole entry by the chain
        var current' := current[j := ChainKv(parts[i..])];
        KeysOnly(current, current', key);
        ReplaceAtGet(root, cursor, current');
        CursorAfterEdit(root, cursor, current', key);
        Cursor(ReplaceAt(root, cursor, current'),
               if b.descendAfterReplace && !isLast then cursor + [key] else cursor)
  }

  /** The loop of createMissingPathInYaml from parts[i] on. */
  function Walk(root: seq<KeyValue>, cursor: seq<string>, parts: seq<string>, i: nat,
                b: PsiEditBehaviour): seq<KeyValue>
    requires MappingAt(root, cursor).Some? && i <= |parts|
    decreases |parts| - i
  {
    if i == |parts| then root
    else
      var c := Step(root, cursor, parts, i, b);
      Walk(c.root, c.path, parts, i + 1, b)
  }

  /** The walk from parts[i] is one step followed by the walk from parts[i + 1]. */
  lemma WalkStep(root: seq<KeyValue>, cursor: seq<string>, parts: seq<string>, i: nat, b: PsiEditBehaviour)
    requires MappingAt(root, cursor).Some? && i < |parts|
    ensures var c := Step(root, cursor, parts, i, b);
      Walk(root, cursor, parts, i, b) == Walk(c.root, c.path, parts, i + 1, b)
  {
  }

  /**
   * The root mapping after createMissingPathInYaml on a file whose root mapping is root: without
   * a root mapping the whole chain becomes the file's mapping (an empty chain parses to no
   * mapping, and the file keeps none); otherwise the loop runs from the root.
   */
  function Synthesize(root: Option<seq<KeyValue>>, parts: seq<string>, b: PsiEditBehaviour)
    : Option<seq<KeyValue>>
  {
    if root.None? then (if |parts| == 0 then None else Some([ChainKv(parts)]))
    else Some(Walk(root.value, [], parts, 0, b))
  }

  /**
   * Reference definition of "make the path exist": an absent key gets the chain for the rest of
   * the path, a key holding no mapping has its entry replaced by that chain, a key holding a
   * mapping is entered (and left as it is at the last part).
   */
  function EnsureRef(m: seq<KeyValue>, ps: seq<string>, beforeLast: bool): seq<KeyValue>
    requires |ps| > 0
    decreases |ps|
  {
    match KeyIndex(m, ps[0])
    case None => AddBefore(m, ChainKv(ps), beforeLast)
    case Some(j) =>
      if !m[j].value.Mapping? then m[j := ChainKv(ps)]
      else if |ps| == 1 then m
      else m[j := KeyValue(ps[0], Mapping(EnsureRef(m[j].value.entries, ps[1..], beforeLast)))]
  }

  /** The walk meets a value that is not a mapping at a part before the last. */
  predicate MeetsInnerNonMapping(m: seq<KeyValue>, ps: seq<string>)
    requires |ps| > 0
    decreases |ps|
  {
    match KeyIndex(m, ps[0])
    case None => false
    case Some(j) =>
      |ps| > 1 && (!m[j].value.Mapping? || MeetsInnerNonMapping(m[j].value.entries, ps[1..]))
  }

  /** What a path resolves to after EnsureRef: the mapping that was there, else an empty leaf. */
  function EnsuredLeaf(m: seq<KeyValue>, ps: seq<string>): KeyValue
    requires |ps| > 0
  {
    var was := Resolve(m, ps);
    if was.Some? && was.value.value.Mapping? then was.value else KeyValue(ps[|ps| - 1], Empty)
  }

  /** Every path that resolves in m still resolves in m'. */
  ghost predicate Grows(m: seq<KeyValue>, m': seq<KeyValue>) {
    forall q :: Resolve(m, q).Some? ==> Resolve(m', q).Some?
  }

  // --- resolution facts

  /** Resolution only looks at the first entry with the first key. */
  lemma ResolveFirstEntry(m: seq<KeyValue>, ps: seq<string>, j: nat)
    requires |ps| > 0 && KeyIndex(m, ps[0]) == Some(j)
    ensures Resolve(m, ps) == Resolve([m[j]], ps)
  {
    assert KeyIndex([m[j]], ps[0]) == Some(0);
  }

  /** The chain for ps resolves ps, to an empty leaf. */
  lemma {:induction false} ChainResolves(ps: seq<string>)
    requires |ps| > 0
    ensures Resolve([ChainKv(ps)], ps) == Some(KeyValue(ps[|ps| - 1], Empty))
    decreases |ps|
  {
    if |ps| > 1 {
      ChainResolves(ps[1..]);
      assert KeyIndex([ChainKv(ps)], ps[0]) == Some(0);
    }
  }

  lemma {:induction false} ResolvedMeetsNoInner(m: seq<KeyValue>, ps: seq<string>)
    requires |ps| > 0 && Resolve(m, ps).Some?
    ensures !MeetsInnerNonMapping(m, ps)
    decreases |ps|
  {
    if |ps| > 1 {
      ResolvedMeetsNoInner(Child(m, ps[0]).value, ps[1..]);
    }
  }

  // --- the reference definition

  /** After EnsureRef the path resolves: to the mapping it held, or to a fresh empty leaf. */
  lemma {:induction false} EnsureRefResolves(m: seq<KeyValue>, ps: seq<string>, bl: bool)
    requires |ps| > 0
    ensures Resolve(EnsureRef(m, ps, bl), ps) == Some(EnsuredLeaf(m, ps))
    decreases |ps|
  {
    var r := EnsureRef(m, ps, bl);
    match KeyIndex(m, ps[0])
    case None =>
      AddBeforeNewKey(m, ChainKv(ps), bl);
      ResolveFirstEntry(r, ps, InsertPosition(|m|, bl));
      ChainResolves(ps);
    case Some(j) =>
      if !m[j].value.Mapping? {
        KeysOnly(m, r, ps[0]);
        ResolveFirstEntry(r, ps, j);
        ChainResolves(ps);
      } else if |ps| > 1 {
        KeysOnly(m, r, ps[0]);
        EnsureRefResolves(m[j].value.entries, ps[1..], bl);
        assert ps[1..][|ps[1..]| - 1] == ps[|ps| - 1];
      }
  }

  /** A path that already resolves to a mapping or an empty value is left as it is. */
  lemma {:induction false} EnsureRefNoop(m: seq<KeyValue>, ps: seq<string>, bl: bool)
    requires |ps| > 0 && Resolve(m, ps).Some? && !Resolve(m, ps).value.value.Scalar?
    ensures EnsureRef(m, ps, bl) == m
    decreases |ps|
  {
    var j := KeyIndex(m, ps[0]).value;
    if |ps| > 1 {
      var child := m[j].value.entries;
      EnsureRefNoop(child, ps[1..], bl);
      assert m[j] == KeyValue(ps[0], Mapping(child));
    } else if !m[j].value.Mapping? {
      assert m[j] == ChainKv(ps);
    }
  }

  /** Ensuring a path twice is ensuring it once. */
  lemma EnsureRefIdempotent(m: seq<KeyValue>, ps: seq<string>, bl: bool)
    requires |ps| > 0
    ensures EnsureRef(EnsureRef(m, ps, bl), ps, bl) == EnsureRef(m, ps, bl)
  {
    EnsureRefResolves(m, ps, bl);
    EnsureRefNoop(EnsureRef(m, ps, bl), ps, bl);
  }

  /** The chain is already everything EnsureRef asks for. */
  lemma ChainStable(ps: seq<string>, bl: bool)
    requires |ps| > 0
    ensures EnsureRef([ChainKv(ps)], ps, bl) == [ChainKv(ps)]
  {
    ChainResolves(ps);
    EnsureRefNoop([ChainKv(ps)], ps, bl);
  }

  /** Keys other than the first part of the path keep their entries. */
  lemma EnsureRefKeepsSiblings(m: seq<KeyValue>, ps: seq<string>, bl: bool, k: string)
    requires |ps| > 0 && k != ps[0]
    ensures GetKeyValueByKey(EnsureRef(m, ps, bl), k) == GetKeyValueByKey(m, k)
  {
    var r := EnsureRef(m, ps, bl);
    match KeyIndex(m, ps[0])
    case None =>
      AddBeforeOtherKey(m, ChainKv(ps), bl, k);
    case Some(j) =>
      KeysOnly(m, r, k);
  }

  // --- monotonicity

  lemma GrowsTrans(a: seq<KeyValue>, b: seq<KeyValue>, c: seq<KeyValue>)
    requires Grows(a, b) && Grows(b, c)
    ensures Grows(a, c)
  {
  }

  /** Replacing an entry by one with the same key grows the mapping, if a mapping stays a growing mapping. */
  lemma GrowsSetEntry(m: seq<KeyValue>, j: nat, kv: KeyValue)
    requires j < |m| && kv.key == m[j].key
    requires m[j].value.Mapping? ==> kv.value.Mapping? && Grows(m[j].value.entries, kv.value.entries)
    ensures Grows(m, m[j := kv])
  {
    var m' := m[j := kv];
    forall q | Resolve(m, q).Some? ensures Resolve(m', q).Some? {
      KeysOnly(m, m', q[0]);
      if |q| > 1 && KeyIndex(m, q[0]) == Some(j) {
        assert Resolve(m, q) == Resolve(m[j].value.entries, q[1..]);
      }
    }
  }

  lemma GrowsAddBefore(m: seq<KeyValue>, kv: KeyValue, bl: bool)
    requires KeyIndex(m, kv.key).None?
    ensures Grows(m, AddBefore(m, kv, bl))
  {
    forall q | Resolve(m, q).Some? ensures Resolve(AddBefore(m, kv, bl), q).Some? {
      AddBeforeOtherKey(m, kv, bl, q[0]);
    }
  }

  /** Growing the mapping at a key path grows the whole tree. */
  lemma {:induction false} GrowsReplaceAt(root: seq<KeyValue>, c: seq<string>, n: seq<KeyValue>)
    requires MappingAt(root, c).Some? && Grows(MappingAt(root, c).value, n)
    ensures Grows(root, ReplaceAt(root, c, n))
    decreases |c|
  {
    if c != [] {
      var child := Child(root, c[0]).value;
      GrowsReplaceAt(child, c[1..], n);
      var j := KeyIndex(root, c[0]).value;
      GrowsSetEntry(root, j, KeyValue(c[0], Mapping(ReplaceAt(child, c[1..], n))));
    }
  }

  lemma {:induction false} EnsureRefGrows(m: seq<KeyValue>, ps: seq<string>, bl: bool)
    requires |ps| > 0
    ensures Grows(m, EnsureRef(m, ps, bl))
    decreases |ps|
  {
    match KeyIndex(m, ps[0])
    case None =>
      GrowsAddBefore(m, ChainKv(ps), bl);
    case Some(j) =>
      if !m[j].value.Mapping? {
        GrowsSetEntry(m, j, ChainKv(ps));
      } else if |ps| > 1 {
        EnsureRefGrows(m[j].value.entries, ps[1..], bl);
        GrowsSetEntry(m, j, KeyValue(ps[0], Mapping(EnsureRef(m[j].value.entries, ps[1..], bl))));
      }
  }

  lemma StepGrows(root: seq<KeyValue>, cursor: seq<string>, parts: seq<string>, i: nat,
                  b: PsiEditBehaviour)
    requires MappingAt(root, cursor).Some? && i < |parts|
    ensures Grows(root, Step(root, cursor, parts, i, b).root)
  {
    var current := MappingAt(root, cursor).value;
    match KeyIndex(current, parts[i])
    case None =>
      GrowsAddBefore(current, ChainKv(parts[i..]), b.insertBeforeLast);
      GrowsReplaceAt(root, cursor, AddBefore(current, ChainKv(parts[i..]), b.insertBeforeLast));
    case Some(j) =>
      if !current[j].value.Mapping? {
        GrowsSetEntry(current, j, ChainKv(parts[i..]));
        GrowsReplaceAt(root, cursor, current[j := ChainKv(parts[i..])]);
      }
  }

  lemma {:induction false} WalkGrows(root: seq<KeyValue>, cursor: seq<string>, parts: seq<string>,
                                     i: nat, b: PsiEditBehaviour)
    requires MappingAt(root, cursor).Some? && i <= |parts|
    ensures Grows(root, Walk(root, cursor, parts, i, b))
    decreases |parts| - i
  {
    if i < |parts| {
      var c := Step(root, cursor, parts, i, b);
      StepGrows(root, cursor, parts, i, b);
      WalkGrows(c.root, c.path, parts, i + 1, b);
      GrowsTrans(root, c.root, Walk(root, cursor, parts, i, b));
    }
  }

  // --- convergence

  /** An edit of the mapping at the path's prefix that makes the rest resolve makes the path resolve. */
  lemma ResolveAfterEdit(root: seq<KeyValue>, parts: seq<string>, i: nat, current': seq<KeyValue>)
    requires i < |parts| && MappingAt(root, parts[..i]).Some?
    requires Resolve(current', parts[i..]).Some?
    ensures Resolve(ReplaceAt(root, parts[..i], current'), parts).Some?
  {
    ReplaceAtGet(root, parts[..i], current');
    ResolveAppend(ReplaceAt(root, parts[..i], current'), parts[..i], parts[i..]);
    assert parts[..i] + parts[i..] == parts;
  }

  /**
   * One step either keeps the cursor on the path's own prefix or leaves the whole path
   * resolvable.
   */
  lemma StepProgress(root: seq<KeyValue>, parts: seq<string>, i: nat, b: PsiEditBehaviour)
    requires i < |parts| && MappingAt(root, parts[..i]).Some?
    ensures var c := Step(root, parts[..i], parts, i, b);
      (i + 1 < |parts| && c.path == parts[..i + 1]) || Resolve(c.root, parts).Some?
  {
    var cursor := parts[..i];
    var current := MappingAt(root, cursor).value;
    var key := parts[i];
    var rest := parts[i..];
    assert parts[..i + 1] == cursor + [key];
    assert rest[0] == key;
    match KeyIndex(current, key)
    case None =>
      if i + 1 == |parts| {
        var current' := AddBefore(current, ChainKv(rest), b.insertBeforeLast);
        AddBeforeNewKey(current, ChainKv(rest), b.insertBeforeLast);
        assert rest == [key];
        ResolveAfterEdit(root, parts, i, current');
      }
    case Some(j) =>
      if current[j].value.Mapping? {
        if i + 1 == |parts| {
          ResolveAppend(root, cursor, rest);
          assert rest == [key];
          assert cursor + rest == parts;
        }
      } else {
        var current' := current[j := ChainKv(rest)];
        KeysOnly(current, current', key);
        ResolveFirstEntry(current', rest, j);
        ChainResolves(rest);
        ResolveAfterEdit(root, parts, i, current');
      }
  }

  lemma {:induction false} WalkConverges(root: seq<KeyValue>, cursor: seq<string>,
                                         parts: seq<string>, i: nat, b: PsiEditBehaviour)
    requires MappingAt(root, cursor).Some? && i <= |parts|
    requires (i < |parts| && cursor == parts[..i]) || Resolve(root, parts).Some?
    ensures Resolve(Walk(root, cursor, parts, i, b), parts).Some?
    decreases |parts| - i
  {
    if i < |parts| {
      var c := Step(root, cursor, parts, i, b);
      if Resolve(root, parts).Some? {
        StepGrows(root, cursor, parts, i, b);
      } else {
        StepProgress(root, parts, i, b);
      }
      WalkConverges(c.root, c.path, parts, i + 1, b);
    }
  }

  // --- the loop against the reference definition

  lemma {:induction false} WalkIsEnsureRef(root: seq<KeyValue>, cursor: seq<string>,
                                           parts: seq<string>, i: nat, b: PsiEditBehaviour)
    requires MappingAt(root, cursor).Some? && i < |parts|
    requires b.descendAfterReplace || !MeetsInnerNonMapping(MappingAt(root, cursor).value, parts[i..])
    ensures Walk(root, cursor, parts, i, b)
         == ReplaceAt(root, cursor, EnsureRef(MappingAt(root, cursor).value, parts[i..], b.insertBeforeLast))
    decreases |parts| - i, 1
  {
    var current := MappingAt(root, cursor).value;
    var key := parts[i];
    assert parts[i..][0] == key;
    match KeyIndex(current, key)
    case None =>
      if i + 1 < |parts| {
        WalkIsEnsureRefAbsent(root, cursor, parts, i, b);
      }
    case Some(j) =>
      if current[j].value.Mapping? {
        if i + 1 < |parts| {
          WalkIsEnsureRefMapping(root, cursor, parts, i, b, j);
        } else {
          ReplaceAtSame(root, cursor);
        }
      } else if i + 1 < |parts| {
        WalkIsEnsureRefReplace(root, cursor, parts, i, b, j);
      }
  }

  lemma {:induction false} WalkIsEnsureRefAbsent(root: seq<KeyValue>, cursor: seq<string>,
                                                 parts: seq<string>, i: nat, b: PsiEditBehaviour)
    requires MappingAt(root, cursor).Some? && i + 1 < |parts|
    requires KeyIndex(MappingAt(root, cursor).value, parts[i]).None?
    ensures Walk(root, cursor, parts, i, b)
         == ReplaceAt(root, cursor, EnsureRef(MappingAt(root, cursor).value, parts[i..], b.insertBeforeLast))
    decreases |parts| - i, 0
  {
    var current := MappingAt(root, cursor).value;
    var key := parts[i];
    var rest := parts[i..];
    assert rest[0] == key && rest[1..] == parts[i + 1..];
    var kv := ChainKv(rest);
    var current' := AddBefore(current, kv, b.insertBeforeLast);
    AddBeforeNewKey(current, kv, b.insertBeforeLast);
    CursorAfterEdit(root, cursor, current', key);
    assert Child(current', key) == Some([ChainKv(parts[i + 1..])]);
    WalkOverChain(ReplaceAt(root, cursor, current'), cursor, key, parts, i, b);
  }

  lemma {:induction false} WalkIsEnsureRefReplace(root: seq<KeyValue>, cursor: seq<string>,
                                                  parts: seq<string>, i: nat, b: PsiEditBehaviour, j: nat)
    requires MappingAt(root, cursor).Some? && i + 1 < |parts|
    requires KeyIndex(MappingAt(root, cursor).value, parts[i]) == Some(j)
    requires !MappingAt(root, cursor).value[j].value.Mapping?
    requires b.descendAfterReplace
    ensures Walk(root, cursor, parts, i, b)
         == ReplaceAt(root, cursor, EnsureRef(MappingAt(root, cursor).value, parts[i..], b.insertBeforeLast))
    decreases |parts| - i, 0
  {
    var current := MappingAt(root, cursor).value;
    var key := parts[i];
    var rest := parts[i..];
    assert rest[0] == key && rest[1..] == parts[i + 1..];
    var current' := current[j := ChainKv(rest)];
    KeysOnly(current, current', key);
    CursorAfterEdit(root, cursor, current', key);
    assert Child(current', key) == Some([ChainKv(parts[i + 1..])]);
    WalkOverChain(ReplaceAt(root, cursor, current'), cursor, key, parts, i, b);
  }

  lemma {:induction false} WalkIsEnsureRefMapping(root: seq<KeyValue>, cursor: seq<string>,
                                                  parts: seq<string>, i: nat, b: PsiEditBehaviour, j: nat)
    requires MappingAt(root, cursor).Some? && i + 1 < |parts|
    requires KeyIndex(MappingAt(root, cursor).value, parts[i]) == Some(j)
    requires MappingAt(root, cursor).value[j].value.Mapping?
    requires b.descendAfterReplace || !MeetsInnerNonMapping(MappingAt(root, cursor).value, parts[i..])
    ensures Walk(root, cursor, parts, i, b)
         == ReplaceAt(root, cursor, EnsureRef(MappingAt(root, cursor).value, parts[i..], b.insertBeforeLast))
    decreases |parts| - i, 0
  {
    var current := MappingAt(root, cursor).value;
    var key := parts[i];
    var rest := parts[i..];
    assert rest[0] == key && rest[1..] == parts[i + 1..];
    var child := current[j].value.entries;
    MappingAtSnoc(root, cursor, key);
    assert MappingAt(root, cursor + [key]) == Some(child);
    WalkIsEnsureRef(root, cursor + [key], parts, i + 1, b);
    ReplaceAtSnoc(root, cursor, key, EnsureRef(child, parts[i + 1..], b.insertBeforeLast));
  }

  /** Entering a chain that was just put in place changes nothing more. */
  lemma {:induction false} WalkOverChain(root: seq<KeyValue>, cursor: seq<string>, key: string,
                                         parts: seq<string>, i: nat, b: PsiEditBehaviour)
    requires i + 1 < |parts| && MappingAt(root, cursor + [key]) == Some([ChainKv(parts[i + 1..])])
    ensures Walk(root, cursor + [key], parts, i + 1, b) == root
    decreases |parts| - i - 1, 2
  {
    var chain := [ChainKv(parts[i + 1..])];
    ChainResolves(parts[i + 1..]);
    ResolvedMeetsNoInner(chain, parts[i + 1..]);
    WalkIsEnsureRef(root, cursor + [key], parts, i + 1, b);
    ChainStable(parts[i + 1..], b.insertBeforeLast);
    ReplaceAtSame(root, cursor + [key]);
  }

  // --- the leaf the path reaches, whatever the behaviour

  /** Resolution only sees the entry found for the first key. */
  lemma ResolveByEntry(m: seq<KeyValue>, m': seq<KeyValue>, q: seq<string>)
    requires |q| > 0 && GetKeyValueByKey(m', q[0]) == GetKeyValueByKey(m, q[0])
    ensures Resolve(m', q) == Resolve(m, q)
  {
  }

  /**
   * Replacing the mapping at c by one that differs from it at most under the key e leaves every
   * path that resolves to a non-mapping as it is, unless the path goes through c and then e.
   */
  lemma {:induction false} EditOffPath(root: seq<KeyValue>, c: seq<string>, n: seq<KeyValue>, e: string,
                                       q: seq<string>)
    requires MappingAt(root, c).Some?
    requires forall k :: k != e ==> GetKeyValueByKey(n, k) == GetKeyValueByKey(MappingAt(root, c).value, k)
    requires |q| > 0 && Resolve(root, q).Some? && !Resolve(root, q).value.value.Mapping?
    requires !(|c| < |q| && c == q[..|c|] && q[|c|] == e)
    ensures Resolve(ReplaceAt(root, c, n), q) == Resolve(root, q)
    decreases |c|
  {
    if c == [] {
      assert q[..0] == [];
      ResolveByEntry(root, n, q);
    } else {
      var child := Child(root, c[0]).value;
      var inner := ReplaceAt(child, c[1..], n);
      var root' := SetChild(root, c[0], inner);
      assert ReplaceAt(root, c, n) == root';
      if q[0] != c[0] {
        KeysOnly(root, root', q[0]);
        ResolveByEntry(root, root', q);
      } else {
        assert c == [c[0]] + c[1..];
        if |c| < |q| {
          assert q[..|c|] == [q[0]] + q[1..][..|c| - 1];
        }
        EditOffPath(child, c[1..], n, e, q[1..]);
      }
    }
  }

  /** Once the path resolves to an empty leaf, a step with the cursor no deeper than i keeps it. */
  lemma StepKeepsLeaf(root: seq<KeyValue>, cursor: seq<string>, parts: seq<string>, i: nat,
                      b: PsiEditBehaviour)
    requires MappingAt(root, cursor).Some? && i < |parts| && |cursor| <= i
    requires Resolve(root, parts) == Some(KeyValue(parts[|parts| - 1], Empty))
    ensures var c := Step(root, cursor, parts, i, b);
      |c.path| <= i + 1 && Resolve(c.root, parts) == Resolve(root, parts)
  {
    var current := MappingAt(root, cursor).value;
    var key := parts[i];
    var chain := ChainKv(parts[i..]);
    if cursor == parts[..|cursor|] && parts[|cursor|] == key {
      // the step works on the path's own entry: it can only find the leaf and rewrite it as is
      var rest := parts[|cursor|..];
      ResolveAppend(root, cursor, rest);
      assert cursor + rest == parts;
      assert rest[0] == key;
      match KeyIndex(current, key)
      case None =>
      case Some(j) =>
        if !current[j].value.Mapping? {
          assert parts[i..] == [key];
          assert current[j := chain] == current;
          ReplaceAtSame(root, cursor);
        }
    } else {
      match KeyIndex(current, key)
      case None =>
        var current' := AddBefore(current, chain, b.insertBeforeLast);
        forall k | k != key
          ensures GetKeyValueByKey(current', k) == GetKeyValueByKey(current, k)
        {
          AddBeforeOtherKey(current, chain, b.insertBeforeLast, k);
        }
        EditOffPath(root, cursor, current', key, parts);
      case Some(j) =>
        if !current[j].value.Mapping? {
          var current' := current[j := chain];
          forall k | k != key
            ensures GetKeyValueByKey(current', k) == GetKeyValueByKey(current, k)
          {
            KeysOnly(current, current', k);
          }
          EditOffPath(root, cursor, current', key, parts);
        }
    }
  }

  /**
   * A step on the path's own prefix, while the path does not resolve, either descends into an
   * existing mapping or makes the path resolve to an empty leaf.
   */
  lemma StepOnPath(root: seq<KeyValue>, parts: seq<string>, i: nat, b: PsiEditBehaviour)
    requires i < |parts| && MappingAt(root, parts[..i]).Some? && Resolve(root, parts).None?
    ensures var c := Step(root, parts[..i], parts, i, b);
      (i + 1 < |parts| && c == Cursor(root, parts[..i + 1]))
      || (|c.path| <= i + 1 && Resolve(c.root, parts) == Some(KeyValue(parts[|parts| - 1], Empty)))
  {
    var cursor := parts[..i];
    var current := MappingAt(root, cursor).value;
    var key := parts[i];
    var rest := parts[i..];
    ResolveAppend(root, cursor, rest);
    assert cursor + rest == parts;
    assert parts[..i + 1] == cursor + [key];
    assert rest[0] == key;
    ChainResolves(rest);
    match KeyIndex(current, key)
    case None =>
      var current' := AddBefore(current, ChainKv(rest), b.insertBeforeLast);
      AddBeforeNewKey(current, ChainKv(rest), b.insertBeforeLast);
      ResolveFirstEntry(current', rest, InsertPosition(|current|, b.insertBeforeLast));
      ReplaceAtGet(root, cursor, current');
      ResolveAppend(ReplaceAt(root, cursor, current'), cursor, rest);
    case Some(j) =>
      if !current[j].value.Mapping? {
        var current' := current[j := ChainKv(rest)];
        KeysOnly(current, current', key);
        ResolveFirstEntry(current', rest, j);
        ReplaceAtGet(root, cursor, current');
        ResolveAppend(ReplaceAt(root, cursor, current'), cursor, rest);
      }
  }

  /**
   * From the path's own prefix while the path does not resolve, or from any cursor no deeper
   * than i once it resolves to an empty leaf, the rest of the loop ends with that leaf.
   */
  lemma {:induction false} WalkReachesLeaf(root: seq<KeyValue>, cursor: seq<string>,
                                           parts: seq<string>, i: nat, b: PsiEditBehaviour)
    requires MappingAt(root, cursor).Some? && 0 < |parts| && i <= |parts|
    requires (i < |parts| && cursor == parts[..i] && Resolve(root, parts).None?)
          || (|cursor| <= i && Resolve(root, parts) == Some(KeyValue(parts[|parts| - 1], Empty)))
    ensures Resolve(Walk(root, cursor, parts, i, b), parts) == Some(KeyValue(parts[|parts| - 1], Empty))
    decreases |parts| - i
  {
    if i < |parts| {
      var c := Step(root, cursor, parts, i, b);
      if Resolve(root, parts).None? {
        StepOnPath(root, parts, i, b);
      } else {
        StepKeepsLeaf(root, cursor, parts, i, b);
      }
      WalkReachesLeaf(c.root, c.path, parts, i + 1, b);
    }
  }

  // --- what createMissingPathInYaml guarantees

  /** Afterwards the path resolves, whenever the split path is not empty. */
  lemma SynthesizeResolves(root: Option<seq<KeyValue>>, parts: seq<string>, b: PsiEditBehaviour)
    requires |parts| > 0
    ensures ResolveDoc(Synthesize(root, parts, b), parts).Some?
  {
    if root.None? {
      ChainResolves(parts);
    } else {
      assert parts[..0] == [];
      WalkConverges(root.value, [], parts, 0, b);
    }
  }

  /** Every path that resolved before still resolves afterwards. */
  lemma SynthesizeKeepsResolved(root: Option<seq<KeyValue>>, parts: seq<string>, b: PsiEditBehaviour,
                                q: seq<string>)
    requires ResolveDoc(root, q).Some?
    ensures ResolveDoc(Synthesize(root, parts, b), q).Some?
  {
    WalkGrows(root.value, [], parts, 0, b);
  }

  /**
   * When the stale read descends, or the walk meets no scalar before the last part, the loop
   * computes the reference definition.
   */
  lemma SynthesizeIsEnsureRef(root: seq<KeyValue>, parts: seq<string>, b: PsiEditBehaviour)
    requires |parts| > 0
    requires b.descendAfterReplace || !MeetsInnerNonMapping(root, parts)
    ensures Synthesize(Some(root), parts, b) == Some(EnsureRef(root, parts, b.insertBeforeLast))
  {
    assert parts[0..] == parts;
    WalkIsEnsureRef(root, [], parts, 0, b);
  }

  /**
   * What the path resolves to afterwards: the mapping it already named, and otherwise an entry
   * for the last part with an empty value (so a scalar found there loses its value).
   */
  lemma SynthesizeLeaf(root: Option<seq<KeyValue>>, parts: seq<string>, b: PsiEditBehaviour)
    requires |parts| > 0
    ensures ResolveDoc(Synthesize(root, parts, b), parts)
         == Some(if root.None? then KeyValue(parts[|parts| - 1], Empty) else EnsuredLeaf(root.value, parts))
  {
    if root.None? {
      ChainResolves(parts);
    } else if Resolve(root.value, parts).Some? {
      ResolvedMeetsNoInner(root.value, parts);
      SynthesizeIsEnsureRef(root.value, parts, b);
      EnsureRefResolves(root.value, parts, b.insertBeforeLast);
    } else {
      assert parts[..0] == [];
      WalkReachesLeaf(root.value, [], parts, 0, b);
    }
  }

  /** A path that already resolves to a mapping or to an empty value leaves the file as it is. */
  lemma SynthesizePresentNoop(root: Option<seq<KeyValue>>, parts: seq<string>, b: PsiEditBehaviour)
    requires ResolveDoc(root, parts).Some? && !ResolveDoc(root, parts).value.value.Scalar?
    ensures Synthesize(root, parts, b) == root
  {
    ResolvedMeetsNoInner(root.value, parts);
    SynthesizeIsEnsureRef(root.value, parts, b);
    EnsureRefNoop(root.value, parts, b.insertBeforeLast);
  }

  /** Running the fix twice is running it once. */
  lemma SynthesizeIdempotent(root: Option<seq<KeyValue>>, parts: seq<string>, b: PsiEditBehaviour)
    ensures Synthesize(Synthesize(root, parts, b), parts, b) == Synthesize(root, parts, b)
  {
    if |parts| > 0 {
      SynthesizeLeaf(root, parts, b);
      SynthesizePresentNoop(Synthesize(root, parts, b), parts, b);
    }
  }

  /** Top-level entries under keys other than the first part are untouched. */
  lemma SynthesizeKeepsSiblings(root: seq<KeyValue>, parts: seq<string>, b: PsiEditBehaviour, k: string)
    requires |parts| > 0 && k != parts[0]
    requires b.descendAfterReplace || !MeetsInnerNonMapping(root, parts)
    ensures GetKeyValueByKey(Synthesize(Some(root), parts, b).value, k) == GetKeyValueByKey(root, k)
  {
    SynthesizeIsEnsureRef(root, parts, b);
    EnsureRefKeepsSiblings(root, parts, b.insertBeforeLast, k);
  }

  /**
   * With the stale read, a replaced scalar is not entered: the rest of the path is then looked up
   * one level too high, and here erases the value of the sibling `b`.
   */
  lemma StaleReplaceErasesSibling()
    ensures var root := [KeyValue("a", Scalar("1")), KeyValue("b", Scalar("2"))];
      Synthesize(Some(root), ["a", "b"], PsiEditBehaviour(false, false))
      == Some([KeyValue("a", Mapping([KeyValue("b", Empty)])), KeyValue("b", Empty)])
  {
    var root := [KeyValue("a", Scalar("1")), KeyValue("b", Scalar("2"))];
    var parts := ["a", "b"];
    var b := PsiEditBehaviour(false, false);
    assert parts[0..] == parts && parts[1..] == ["b"];
    var r1 := [KeyValue("a", Mapping([KeyValue("b", Empty)])), KeyValue("b", Scalar("2"))];
    var r2 := [KeyValue("a", Mapping([KeyValue("b", Empty)])), KeyValue("b", Empty)];
    StepReplace(root, [], parts, 0, b, 0);
    assert Step(root, [], parts, 0, b) == Cursor(r1, []);
    StepReplace(r1, [], parts, 1, b, 1);
    assert Step(r1, [], parts, 1, b) == Cursor(r2, []);
    assert Walk(r1, [], parts, 1, b) == Walk(r2, [], parts, 2, b);
  }

  /** Descending into the replacement, the same edit keeps `b`. */
  lemma DescendingReplaceKeepsSibling()
    ensures var root := [KeyValue("a", Scalar("1")), KeyValue("b", Scalar("2"))];
      Synthesize(Some(root), ["a", "b"], PsiEditBehaviour(false, true))
      == Some([KeyValue("a", Mapping([KeyValue("b", Empty)])), KeyValue("b", Scalar("2"))])
  {
    var root := [KeyValue("a", Scalar("1")), KeyValue("b", Scalar("2"))];
    var parts := ["a", "b"];
    assert parts[1..] == ["b"];
    SynthesizeIsEnsureRef(root, parts, PsiEditBehaviour(false, true));
    assert KeyIndex(root, "a") == Some(0);
    assert ChainKv(parts) == KeyValue("a", Mapping([ChainKv(["b"])]));
    assert ChainKv(["b"]) == KeyValue("b", Empty);
    assert EnsureRef(root, parts, false) == root[0 := ChainKv(parts)];
    assert root[0 := ChainKv(parts)] == [KeyValue("a", Mapping([KeyValue("b", Empty)])), KeyValue("b", Scalar("2"))];
  }

  // --- the three branches of one iteration

  lemma StepAbsent(root: seq<KeyValue>, cursor: seq<string>, parts: seq<string>, i: nat,
                   b: PsiEditBehaviour)
    requires MappingAt(root, cursor).Some? && i < |parts|
    requires KeyIndex(MappingAt(root, cursor).value, parts[i]).None?
    ensures var current' := AddBefore(MappingAt(root, cursor).value, ChainKv(parts[i..]), b.insertBeforeLast);
      Step(root, cursor, parts, i, b)
      == Cursor(ReplaceAt(root, cursor, current'), if i == |parts| - 1 then cursor else cursor + [parts[i]])
  {
  }

  lemma StepDescend(root: seq<KeyValue>, cursor: seq<string>, parts: seq<string>, i: nat,
                    b: PsiEditBehaviour, j: nat)
    requires MappingAt(root, cursor).Some? && i < |parts|
    requires KeyIndex(MappingAt(root, cursor).value, parts[i]) == Some(j)
    requires MappingAt(root, cursor).value[j].value.Mapping?
    ensures Step(root, cursor, parts, i, b) == Cursor(root, cursor + [parts[i]])
  {
  }

  lemma StepReplace(root: seq<KeyValue>, cursor: seq<string>, parts: seq<string>, i: nat,
                    b: PsiEditBehaviour, j: nat)
    requires MappingAt(root, cursor).Some? && i < |parts|
    requires KeyIndex(MappingAt(root, cursor).value, parts[i]) == Some(j)
    requires !MappingAt(root, cursor).value[j].value.Mapping?
    ensures var current' := MappingAt(root, cursor).value[j := ChainKv(parts[i..])];
      Step(root, cursor, parts, i, b)
      == Cursor(ReplaceAt(root, cursor, current'),
                if b.descendAfterReplace && i < |parts| - 1 then cursor + [parts[i]] else cursor)
  {
  }

  /** The list of parts[j] for j from i on, collected one by one. */
  method Remaining(parts: seq<string>, i: nat) returns (remaining: seq<string>)
    requires i <= |parts|
    ensures remaining == parts[i..]
  {
    remaining := [];
    for j := i to |parts|
      invariant remaining == parts[i..j]
    {
      remaining := remaining + [parts[j]];
    }
  }

  /**
   * createMissingPathInYaml on one file: the file's root mapping becomes
   * Synthesize(old root, split path).
   */
  method CreateMissingPathIn(file: PsiFile, dotPath: string, b: PsiEditBehaviour)
    modifies file
    ensures file.root == Synthesize(old(file.root), SplitOnDots(dotPath), b)
  {
    var parts := SplitOnDots(dotPath);
    if file.root.None? {
      // empty file: the generator's mapping for the whole chain, if the chain has a part
      if |parts| > 0 {
        file.root := Some([ChainKv(parts)]);
      }
      return;
    }
    var root := file.root.value;
    ghost var root0 := root;
    var cursor: seq<string> := [];
    var i := 0;
    while i < |parts|
      invariant 0 <= i <= |parts|
      invariant MappingAt(root, cursor).Some? && file.root == Some(root)
      invariant Walk(root, cursor, parts, i, b) == Walk(root0, [], parts, 0, b)
    {
      WalkStep(root, cursor, parts, i, b);
      root, cursor := EnsurePart(root, cursor, parts, i, b);
      file.root := Some(root);
      i := i + 1;
    }
  }

  /**
   * One iteration of the loop of createMissingPathInYaml: parts[i] is looked up in the mapping
   * `current` points at; an absent key gets the chain for the rest of the path, a key holding a
   * mapping is entered, and a key holding anything else is replaced by the chain.
   */
  method EnsurePart(root: seq<KeyValue>, cursor: seq<string>, parts: seq<string>, i: nat,
                    b: PsiEditBehaviour) returns (root': seq<KeyValue>, cursor': seq<string>)
    requires MappingAt(root, cursor).Some? && i < |parts|
    ensures Cursor(root', cursor') == Step(root, cursor, parts, i, b)
  {
    var current := MappingAt(root, cursor).value;
    var key := parts[i];
    var existing := KeyIndex(current, key);
    root', cursor' := root, cursor;
    if existing.None? {
      StepAbsent(root, cursor, parts, i, b);
      if i == |parts| - 1 {
        // last level: a key without a value
        var newKv := KeyValue(key, Empty);
        assert newKv == ChainKv(parts[i..]);
        current := AddBefore(current, newKv, b.insertBeforeLast);
        root' := ReplaceAt(root, cursor, current);
      } else {
        // a sub-mapping for the remaining parts
        var remaining := Remaining(parts, i);
        var firstKv := ChainKv(remaining);
        AddBeforeNewKey(current, firstKv, b.insertBeforeLast);
        current := AddBefore(current, firstKv, b.insertBeforeLast);
        root' := ReplaceAt(root, cursor, current);
        var justAdded := GetKeyValueByKey(current, key);
        if justAdded.Some? && justAdded.value.value.Mapping? {
          cursor' := cursor + [key];
        }
      }
    } else {
      var j := existing.value;
      if current[j].value.Mapping? {
        StepDescend(root, cursor, parts, i, b, j);
        cursor' := cursor + [key];
      } else {
        StepReplace(root, cursor, parts, i, b, j);
        var newKv := ChainKv(parts[i..]);
        current := current[j := newKv];
        root' := ReplaceAt(root, cursor, current);
        if b.descendAfterReplace && newKv.value.Mapping? {
          cursor' := cursor + [key];
        }
      }
    }
  }

  // --- scenarios

  /** An empty mapping gets the whole chain, wherever the insertion lands. */
  lemma SimpleMiss(b: PsiEditBehaviour)
    ensures Synthesize(Some([]), ["server", "port"], b)
         == Some([KeyValue("server", Mapping([KeyValue("port", Empty)]))])
  {
    var parts := ["server", "port"];
    assert parts[1..] == ["port"];
    SynthesizeIsEnsureRef([], parts, b);
    var kv := ChainKv(parts);
    assert kv == KeyValue("server", Mapping([ChainKv(["port"])]));
    assert ChainKv(["port"]) == KeyValue("port", Empty);
    var r := AddBefore([], kv, b.insertBeforeLast);
    assert |r| == 1 && r[0] == kv;
    assert r == [kv];
  }

  /** A scalar in the middle of the path becomes the chain for the rest of the path. */
  lemma PartialMatch(bl: bool)
    ensures var root := [KeyValue("a", Mapping([KeyValue("b", Scalar("1"))]))];
      Synthesize(Some(root), ["a", "b", "c"], PsiEditBehaviour(bl, true))
      == Some([KeyValue("a", Mapping([KeyValue("b", Mapping([KeyValue("c", Empty)]))]))])
  {
    var inner := [KeyValue("b", Scalar("1"))];
    var root := [KeyValue("a", Mapping(inner))];
    var parts := ["a", "b", "c"];
    assert parts[1..] == ["b", "c"] && parts[1..][1..] == ["c"];
    SynthesizeIsEnsureRef(root, parts, PsiEditBehaviour(bl, true));
    assert KeyIndex(root, "a") == Some(0) && KeyIndex(inner, "b") == Some(0);
    assert ChainKv(["b", "c"]) == KeyValue("b", Mapping([ChainKv(["c"])]));
    assert ChainKv(["c"]) == KeyValue("c", Empty);
    var inner' := EnsureRef(inner, ["b", "c"], bl);
    assert inner' == [KeyValue("b", Mapping([KeyValue("c", Empty)]))];
    assert EnsureRef(root, parts, bl) == root[0 := KeyValue("a", Mapping(inner'))];
    assert root[0 := KeyValue("a", Mapping(inner'))] == [KeyValue("a", Mapping(inner'))];
  }

  /**
   * With the stale read the replaced scalar is not entered, and the last part is added next to
   * it, one level too high.
   */
  lemma PartialMatchStale(bl: bool)
    ensures var root := [KeyValue("a", Mapping([KeyValue("b", Scalar("1"))]))];
      Synthesize(Some(root), ["a", "b", "c"], PsiEditBehaviour(bl, false))
      == Some([KeyValue("a", Mapping(
           AddBefore([KeyValue("b", Mapping([KeyValue("c", Empty)]))], KeyValue("c", Empty), bl)))])
  {
    var b := PsiEditBehaviour(bl, false);
    var inner := [KeyValue("b", Scalar("1"))];
    var root := [KeyValue("a", Mapping(inner))];
    var parts := ["a", "b", "c"];
    assert parts[1..] == ["b", "c"] && parts[2..] == ["c"] && parts[1..][1..] == ["c"];
    assert KeyIndex(root, "a") == Some(0) && KeyIndex(inner, "b") == Some(0);
    StepDescend(root, [], parts, 0, b, 0);
    assert MappingAt(root, ["a"]) == Some(inner);
    StepReplace(root, ["a"], parts, 1, b, 0);
    var inner1 := [KeyValue("b", Mapping([KeyValue("c", Empty)]))];
    var root1 := [KeyValue("a", Mapping(inner1))];
    assert ChainKv(["b", "c"]) == KeyValue("b", Mapping([ChainKv(["c"])]));
    assert ReplaceAt(root, ["a"], inner1) == root1;
    assert MappingAt(root1, ["a"]) == Some(inner1);
    assert KeyIndex(inner1, "c").None?;
    StepAbsent(root1, ["a"], parts, 2, b);
    assert [] + ["a"] == ["a"];
    assert inner[0 := ChainKv(parts[1..])] == inner1;
    assert Walk(root, [], parts, 0, b) == Walk(root, ["a"], parts, 1, b);
    assert Walk(root, ["a"], parts, 1, b) == Walk(root1, ["a"], parts, 2, b);
    var inner2 := AddBefore(inner1, KeyValue("c", Empty), bl);
    assert ChainKv(parts[2..]) == KeyValue("c", Empty);
    assert ReplaceAt(root1, ["a"], inner2) == [KeyValue("a", Mapping(inner2))];
    assert Walk(root1, ["a"], parts, 2, b) == Walk([KeyValue("a", Mapping(inner2))], ["a"], parts, 3, b);
  }

  /** A path that ends at a scalar ends at an empty value afterwards. */
  lemma ResolvedScalarErased(b: PsiEditBehaviour)
    ensures var root := [KeyValue("x", Mapping([KeyValue("y", Scalar("5"))]))];
      Synthesize(Some(root), ["x", "y"], b) == Some([KeyValue("x", Mapping([KeyValue("y", Empty)]))])
  {
    var inner := [KeyValue("y", Scalar("5"))];
    var root := [KeyValue("x", Mapping(inner))];
    var parts := ["x", "y"];
    assert parts[1..] == ["y"];
    assert KeyIndex(root, "x") == Some(0) && KeyIndex(inner, "y") == Some(0);
    SynthesizeIsEnsureRef(root, parts, b);
    assert ChainKv(["y"]) == KeyValue("y", Empty);
    var inner' := EnsureRef(inner, ["y"], b.insertBeforeLast);
    assert inner' == [KeyValue("y", Empty)];
    assert EnsureRef(root, parts, b.insertBeforeLast) == root[0 := KeyValue("x", Mapping(inner'))];
    assert root[0 := KeyValue("x", Mapping(inner'))] == [KeyValue("x", Mapping(inner'))];
  }

  /** New top-level keys leave the others in place: appended last, or just before the last one. */
  lemma SiblingsKept(bl: bool)
    ensures var root := [KeyValue("a", Scalar("1")), KeyValue("b", Scalar("2"))];
      var c := KeyValue("c", Mapping([KeyValue("d", Empty)]));
      Synthesize(Some(root), ["c", "d"], PsiEditBehaviour(bl, false))
      == Some(if bl then [root[0], c, root[1]] else root + [c])
  {
    var root := [KeyValue("a", Scalar("1")), KeyValue("b", Scalar("2"))];
    var parts := ["c", "d"];
    assert parts[1..] == ["d"];
    assert KeyIndex(root, "c").None?;
    SynthesizeIsEnsureRef(root, parts, PsiEditBehaviour(bl, false));
    var c := ChainKv(parts);
    assert c == KeyValue("c", Mapping([ChainKv(["d"])]));
    assert ChainKv(["d"]) == KeyValue("d", Empty);
    var r := AddBefore(root, c, bl);
    assert |r| == 3 && r[InsertPosition(2, bl)] == c;
    if bl {
      assert r == [root[0], c, root[1]];
    } else {
      assert r == root + [c];
    }
  }

  // ---------------------------------------------------------------------------------------
  // buildYamlText

  /** A run of n two-space indents. */
  function Indent(n: nat): (r: string)
    ensures |r| == 2 * n && forall k :: 0 <= k < |r| ==> r[k] == ' '
  {
    if n == 0 then "" else Indent(n - 1) + "  "
  }

  /** The chain ps as YAML text, the first part at the given depth, each next one level deeper. */
  function ChainText(ps: seq<string>, depth: nat): string
    decreases |ps|
  {
    if ps == [] then "" else Indent(depth) + ps[0] + ":\n" + ChainText(ps[1..], depth + 1)
  }

  lemma {:induction false} ChainTextSnoc(ps: seq<string>, k: string, depth: nat)
    ensures ChainText(ps + [k], depth) == ChainText(ps, depth) + Indent(depth + |ps|) + k + ":\n"
    decreases |ps|
  {
    if ps == [] {
      assert [k][1..] == [];
    } else {
      assert (ps + [k])[1..] == ps[1..] + [k];
      ChainTextSnoc(ps[1..], k, depth + 1);
    }
  }

  method BuildYamlText(parts: seq<string>) returns (text: string)
    ensures text == ChainText(parts, 0)
  {
    var sb := "";
    var indent := 0;
    for i := 0 to |parts|
      invariant sb == ChainText(parts[..i], 0) && indent == i
    {
      ghost var before := sb;
      for j := 0 to indent
        invariant sb == before + Indent(j)
      {
        sb := sb + "  ";
      }
      sb := sb + parts[i] + ":\n";
      indent := indent + 1;
      ChainTextSnoc(parts[..i], parts[i], 0);
      assert parts[..i + 1] == parts[..i] + [parts[i]];
    }
    assert parts[..|parts|] == parts;
    text := sb;
  }

  /** The index of the first line break in s. */
  function FirstNewline(s: string): (r: Option<nat>)
    ensures r.Some? ==> r.value < |s| && s[r.value] == '\n'
    ensures r.Some? ==> forall k :: 0 <= k < r.value ==> s[k] != '\n'
    ensures r.None? ==> forall k :: 0 <= k < |s| ==> s[k] != '\n'
  {
    if s == [] then None
    else if s[0] == '\n' then Some(0)
    else match FirstNewline(s[1..])
      case None => None
      case Some(n) => Some(n + 1)
  }

  /**
   * Reads chain text back: each line must be the depth's indent, a key, ':' and a line break,
   * one level deeper than the previous line.
   */
  function ReadChainText(text: string, depth: nat): Option<seq<string>>
    decreases |text|
  {
    if text == [] then Some([])
    else if |text| < 2 * depth || text[..2 * depth] != Indent(depth) then None
    else
      var line := text[2 * depth..];
      match FirstNewline(line)
      case None => None
      case Some(n) =>
        if n == 0 || line[n - 1] != ':' then None
        else match ReadChainText(line[n + 1..], depth + 1)
          case None => None
          case Some(rest) => Some([line[..n - 1]] + rest)
  }

  /** One line of chain text reads back as its key, followed by what the rest reads back as. */
  lemma ReadChainLine(key: string, rest: string, depth: nat, r: seq<string>)
    requires '\n' !in key
    requires ReadChainText(rest, depth + 1) == Some(r)
    ensures ReadChainText(Indent(depth) + key + ":\n" + rest, depth) == Some([key] + r)
  {
    var line := key + ":\n" + rest;
    var text := Indent(depth) + key + ":\n" + rest;
    assert text == Indent(depth) + line;
    assert text[..2 * depth] == Indent(depth) && text[2 * depth..] == line;
    LineBreakAfterKey(key, rest);
  }

  lemma LineBreakAfterKey(key: string, rest: string)
    requires '\n' !in key
    ensures var line := key + ":\n" + rest;
      FirstNewline(line) == Some(|key| + 1) && line[|key|] == ':'
      && line[..|key|] == key && line[|key| + 2..] == rest
  {
    var line := key + ":\n" + rest;
    assert forall k :: 0 <= k < |key| ==> line[k] == key[k];
    assert line[|key|] == ':' && line[|key| + 1] == '\n';
  }

  /** The text built for a chain of keys without line breaks reads back as that chain. */
  lemma {:induction false} ReadChainTextInverse(ps: seq<string>, depth: nat)
    requires forall k :: 0 <= k < |ps| ==> '\n' !in ps[k]
    ensures ReadChainText(ChainText(ps, depth), depth) == Some(ps)
    decreases |ps|
  {
    if ps != [] {
      assert forall k :: 0 <= k < |ps[1..]| ==> ps[1..][k] == ps[k + 1];
      ReadChainTextInverse(ps[1..], depth + 1);
      ReadChainCons(ps, depth);
    }
  }

  /** The first line of a chain's text reads back as its first part, the rest as the rest. */
  lemma ReadChainCons(ps: seq<string>, depth: nat)
    requires ps != [] && '\n' !in ps[0]
    requires ReadChainText(ChainText(ps[1..], depth + 1), depth + 1) == Some(ps[1..])
    ensures ReadChainText(ChainText(ps, depth), depth) == Some(ps)
  {
    var tail, rest := ps[1..], ChainText(ps[1..], depth + 1);
    ReadChainLine(ps[0], rest, depth, tail);
    assert ChainText(ps, depth) == Indent(depth) + ps[0] + ":\n" + rest;
    assert [ps[0]] + tail == ps;
  }

  lemma BuildYamlTextExample()
    ensures ChainText(["server", "port"], 0) == "server:\n  port:\n"
    ensures ChainText([], 0) == ""
  {
    assert ["server", "port"][1..] == ["port"] && ["port"][1..] == [];
    assert Indent(1) == "  ";
  }

  // ---------------------------------------------------------------------------------------
  // chooseOrCreateApplicationYaml and the entry point

  /** Where chooseOrCreateApplicationYaml creates the file. */
  function CreatedPath(basePath: string): string {
    basePath + "/src/main/resources" + "/application.yaml"
  }

  /**
   * chooseOrCreateApplicationYaml creates a new application.yaml: no file is ranked, the
   * project has a base path, the I/O succeeds and no file exists at the created path yet.
   */
  predicate CreatesFile(p: Project) {
    RankedFiles(p) == [] && p.basePath.Some? && !p.ioFails && CreatedPath(p.basePath.value) !in p.files
  }

  /**
   * The existing file chooseOrCreateApplicationYaml returns when it creates none: the first
   * ranked file; else, with a base path and no I/O failure, the file already at the created
   * path when it is a YAML file; else nothing.
   */
  function ChosenFile(p: Project): Option<PsiFile> {
    if RankedFiles(p) != [] then Some(RankedFiles(p)[0])
    else if p.basePath.None? || p.ioFails || CreatedPath(p.basePath.value) !in p.files then None
    else
      var psi := p.files[CreatedPath(p.basePath.value)];
      if psi.isYamlFile then Some(psi) else None
  }

  /** A created file would be ranked with the best weight. */
  lemma CreatedPathWeight(basePath: string)
    ensures Weight(CreatedPath(basePath)) == 0
  {
    var s := CreatedPath(basePath);
    assert s[|basePath|..|basePath| + |"/src/main/resources"|] == "/src/main/resources";
    assert OccursAt(s, "/src/main/resources", |basePath|);
    ContainsOccurs(s, "/src/main/resources");
  }

  method ChooseOrCreateApplicationYaml(p: Project) returns (target: Option<PsiFile>)
    ensures RankedFiles(p) != [] ==> target == Some(RankedFiles(p)[0])
    ensures RankedFiles(p) == [] && (p.basePath.None? || p.ioFails) ==> target.None?
    ensures (RankedFiles(p) == [] && p.basePath.Some? && !p.ioFails
             && CreatedPath(p.basePath.value) in p.files) ==>
      var psi := p.files[CreatedPath(p.basePath.value)];
      target == if psi.isYamlFile then Some(psi) else None
    ensures (RankedFiles(p) == [] && p.basePath.Some? && !p.ioFails
             && CreatedPath(p.basePath.value) !in p.files) ==>
      target.Some? && fresh(target.value) && target.value.path == CreatedPath(p.basePath.value)
      && target.value.isYamlFile && target.value.root.None?
    ensures target.Some? && target.value !in AllFiles(p) ==> fresh(target.value) && target.value.root.None?
    ensures !CreatesFile(p) ==> target == ChosenFile(p)
  {
    var existing := FindApplicationYamlFiles(p);
    if existing != [] {
      RankedFilesMembers(p);
      return Some(existing[0]);
    }
    if p.basePath.None? {
      return None;
    }
    var resourcesPath := p.basePath.value + "/src/main/resources";
    if p.ioFails {
      // createDirectories, createChildData or saveText threw
      return None;
    }
    var filePath := resourcesPath + "/application.yaml";
    if filePath in p.files {
      var psi := p.files[filePath];
      return if psi.isYamlFile then Some(psi) else None;
    }
    // a new file holding only the "# created by YAML Buddy" comment: no root mapping
    var vf := new PsiFile(filePath, true, None);
    return Some(vf);
  }

  lemma RankedFilesMembers(p: Project)
    ensures forall f :: f in RankedFiles(p) ==> f in AllFiles(p)
  {
    RankedFilesGroups(p);
    GroupProperties(p, "application.yml");
    GroupProperties(p, "application.yaml");
  }

  /**
   * createMissingPathInYaml: the chosen file, if any, gets the missing part of the path; no
   * other file changes.  The chosen file is returned.
   */
  method CreateMissingPathInYaml(p: Project, dotPath: string, b: PsiEditBehaviour)
    returns (target: Option<PsiFile>)
    modifies AllFiles(p)
    ensures RankedFiles(p) != [] ==> target == Some(RankedFiles(p)[0])
    ensures RankedFiles(p) == [] && (p.basePath.None? || p.ioFails) ==> target.None?
    ensures !CreatesFile(p) ==> target == ChosenFile(p)
    ensures CreatesFile(p) ==>
      target.Some? && fresh(target.value) && target.value.path == CreatedPath(p.basePath.value)
      && target.value.isYamlFile
    ensures target.Some? && target.value in AllFiles(p) ==>
      target.value.root == Synthesize(old(target.value.root), SplitOnDots(dotPath), b)
    ensures target.Some? && target.value !in AllFiles(p) ==>
      fresh(target.value) && target.value.root == Synthesize(None, SplitOnDots(dotPath), b)
    ensures forall f :: f in AllFiles(p) && Some(f) != target ==> f.root == old(f.root)
  {
    target := ChooseOrCreateApplicationYaml(p);
    if target.None? {
      return;
    }
    CreateMissingPathIn(target.value, dotPath, b);
  }
}
