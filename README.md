# YAML Buddy: placeholder scanning, dot-path resolution and path synthesis

A Dafny model of the core of the YAML Buddy IntelliJ plugin. The plugin finds Spring
`@Value("${a.b.c}")` placeholders in Java string literals and checks them against
`application.yml` / `application.yaml`. It reports keys it cannot find and offers a quick fix
that writes the missing dot-path into the YAML file.

The model has these parts:

- `yaml_tree.dfy` (module `YamlTree`): the YAML PSI as values. A mapping is an ordered list of
  `KeyValue(key, value)` entries, and a value is `Empty`, `Scalar(text)` or `Mapping(entries)`.
  `Scalar` stands for every value that is present but not a mapping: scalars, and also
  sequences, aliases and tagged nodes, which the code treats alike (it only tests
  `instanceof YAMLMapping`). A file's root mapping is what
  `PsiTreeUtil.findChildOfType(yamlFile, YAMLMapping.class)` returns, which is the first
  mapping in depth-first order. For a file `- a: 1` that is the mapping inside the first
  sequence item, not a top-level mapping.
  `getKeyValueByKey` returns the first entry with the key. `addBefore(kv, getLastChild())` is
  `AddBefore`. A nested mapping is named by the keys that lead to it, and an in-place edit of
  that mapping is a replacement along that key path (`ReplaceAt`).
- `java_strings.dfy` (module `JavaStrings`): the `java.lang.String` behaviour the code relies
  on. This covers `split("\\.")` (trailing empty pieces dropped, `""` gives `[""]`, `"..."`
  gives `[]`), `trim()`, `isBlank()`, `contains()`, and the regex class `\s`.
- `yaml_psi_utils.dfy` (module `YamlPsiUtils`):
  - ranking of the candidate files (a stable sort by a 0/1/2 weight, applied per file name);
  - `findKeyInYamlPsi` and `findYamlKey`;
  - `buildYamlText`;
  - the selection step of `chooseOrCreateApplicationYaml`;
  - `createMissingPathInYaml`. Files are objects (`class PsiFile`), and the synthesiser edits
    the chosen file's root mapping in place.
- `placeholders.dfy` (module `Placeholders`): `java.util.regex.Matcher.find()` over the two
  placeholder patterns, as one scanner of `(start, end, body)` matches plus a group function
  per pattern. It also holds a `Matcher` class whose `Find` resumes where the last match ended.
- `yaml_property_reference.dfy`, `yaml_property_reference_contributor.dfy`,
  `missing_yaml_key_inspection.dfy`, `yaml_buddy_annotator.dfy`,
  `create_yaml_key_quick_fix.dfy`: the reference, its contributor's guard, the inspection's
  visitor loop, the annotator's loop, and the quick fix.

Each loop of the source is a method with loop invariants. A method that computes a value is
proved equal to a specification function (`RankedFiles`, `ResolveDoc`, `FirstHit`,
`ChainText`, `ReferencesFor`, `ProblemsFor`, `Annotations`). The methods that edit files
(`CreateMissingPathIn`, `ChooseOrCreateApplicationYaml`, `CreateMissingPathInYaml` and the
quick fix's entry points) state the new state instead. They say which file is chosen or
created, that its root mapping becomes `Synthesize` of the old one, and that no other file
changes. The properties of the source are lemmas about those functions.

Two PSI behaviours cannot be read from the code alone, so they are parameters
(`PsiEditBehaviour`):

- `insertBeforeLast`: `addBefore(kv, current.getLastChild())` may put the new entry last or
  second to last. Order properties are therefore stated only as "existing entries keep their
  relative order".
- `descendAfterReplace`: after `existing.replace(newKv)`, the code reads `existing.getValue()`
  on the replaced element (YamlPsiUtils.java:163-165). This flag says whether that read sees
  the new chain, so that the loop descends into it, or not.
  - Convergence (`SynthesizeResolves`), monotonicity (`SynthesizeKeepsResolved`), the entry
    the path resolves to afterwards (`SynthesizeLeaf`) and idempotence
    (`SynthesizeIdempotent`) are proved for both choices.
  - Equality with the reference definition `EnsureRef` and sibling preservation are proved
    when the read descends, or when the walk meets no non-mapping value before the last
    segment.
  - `StaleReplaceErasesSibling` shows why the restriction is needed. For `a: 1, b: 2` and path
    `a.b`, a walk that does not descend goes on to edit the root's own `b`.

The YAML parser and generator (`createDummyYamlWithText`, `createYamlKeyValue`) are foreign.
The model assumes that parsing `buildYamlText(ps)` yields `ChainKv(ps)`, the chain of nested
entries for `ps`, with an empty leaf. The assumption holds only for
plain keys. A key is plain when it is not empty, has no leading or trailing blank, contains
no line break, no `": "` and no `" #"`, does not end in `:`, and does not start with `"- "`,
`"? "` or one of the YAML indicators `[ ] { } , # & * ! | > ' " % @` and the backquote.
`SynthesizeResolves`, `SynthesizeLeaf`, `SynthesizeIdempotent` and the navigation ensures of
`CreateYamlKeyQuickFix.QuickFix.ExecuteFix` rely on this assumption and say nothing about
other keys. `ReadChainTextInverse` shows that, for keys without a line break, the text
`BuildYamlText` renders determines that chain uniquely.

`YamlPropertyReference.createReferences(expression)` is called by the inspection and by the
contributor but is not defined in the source. The model takes it to be
`createReferencesForLiteral` applied to the literal's string value.

Behaviours of the code worth noting:

- A path that ends at an existing scalar is not a no-op. The existing entry is not a mapping,
  so it is replaced by the chain and its value is erased (`ResolvedScalarErased`).
- The ranking is per file name, not global. Every `application.yml` precedes every
  `application.yaml` whatever their weights (`RankingIsPerName`). A main-resources `.yml`, a
  `tmp` `.yml` and an other-resources `.yaml` come out with weights 0, 2, 1.
- Placeholder offsets are those of the whole `${...}` span, shifted by one for the opening
  quote. They are not the offsets of the body. The reference keeps group 1 untrimmed, with its
  trailing blanks (`TrailingSpaceKept`).
- The inspection suppresses all problems of a literal as soon as any reference of the literal
  resolves (`ResolvedSilences`). It does not decide match by match.
- Without a root mapping, the whole chain becomes the file's mapping, as in the source.
- A placeholder with blanks around a segment hands the fix a key that is not plain. For
  `${ server.port }`, group 1 is `"server.port "`, and the fix receives the parts
  `["server", "port "]` (`TrailingSpaceKept`). When the root has no `server`, the chain text
  `"server:\n  port :\n"` parses to the key `port`, since a YAML plain scalar cannot end in a
  blank (YamlPsiUtils.java:133-136). The loop then enters that mapping, and
  `getKeyValueByKey("port ")` (line 124) does not find `port`. So
  `createYamlKeyValue("port ", "")` (line 128) adds a second `port` entry. Afterwards
  `findYamlKey("server.port ")` still finds nothing, so the fix does not navigate, and the
  warning stays.

## Model

| member | source | states |
|---|---|---|
| `YamlTree.KeyIndex` | src/main/java/dev/marko/yamlbuddy/util/YamlPsiUtils.java:76 | the index found holds the key and no earlier entry does; none means no entry has the key |
| `YamlTree.GetKeyValueByKey` | src/main/java/dev/marko/yamlbuddy/util/YamlPsiUtils.java:124 | getKeyValueByKey finds an entry iff some entry has the key, and what it finds has that key and is an entry of the mapping |
| `YamlTree.Child` | src/main/java/dev/marko/yamlbuddy/util/YamlPsiUtils.java:82-84 | descending is possible exactly when the first entry for the key holds a mapping |
| `YamlTree.SetChild` | src/main/java/dev/marko/yamlbuddy/util/YamlPsiUtils.java:163 | setting one entry's value keeps the length, every key and every other entry, and the key then leads to the new mapping |
| `YamlTree.InsertPosition` | src/main/java/dev/marko/yamlbuddy/util/YamlPsiUtils.java:129 | insertion before the last child lands last or second to last |
| `YamlTree.AddBefore` | src/main/java/dev/marko/yamlbuddy/util/YamlPsiUtils.java:138 | addBefore adds exactly one entry; every old entry keeps its place relative to the others |
| `YamlTree.AddBeforeNewKey` | src/main/java/dev/marko/yamlbuddy/util/YamlPsiUtils.java:138-140 | when the key was absent, the lookup right after the insertion (justAdded) finds the inserted entry |
| `YamlTree.AddBeforeOtherKey` | src/main/java/dev/marko/yamlbuddy/util/YamlPsiUtils.java:149 | inserting an entry changes no lookup or descent under any other key |
| `YamlTree.KeyIndexAt` | src/main/java/dev/marko/yamlbuddy/util/YamlPsiUtils.java:76 | an entry with the key and none before it is the one found |
| `YamlTree.ReplaceAtGet` | src/main/java/dev/marko/yamlbuddy/util/YamlPsiUtils.java:129 | after an in-place edit of the mapping `current`, that mapping is the edited one |
| `YamlTree.ReplaceAtSame` | src/main/java/dev/marko/yamlbuddy/util/YamlPsiUtils.java:156 | replacing a mapping by itself leaves the tree unchanged |
| `YamlTree.MappingAtSnoc` | src/main/java/dev/marko/yamlbuddy/util/YamlPsiUtils.java:156 | descending one more key is looking that key up in the mapping reached so far |
| `YamlTree.ReplaceAtSnoc` | src/main/java/dev/marko/yamlbuddy/util/YamlPsiUtils.java:163 | an edit one level below `current` is an entry update in `current` |
| `YamlTree.CursorAfterEdit` | src/main/java/dev/marko/yamlbuddy/util/YamlPsiUtils.java:140-142 | after an edit, moving `current` into a key reaches that key's child in the edited mapping |
| `JavaStrings.SplitOnDotsMeaning` | src/main/java/dev/marko/yamlbuddy/util/YamlPsiUtils.java:69 | split("\\.") gives dot-free pieces, the pieces between dots with only empty trailing pieces dropped, [""] for "", no empty last piece otherwise, and [] iff the text is a non-empty run of dots |
| `JavaStrings.SplitOnDotsTrailing` | src/main/java/dev/marko/yamlbuddy/util/YamlPsiUtils.java:121 | "a.b." splits to ["a","b"] |
| `JavaStrings.SplitOnDotsEdges` | src/main/java/dev/marko/yamlbuddy/util/YamlPsiUtils.java:105 | "..." splits to [], "" to [""], ".a" to ["","a"] |
| `JavaStrings.JoinSplitAll` | src/main/java/dev/marko/yamlbuddy/util/YamlPsiUtils.java:69 | joining all the pieces with dots gives the text back |
| `JavaStrings.EmptyPiecesIffDots` | src/main/java/dev/marko/yamlbuddy/util/YamlPsiUtils.java:69 | every piece is empty iff the text holds only dots |
| `JavaStrings.KeptFrom` | src/main/java/dev/marko/yamlbuddy/reference/YamlPropertyReference.java:66 | trim's start index is in range and is not a trimmable character |
| `JavaStrings.KeptUntil` | src/main/java/dev/marko/yamlbuddy/reference/YamlPropertyReference.java:66 | trim's end index is in range and follows a character that is kept |
| `JavaStrings.TrimProperties` | src/main/java/dev/marko/yamlbuddy/reference/YamlPropertyReference.java:66 | trim() is empty iff every character is at most U+0020, and otherwise starts and ends with a kept character |
| `JavaStrings.ContainsOccurs` | src/main/java/dev/marko/yamlbuddy/reference/YamlPropertyReferenceContributor.java:50 | contains(t) holds iff t occurs at some index |
| `JavaStrings.SplitAll` | src/main/java/dev/marko/yamlbuddy/util/YamlPsiUtils.java:121 | the pieces are at least one and contain no dot; a dot-free text is its own only piece |
| `JavaStrings.DropTrailingEmpty` | src/main/java/dev/marko/yamlbuddy/util/YamlPsiUtils.java:121 | the result is a prefix whose dropped tail is empty pieces and whose last piece is not empty |
| `YamlPsiUtils.Weight` | src/main/java/dev/marko/yamlbuddy/util/YamlPsiUtils.java:54-55 | the comparator's weight is 0, 1 or 2 |
| `YamlPsiUtils.FindApplicationYamlFiles` | src/main/java/dev/marko/yamlbuddy/util/YamlPsiUtils.java:46-63 | the loops build exactly the ranked list: per candidate name, in CANDIDATES order, the sorted index hits that are YAML files |
| `YamlPsiUtils.RankedFilesGroups` | src/main/java/dev/marko/yamlbuddy/util/YamlPsiUtils.java:29 | the ranked list is the application.yml group followed by the application.yaml group |
| `YamlPsiUtils.GroupProperties` | src/main/java/dev/marko/yamlbuddy/util/YamlPsiUtils.java:50-60 | a group holds only YAML files returned by the index for that name, sorted by weight, each weight class in discovery order |
| `YamlPsiUtils.RankedFilesProperties` | src/main/java/dev/marko/yamlbuddy/util/YamlPsiUtils.java:49-61 | every .yml hit precedes every .yaml hit, only YAML files are kept, and each group is weight-sorted with stable ties |
| `YamlPsiUtils.RankingIsPerName` | src/main/java/dev/marko/yamlbuddy/util/YamlPsiUtils.java:49-61 | a weight-2 application.yml still precedes a weight-1 application.yaml |
| `YamlPsiUtils.SortByWeightPermutes` | src/main/java/dev/marko/yamlbuddy/util/YamlPsiUtils.java:51-57 | the sort is a permutation of the index hits |
| `YamlPsiUtils.SortByWeightSorted` | src/main/java/dev/marko/yamlbuddy/util/YamlPsiUtils.java:51-57 | the sorted list has non-decreasing weights |
| `YamlPsiUtils.SortByWeightStable` | src/main/java/dev/marko/yamlbuddy/util/YamlPsiUtils.java:51-57 | files of equal weight keep their discovery order (Arrays.sort on objects is stable) |
| `YamlPsiUtils.SortByWeightUnique` | src/main/java/dev/marko/yamlbuddy/util/YamlPsiUtils.java:51-57 | any weight-sorted list with the same per-weight order is the sorted list, so the stable sort is fully determined |
| `YamlPsiUtils.SortedSplits` | src/main/java/dev/marko/yamlbuddy/util/YamlPsiUtils.java:51-57 | a weight-sorted list is its own stable sort |
| `YamlPsiUtils.SortedCons` | src/main/java/dev/marko/yamlbuddy/util/YamlPsiUtils.java:51-57 | putting a file no heavier than the rest in front of a sorted list keeps it sorted |
| `YamlPsiUtils.OfWeightYamlOnly` | src/main/java/dev/marko/yamlbuddy/util/YamlPsiUtils.java:58-60 | filtering by weight and keeping only YAML files commute |
| `YamlPsiUtils.YamlOnlyMembers` | src/main/java/dev/marko/yamlbuddy/util/YamlPsiUtils.java:58-60 | `psi instanceof YAMLFile` keeps only YAML files of the input |
| `YamlPsiUtils.YamlOnlyKeepsSorted` | src/main/java/dev/marko/yamlbuddy/util/YamlPsiUtils.java:58-60 | dropping non-YAML files keeps the weight order |
| `YamlPsiUtils.OfWeightTwice` | src/main/java/dev/marko/yamlbuddy/util/YamlPsiUtils.java:54-56 | two weight filters keep everything when the weights agree, nothing otherwise |
| `YamlPsiUtils.OfWeightBeyond` | src/main/java/dev/marko/yamlbuddy/util/YamlPsiUtils.java:54-55 | no file has a weight above 2 |
| `YamlPsiUtils.ResolveMeaning` | src/main/java/dev/marko/yamlbuddy/util/YamlPsiUtils.java:68-90 | null for an empty split path or when a non-last segment is missing or holds no mapping; otherwise the first entry for the last segment, whatever its value |
| `YamlPsiUtils.ResolveAppend` | src/main/java/dev/marko/yamlbuddy/util/YamlPsiUtils.java:73-88 | resolving p+q is resolving q in the mapping reached through p |
| `YamlPsiUtils.FindKeyInYamlPsi` | src/main/java/dev/marko/yamlbuddy/util/YamlPsiUtils.java:68-90 | the loop returns the resolution of the split path in the file's root mapping, and null when there is no root mapping |
| `YamlPsiUtils.FirstHit` | src/main/java/dev/marko/yamlbuddy/util/YamlPsiUtils.java:36-39 | a hit comes from one of the probed files |
| `YamlPsiUtils.FirstHitMeaning` | src/main/java/dev/marko/yamlbuddy/util/YamlPsiUtils.java:34-41 | null iff no ranked file resolves the path, otherwise the hit of the earliest file that does |
| `YamlPsiUtils.FindYamlKey` | src/main/java/dev/marko/yamlbuddy/util/YamlPsiUtils.java:34-41 | the loop returns the first hit over the ranked files |
| `YamlPsiUtils.ChainKv` | src/main/java/dev/marko/yamlbuddy/util/YamlPsiUtils.java:134-136 | for plain keys, the parsed chain has key ps[0] and holds a one-entry mapping for the rest, or an empty leaf for one segment |
| `YamlPsiUtils.Step` | src/main/java/dev/marko/yamlbuddy/util/YamlPsiUtils.java:123-171 | one iteration leaves `current` pointing at a mapping of the edited tree |
| `YamlPsiUtils.WalkStep` | src/main/java/dev/marko/yamlbuddy/util/YamlPsiUtils.java:122 | the loop from segment i is one step followed by the loop from i+1 |
| `YamlPsiUtils.StepAbsent` | src/main/java/dev/marko/yamlbuddy/util/YamlPsiUtils.java:125-145 | an absent segment gets one new entry holding the chain parts[i..], and `current` enters it unless the segment is last |
| `YamlPsiUtils.StepDescend` | src/main/java/dev/marko/yamlbuddy/util/YamlPsiUtils.java:152-156 | an existing mapping is entered and nothing is edited |
| `YamlPsiUtils.StepReplace` | src/main/java/dev/marko/yamlbuddy/util/YamlPsiUtils.java:157-165 | an existing non-mapping entry is replaced by the chain parts[i..] with the same key, and nothing else in `current` changes |
| `YamlPsiUtils.ResolveFirstEntry` | src/main/java/dev/marko/yamlbuddy/util/YamlPsiUtils.java:76 | resolution only looks at the first entry for the first segment |
| `YamlPsiUtils.ChainResolves` | src/main/java/dev/marko/yamlbuddy/util/YamlPsiUtils.java:134-142 | the chain for ps resolves ps to an empty leaf |
| `YamlPsiUtils.ResolvedMeetsNoInner` | src/main/java/dev/marko/yamlbuddy/util/YamlPsiUtils.java:83-87 | a path that resolves meets no non-mapping value before its last segment |
| `YamlPsiUtils.EnsureRefResolves` | src/main/java/dev/marko/yamlbuddy/util/YamlPsiUtils.java:119-172 | after the reference edit the path resolves to the mapping it named, or else to an empty leaf |
| `YamlPsiUtils.EnsureRefNoop` | src/main/java/dev/marko/yamlbuddy/util/YamlPsiUtils.java:152-156 | a path already ending at a mapping or an empty value is left unchanged |
| `YamlPsiUtils.EnsureRefIdempotent` | src/main/java/dev/marko/yamlbuddy/util/YamlPsiUtils.java:119-172 | applying the reference edit twice is applying it once |
| `YamlPsiUtils.ChainStable` | src/main/java/dev/marko/yamlbuddy/util/YamlPsiUtils.java:140-144 | walking the rest of the path through a just-added chain edits nothing |
| `YamlPsiUtils.EnsureRefKeepsSiblings` | src/main/java/dev/marko/yamlbuddy/util/YamlPsiUtils.java:129-163 | entries under keys other than the first segment keep their key and value |
| `YamlPsiUtils.GrowsTrans` | src/main/java/dev/marko/yamlbuddy/util/YamlPsiUtils.java:122 | "every resolving path still resolves" composes over iterations |
| `YamlPsiUtils.GrowsSetEntry` | src/main/java/dev/marko/yamlbuddy/util/YamlPsiUtils.java:163 | replacing a non-mapping entry by one with the same key keeps every resolving path resolving |
| `YamlPsiUtils.GrowsAddBefore` | src/main/java/dev/marko/yamlbuddy/util/YamlPsiUtils.java:129 | inserting an entry for an absent key keeps every resolving path resolving |
| `YamlPsiUtils.GrowsReplaceAt` | src/main/java/dev/marko/yamlbuddy/util/YamlPsiUtils.java:129-163 | an edit of `current` that keeps its paths keeps the whole tree's paths |
| `YamlPsiUtils.EnsureRefGrows` | src/main/java/dev/marko/yamlbuddy/util/YamlPsiUtils.java:119-172 | the reference edit keeps every path that resolved |
| `YamlPsiUtils.StepGrows` | src/main/java/dev/marko/yamlbuddy/util/YamlPsiUtils.java:123-171 | one loop iteration keeps every path that resolved |
| `YamlPsiUtils.WalkGrows` | src/main/java/dev/marko/yamlbuddy/util/YamlPsiUtils.java:122-172 | the whole loop keeps every path that resolved |
| `YamlPsiUtils.ResolveAfterEdit` | src/main/java/dev/marko/yamlbuddy/util/YamlPsiUtils.java:125-165 | if the edited `current` resolves the rest of the path, the edited tree resolves the path |
| `YamlPsiUtils.StepProgress` | src/main/java/dev/marko/yamlbuddy/util/YamlPsiUtils.java:123-171 | each iteration either moves `current` one segment down the path or makes the path resolve |
| `YamlPsiUtils.WalkConverges` | src/main/java/dev/marko/yamlbuddy/util/YamlPsiUtils.java:122-172 | the loop ends with the path resolving |
| `YamlPsiUtils.EditOffPath` | src/main/java/dev/marko/yamlbuddy/util/YamlPsiUtils.java:124-165 | an edit of `current` under one key leaves a path resolving to a non-mapping as it was, unless the path runs through `current` and that key |
| `YamlPsiUtils.StepKeepsLeaf` | src/main/java/dev/marko/yamlbuddy/util/YamlPsiUtils.java:122-171 | once the path resolves to an empty leaf, a later iteration keeps that leaf, and `current` goes at most one level deeper |
| `YamlPsiUtils.StepOnPath` | src/main/java/dev/marko/yamlbuddy/util/YamlPsiUtils.java:122-171 | while the path does not resolve, an iteration on the path's prefix either enters an existing mapping and edits nothing, or leaves the path resolving to an empty leaf |
| `YamlPsiUtils.WalkReachesLeaf` | src/main/java/dev/marko/yamlbuddy/util/YamlPsiUtils.java:122-172 | a path that did not resolve ends the loop resolving to an empty entry for its last segment, whether or not the stale read descends |
| `YamlPsiUtils.WalkIsEnsureRef` | src/main/java/dev/marko/yamlbuddy/util/YamlPsiUtils.java:122-172 | when the stale read descends, or no inner non-mapping is met, the loop computes the reference edit |
| `YamlPsiUtils.WalkIsEnsureRefAbsent` | src/main/java/dev/marko/yamlbuddy/util/YamlPsiUtils.java:125-145 | the absent-segment case of the loop agrees with the reference edit |
| `YamlPsiUtils.WalkIsEnsureRefReplace` | src/main/java/dev/marko/yamlbuddy/util/YamlPsiUtils.java:157-165 | the replace case, with a descending read, agrees with the reference edit |
| `YamlPsiUtils.WalkIsEnsureRefMapping` | src/main/java/dev/marko/yamlbuddy/util/YamlPsiUtils.java:152-156 | the descend case agrees with the reference edit |
| `YamlPsiUtils.WalkOverChain` | src/main/java/dev/marko/yamlbuddy/util/YamlPsiUtils.java:139-144 | continuing the loop inside the just-added chain changes nothing, matching the one-shot insertion |
| `YamlPsiUtils.SynthesizeResolves` | src/main/java/dev/marko/yamlbuddy/util/YamlPsiUtils.java:101-172 | for a non-empty split path, afterwards findKeyInYamlPsi for the path is non-null, whatever the PSI behaviours |
| `YamlPsiUtils.SynthesizeKeepsResolved` | src/main/java/dev/marko/yamlbuddy/util/YamlPsiUtils.java:119-172 | every path that resolved before still resolves afterwards |
| `YamlPsiUtils.SynthesizeIsEnsureRef` | src/main/java/dev/marko/yamlbuddy/util/YamlPsiUtils.java:119-172 | with a root mapping, the loop's result is the reference edit (absent: insert chain; non-mapping: replace by chain; mapping: descend) |
| `YamlPsiUtils.SynthesizeLeaf` | src/main/java/dev/marko/yamlbuddy/util/YamlPsiUtils.java:101-172 | for either PSI behaviour, afterwards the path resolves to the mapping it already named, or else to an empty entry for the last segment |
| `YamlPsiUtils.SynthesizePresentNoop` | src/main/java/dev/marko/yamlbuddy/util/YamlPsiUtils.java:152-156 | a path ending at an existing mapping or empty value leaves the document unchanged |
| `YamlPsiUtils.SynthesizeIdempotent` | src/main/java/dev/marko/yamlbuddy/util/YamlPsiUtils.java:101-172 | for either PSI behaviour, running the synthesis twice changes nothing the second time |
| `YamlPsiUtils.SynthesizeKeepsSiblings` | src/main/java/dev/marko/yamlbuddy/util/YamlPsiUtils.java:129-163 | top-level entries under keys other than the first segment keep their key and value |
| `YamlPsiUtils.StaleReplaceErasesSibling` | src/main/java/dev/marko/yamlbuddy/util/YamlPsiUtils.java:163-165 | with a non-descending stale read, `a: 1, b: 2` and path a.b also empty the root's own b |
| `YamlPsiUtils.DescendingReplaceKeepsSibling` | src/main/java/dev/marko/yamlbuddy/util/YamlPsiUtils.java:163-165 | with a descending read the same input only replaces a |
| `YamlPsiUtils.SimpleMiss` | src/main/java/dev/marko/yamlbuddy/util/YamlPsiUtils.java:125-145 | an empty mapping and server.port give `server: {port:}` |
| `YamlPsiUtils.PartialMatch` | src/main/java/dev/marko/yamlbuddy/util/YamlPsiUtils.java:157-165 | `a: {b: 1}` and a.b.c give `a: {b: {c:}}` when the read descends |
| `YamlPsiUtils.PartialMatchStale` | src/main/java/dev/marko/yamlbuddy/util/YamlPsiUtils.java:163-165 | without descending, c is also added beside b |
| `YamlPsiUtils.ResolvedScalarErased` | src/main/java/dev/marko/yamlbuddy/util/YamlPsiUtils.java:154-163 | `x: {y: 5}` and x.y give `x: {y:}`: the scalar at the last segment is erased |
| `YamlPsiUtils.SiblingsKept` | src/main/java/dev/marko/yamlbuddy/util/YamlPsiUtils.java:129-138 | `a: 1, b: 2` and c.d keep a and b, with c last or between them |
| `YamlPsiUtils.Remaining` | src/main/java/dev/marko/yamlbuddy/util/YamlPsiUtils.java:132-133 | the copy loop gives parts[i..] |
| `YamlPsiUtils.CreateMissingPathIn` | src/main/java/dev/marko/yamlbuddy/util/YamlPsiUtils.java:100-174 | the file's root mapping becomes the synthesis of the old root for the split path |
| `YamlPsiUtils.EnsurePart` | src/main/java/dev/marko/yamlbuddy/util/YamlPsiUtils.java:123-171 | the iteration's new tree and `current` are those of one step |
| `YamlPsiUtils.Indent` | src/main/java/dev/marko/yamlbuddy/util/YamlPsiUtils.java:181 | n indents are 2n spaces |
| `YamlPsiUtils.ChainTextSnoc` | src/main/java/dev/marko/yamlbuddy/util/YamlPsiUtils.java:180-184 | one more segment appends its line, 2·i spaces deep |
| `YamlPsiUtils.BuildYamlText` | src/main/java/dev/marko/yamlbuddy/util/YamlPsiUtils.java:177-186 | the text is the concatenation over i of 2·i spaces, ps[i] and ":\n" |
| `YamlPsiUtils.FirstNewline` | src/main/java/dev/marko/yamlbuddy/util/YamlPsiUtils.java:182 | the line break found is the first one |
| `YamlPsiUtils.ReadChainLine` | src/main/java/dev/marko/yamlbuddy/util/YamlPsiUtils.java:182 | one rendered line reads back as its key |
| `YamlPsiUtils.ReadChainTextInverse` | src/main/java/dev/marko/yamlbuddy/util/YamlPsiUtils.java:177-186 | the rendered text of keys without line breaks reads back as exactly those keys |
| `YamlPsiUtils.BuildYamlTextExample` | src/main/java/dev/marko/yamlbuddy/util/YamlPsiUtils.java:177-186 | server.port renders as "server:\n  port:\n", and the empty list as "" |
| `YamlPsiUtils.CreatedPathWeight` | src/main/java/dev/marko/yamlbuddy/util/YamlPsiUtils.java:194-197 | a created file would have weight 0 |
| `YamlPsiUtils.ChooseOrCreateApplicationYaml` | src/main/java/dev/marko/yamlbuddy/util/YamlPsiUtils.java:188-210 | the first ranked file when there is one; else none without a base path or when I/O fails; else the file already at src/main/resources/application.yaml under the base path (none if it is not YAML), or a fresh YAML file at that path with no root mapping |
| `YamlPsiUtils.RankedFilesMembers` | src/main/java/dev/marko/yamlbuddy/util/YamlPsiUtils.java:58-60 | every ranked file is a file of the project |
| `YamlPsiUtils.CreateMissingPathInYaml` | src/main/java/dev/marko/yamlbuddy/util/YamlPsiUtils.java:95-175 | the target is the first ranked file, else the file already at `<base>/src/main/resources/application.yaml` when it is YAML, else a fresh YAML file at that path when the I/O succeeds, else none; the target's root becomes the synthesis of its old root (of no root for the fresh file); no other file changes |
| `Placeholders.CloseBrace` | src/main/java/dev/marko/yamlbuddy/reference/YamlPropertyReference.java:22 | the position found holds a '}' |
| `Placeholders.CloseBraceFirst` | src/main/java/dev/marko/yamlbuddy/reference/YamlPropertyReference.java:22 | it is the first '}' at or after the start |
| `Placeholders.MatchAt` | src/main/java/dev/marko/yamlbuddy/reference/YamlPropertyReference.java:22 | a match at p starts at p and spans at least "${x}" |
| `Placeholders.MatchAtPlaceholder` | src/main/java/dev/marko/yamlbuddy/reference/YamlPropertyReference.java:22 | a match begins with "${", ends at the first '}' after it, and has a non-empty body without '}' |
| `Placeholders.MatchAtComplete` | src/main/java/dev/marko/yamlbuddy/annotator/YamlBuddyAnnotator.java:17 | every such placeholder is the match at its start |
| `Placeholders.CloseBraceAt` | src/main/java/dev/marko/yamlbuddy/reference/YamlPropertyReference.java:22 | a '}' with none before it is the close brace found |
| `Placeholders.FindFrom` | src/main/java/dev/marko/yamlbuddy/reference/YamlPropertyReference.java:64 | find() returns a match at or after the search start |
| `Placeholders.FindFromMatch` | src/main/java/dev/marko/yamlbuddy/reference/YamlPropertyReference.java:64 | what find() returns is the match at its start |
| `Placeholders.FindFromLeftmost` | src/main/java/dev/marko/yamlbuddy/reference/YamlPropertyReference.java:64 | find() skips no earlier match |
| `Placeholders.ScanFromPlaceholders` | src/main/java/dev/marko/yamlbuddy/reference/YamlPropertyReference.java:62-64 | every match of the find() loop is a placeholder |
| `Placeholders.ScanFromComplete` | src/main/java/dev/marko/yamlbuddy/reference/YamlPropertyReference.java:62-64 | every placeholder starts inside some match of the loop |
| `Placeholders.ScanComplete` | src/main/java/dev/marko/yamlbuddy/inspection/MissingYamlKeyInspection.java:40-42 | no placeholder is skipped by a fresh matcher |
| `Placeholders.ScanNonEmptyHasBraces` | src/main/java/dev/marko/yamlbuddy/reference/YamlPropertyReferenceContributor.java:49-52 | a text with a match contains both "${" and "}" |
| `Placeholders.ScanFromStep` | src/main/java/dev/marko/yamlbuddy/reference/YamlPropertyReference.java:64 | each find() yields the next match and resumes at its end |
| `Placeholders.LeadingSpaces` | src/main/java/dev/marko/yamlbuddy/reference/YamlPropertyReference.java:22 | `\s*` takes the leading `\s` run but leaves at least one body character for the group |
| `Placeholders.LeadingSpacesAreSpaces` | src/main/java/dev/marko/yamlbuddy/reference/YamlPropertyReference.java:22 | what `\s*` takes is all `\s` |
| `Placeholders.Group1` | src/main/java/dev/marko/yamlbuddy/annotator/YamlBuddyAnnotator.java:17 | the annotator's group 1 is the raw body |
| `Placeholders.Kept` | src/main/java/dev/marko/yamlbuddy/annotator/YamlBuddyAnnotator.java:43 | skipping matches never adds any |
| `Placeholders.KeptMembers` | src/main/java/dev/marko/yamlbuddy/reference/YamlPropertyReference.java:66 | a match is kept iff it is scanned and its key is not skipped |
| `Placeholders.OrderedIndices` | src/main/java/dev/marko/yamlbuddy/reference/YamlPropertyReference.java:64 | ordered spans are non-empty and each ends before the next starts |
| `Placeholders.OrderedWeaken` | src/main/java/dev/marko/yamlbuddy/reference/YamlPropertyReference.java:64 | spans ordered from b are ordered from any a ≤ b |
| `Placeholders.ScanFromOrdered` | src/main/java/dev/marko/yamlbuddy/reference/YamlPropertyReference.java:62-64 | the loop's spans are increasing and non-overlapping |
| `Placeholders.KeptOrdered` | src/main/java/dev/marko/yamlbuddy/reference/YamlPropertyReference.java:64-66 | skipping matches keeps the order |
| `Placeholders.ScanKeptOrdered` | src/main/java/dev/marko/yamlbuddy/reference/YamlPropertyReference.java:62-66 | the kept matches are increasing and non-overlapping |
| `Placeholders.KeptPlaceholders` | src/main/java/dev/marko/yamlbuddy/reference/YamlPropertyReference.java:62-66 | every kept match is a placeholder of the text |
| `Placeholders.KeptCons` | src/main/java/dev/marko/yamlbuddy/reference/YamlPropertyReference.java:66 | one match is kept or dropped, then the rest follows |
| `Placeholders.KeptScanNone` | src/main/java/dev/marko/yamlbuddy/reference/YamlPropertyReference.java:64 | a failing find() ends the loop with everything collected |
| `Placeholders.KeptScanSkip` | src/main/java/dev/marko/yamlbuddy/inspection/MissingYamlKeyInspection.java:44 | `continue` on a skipped match collects nothing |
| `Placeholders.KeptScanKeep` | src/main/java/dev/marko/yamlbuddy/annotator/YamlBuddyAnnotator.java:41-61 | a kept match is collected next |
| `Placeholders.SpacedGroupTrim` | src/main/java/dev/marko/yamlbuddy/reference/YamlPropertyReference.java:65-66 | the spaced group trims to the same key as the raw body |
| `Placeholders.TrimSkipsTrimmable` | src/main/java/dev/marko/yamlbuddy/reference/YamlPropertyReference.java:66 | dropping leading characters that trim() strips leaves trim() unchanged |
| `Placeholders.TrimOfSuffix` | src/main/java/dev/marko/yamlbuddy/reference/YamlPropertyReference.java:66 | trim() of a suffix with aligned bounds equals trim() of the whole |
| `Placeholders.SliceOfSuffix` | src/main/java/dev/marko/yamlbuddy/reference/YamlPropertyReference.java:66 | a slice of a suffix is a slice of the whole |
| `Placeholders.KeptFromSkip` | src/main/java/dev/marko/yamlbuddy/reference/YamlPropertyReference.java:66 | trim's start passes over trimmable characters |
| `Placeholders.KeptFromSlice` | src/main/java/dev/marko/yamlbuddy/reference/YamlPropertyReference.java:66 | trim's start on a suffix is shifted by the dropped length |
| `Placeholders.KeptUntilSlice` | src/main/java/dev/marko/yamlbuddy/reference/YamlPropertyReference.java:66 | trim's end on a suffix is shifted by the dropped length, or 0 |
| `Placeholders.Matcher.constructor` | src/main/java/dev/marko/yamlbuddy/reference/YamlPropertyReference.java:62 | a fresh matcher searches from 0 with no match |
| `Placeholders.Matcher.Find` | src/main/java/dev/marko/yamlbuddy/reference/YamlPropertyReference.java:64 | find() stores the leftmost match from the last end and resumes after it; it reports whether there was one |
| `Placeholders.BlankPlaceholder` | src/main/java/dev/marko/yamlbuddy/inspection/MissingYamlKeyInspection.java:43-44 | "${ }" matches with a blank group; "${ a }" has group "a " |
| `YamlPropertyReference.NotFoundMessageNamesKey` | src/main/java/dev/marko/yamlbuddy/reference/YamlPropertyReference.java:48-50 | the message is "YAML key '", the key, then "' not found" |
| `YamlPropertyReference.NotFoundMessageInjective` | src/main/java/dev/marko/yamlbuddy/reference/YamlPropertyReference.java:48-50 | different keys give different messages |
| `YamlPropertyReference.PropertyReference.Resolve` | src/main/java/dev/marko/yamlbuddy/reference/YamlPropertyReference.java:30-32 | resolve() is findYamlKey of the key path |
| `YamlPropertyReference.PropertyReference.MultiResolve` | src/main/java/dev/marko/yamlbuddy/reference/YamlPropertyReference.java:35-39 | empty iff resolve() is null, otherwise exactly its one target |
| `YamlPropertyReference.PropertyReference.GetVariants` | src/main/java/dev/marko/yamlbuddy/reference/YamlPropertyReference.java:42-45 | there are no completion variants |
| `YamlPropertyReference.PropertyReference.GetUnresolvedMessagePattern` | src/main/java/dev/marko/yamlbuddy/reference/YamlPropertyReference.java:48-50 | the not-found message, with the raw key path between the fixed texts |
| `YamlPropertyReference.PropertyReference.HandleElementRename` | src/main/java/dev/marko/yamlbuddy/reference/YamlPropertyReference.java:53-55 | rename always fails with the fixed message and never yields an element |
| `YamlPropertyReference.ReferencesOf` | src/main/java/dev/marko/yamlbuddy/reference/YamlPropertyReference.java:67-71 | one reference per kept match |
| `YamlPropertyReference.ReferencesOfIndex` | src/main/java/dev/marko/yamlbuddy/reference/YamlPropertyReference.java:67-71 | the k-th reference is made from the k-th match |
| `YamlPropertyReference.ReferencesFromScan` | src/main/java/dev/marko/yamlbuddy/reference/YamlPropertyReference.java:64-72 | the find()-by-find() references are those of the kept scan matches |
| `YamlPropertyReference.ReferencesFromNone` | src/main/java/dev/marko/yamlbuddy/reference/YamlPropertyReference.java:64 | a failing find() ends the references |
| `YamlPropertyReference.ReferencesFromUnfold` | src/main/java/dev/marko/yamlbuddy/reference/YamlPropertyReference.java:64-72 | a match adds its reference unless group 1 trims to empty |
| `YamlPropertyReference.ReferencesFromSkip` | src/main/java/dev/marko/yamlbuddy/reference/YamlPropertyReference.java:66 | a blank match adds nothing |
| `YamlPropertyReference.ReferencesFromKeep` | src/main/java/dev/marko/yamlbuddy/reference/YamlPropertyReference.java:67-71 | a non-blank match adds the reference with range (1+start, 1+end) and its raw group 1 |
| `YamlPropertyReference.CreateReferencesForLiteral` | src/main/java/dev/marko/yamlbuddy/reference/YamlPropertyReference.java:60-74 | the loop returns exactly the references of the kept matches, in scan order |
| `YamlPropertyReference.ReferencesForKept` | src/main/java/dev/marko/yamlbuddy/reference/YamlPropertyReference.java:65-66 | a match yields a reference iff its group 1 does not trim to empty |
| `YamlPropertyReference.ReferencesForShape` | src/main/java/dev/marko/yamlbuddy/reference/YamlPropertyReference.java:65-71 | one reference per kept match: range (1+start, 1+end), key path the untrimmed group 1 |
| `YamlPropertyReference.ReferencesForOrdered` | src/main/java/dev/marko/yamlbuddy/reference/YamlPropertyReference.java:62-72 | the reference ranges are increasing and non-overlapping |
| `YamlPropertyReference.TrailingSpaceKept` | src/main/java/dev/marko/yamlbuddy/reference/YamlPropertyReference.java:65-71 | "${ a }" gives one reference over (1,7) with key path "a ", which splits to ["a "] |
| `YamlPropertyReference.BlankPlaceholderNoReference` | src/main/java/dev/marko/yamlbuddy/reference/YamlPropertyReference.java:66 | "${ }" gives no reference |
| `YamlPropertyReferenceContributor.GetReferencesByElement` | src/main/java/dev/marko/yamlbuddy/reference/YamlPropertyReferenceContributor.java:26-55 | a String literal inside @Value gets exactly the delegated references; every other element gets none |
| `YamlPropertyReferenceContributor.GuardIsSound` | src/main/java/dev/marko/yamlbuddy/reference/YamlPropertyReferenceContributor.java:49-54 | a text lacking "${" or "}" has no references, so the guard drops none |
| `YamlPropertyReferenceContributor.ContributorExample` | src/main/java/dev/marko/yamlbuddy/reference/YamlPropertyReferenceContributor.java:43-54 | "${a}" under Spring's Value gets one reference over (1,5); under another name, none |
| `MissingYamlKeyInspection.RootsOf` | src/main/java/dev/marko/yamlbuddy/util/YamlPsiUtils.java:35-37 | one root per probed file |
| `MissingYamlKeyInspection.FirstHitFound` | src/main/java/dev/marko/yamlbuddy/inspection/MissingYamlKeyInspection.java:49 | ref.resolve() != null iff some probed root resolves the path |
| `MissingYamlKeyInspection.FoundInMeaning` | src/main/java/dev/marko/yamlbuddy/inspection/MissingYamlKeyInspection.java:49 | found iff one of the roots resolves the path |
| `MissingYamlKeyInspection.ProblemsOf` | src/main/java/dev/marko/yamlbuddy/inspection/MissingYamlKeyInspection.java:57-71 | one problem per match |
| `MissingYamlKeyInspection.ProblemsOfSnoc` | src/main/java/dev/marko/yamlbuddy/inspection/MissingYamlKeyInspection.java:71 | registerProblem appends the match's descriptor |
| `MissingYamlKeyInspection.ProblemsOfIndex` | src/main/java/dev/marko/yamlbuddy/inspection/MissingYamlKeyInspection.java:57-71 | the k-th problem comes from the k-th match |
| `MissingYamlKeyInspection.AnyResolvesMeaning` | src/main/java/dev/marko/yamlbuddy/inspection/MissingYamlKeyInspection.java:46-53 | the flag is set iff some reference of the literal resolves |
| `MissingYamlKeyInspection.AnyReferenceResolves` | src/main/java/dev/marko/yamlbuddy/inspection/MissingYamlKeyInspection.java:46-53 | the resolved flag is whether any reference of the whole literal resolves |
| `MissingYamlKeyInspection.ResolveUntilHit` | src/main/java/dev/marko/yamlbuddy/inspection/MissingYamlKeyInspection.java:48-53 | the loop with `break` decides whether any of the references resolves |
| `MissingYamlKeyInspection.HitResolves` | src/main/java/dev/marko/yamlbuddy/inspection/MissingYamlKeyInspection.java:49-51 | one resolving reference sets the flag |
| `MissingYamlKeyInspection.MissResolvesNot` | src/main/java/dev/marko/yamlbuddy/inspection/MissingYamlKeyInspection.java:48-53 | references that do not resolve leave the flag unset |
| `MissingYamlKeyInspection.RankedFilesAllocated` | src/main/java/dev/marko/yamlbuddy/util/YamlPsiUtils.java:35 | every probed file is an existing object |
| `MissingYamlKeyInspection.VisitLiteralExpression` | src/main/java/dev/marko/yamlbuddy/inspection/MissingYamlKeyInspection.java:25-73 | non-String literals and literals outside Spring's Value report nothing; otherwise the matcher loop's problems |
| `MissingYamlKeyInspection.InspectLiteral` | src/main/java/dev/marko/yamlbuddy/inspection/MissingYamlKeyInspection.java:40-73 | the loop registers exactly the specified problems: none if any reference resolves, else one per non-blank match in scan order |
| `MissingYamlKeyInspection.InspectMatch` | src/main/java/dev/marko/yamlbuddy/inspection/MissingYamlKeyInspection.java:46-72 | for a non-blank match, one problem for it is appended exactly when no reference of the literal resolves; the YAML roots are unchanged |
| `MissingYamlKeyInspection.ProblemsShape` | src/main/java/dev/marko/yamlbuddy/inspection/MissingYamlKeyInspection.java:57-69 | the k-th problem has range (start+1, end+1), message "YAML key '<key>' not found" and a fix for the same raw key |
| `MissingYamlKeyInspection.ProblemsOfShape` | src/main/java/dev/marko/yamlbuddy/inspection/MissingYamlKeyInspection.java:57-69 | problems describe their matches |
| `MissingYamlKeyInspection.ResolvedSilences` | src/main/java/dev/marko/yamlbuddy/inspection/MissingYamlKeyInspection.java:46-55 | one resolving reference anywhere in the literal silences every match |
| `MissingYamlKeyInspection.InspectedMatches` | src/main/java/dev/marko/yamlbuddy/inspection/MissingYamlKeyInspection.java:43-44 | a match is inspected iff its group 1 is not blank |
| `MissingYamlKeyInspection.ProblemsOrdered` | src/main/java/dev/marko/yamlbuddy/inspection/MissingYamlKeyInspection.java:42-72 | problem ranges are in scan order and do not overlap |
| `MissingYamlKeyInspection.ProblemsOfOrdered` | src/main/java/dev/marko/yamlbuddy/inspection/MissingYamlKeyInspection.java:57-60 | ordered matches give ordered problem ranges |
| `MissingYamlKeyInspection.OnlyValueLiteralsInspected` | src/main/java/dev/marko/yamlbuddy/inspection/MissingYamlKeyInspection.java:28-38 | nothing is reported outside String literals in Spring's Value |
| `YamlBuddyAnnotator.MessagesNameKey` | src/main/java/dev/marko/yamlbuddy/annotator/YamlBuddyAnnotator.java:55-60 | the message and the tooltip each hold the key between their fixed texts |
| `YamlBuddyAnnotator.MightBeMissingInjective` | src/main/java/dev/marko/yamlbuddy/annotator/YamlBuddyAnnotator.java:57 | different keys give different warnings |
| `YamlBuddyAnnotator.AnnotationsOf` | src/main/java/dev/marko/yamlbuddy/annotator/YamlBuddyAnnotator.java:41-61 | one warning per match |
| `YamlBuddyAnnotator.AnnotationsOfSnoc` | src/main/java/dev/marko/yamlbuddy/annotator/YamlBuddyAnnotator.java:55-61 | create() appends the match's warning |
| `YamlBuddyAnnotator.AnnotationsOfIndex` | src/main/java/dev/marko/yamlbuddy/annotator/YamlBuddyAnnotator.java:41-61 | the k-th warning comes from the k-th match |
| `YamlBuddyAnnotator.Annotate` | src/main/java/dev/marko/yamlbuddy/annotator/YamlBuddyAnnotator.java:23-63 | only String literals in Spring's Value are annotated, with the loop's warnings |
| `YamlBuddyAnnotator.AnnotateText` | src/main/java/dev/marko/yamlbuddy/annotator/YamlBuddyAnnotator.java:39-62 | the loop creates exactly one warning per match with a non-empty trimmed key, in scan order |
| `YamlBuddyAnnotator.AnnotateKeep` | src/main/java/dev/marko/yamlbuddy/annotator/YamlBuddyAnnotator.java:42-61 | the warning built in the loop is the next one specified |
| `YamlBuddyAnnotator.AnnotationsShape` | src/main/java/dev/marko/yamlbuddy/annotator/YamlBuddyAnnotator.java:41-61 | each warning covers [literalStart+1+start, literalStart+1+end) and names the trimmed key in message and tooltip |
| `YamlBuddyAnnotator.AnnotatedMatches` | src/main/java/dev/marko/yamlbuddy/annotator/YamlBuddyAnnotator.java:42-43 | a match is annotated iff its body trims to non-empty |
| `YamlBuddyAnnotator.OnlyValueLiterals` | src/main/java/dev/marko/yamlbuddy/annotator/YamlBuddyAnnotator.java:26-37 | nothing is annotated outside String literals in Spring's Value |
| `YamlBuddyAnnotator.KeptAgree` | src/main/java/dev/marko/yamlbuddy/annotator/YamlBuddyAnnotator.java:42-43 | two patterns that keep the same matches keep the same list |
| `YamlBuddyAnnotator.AnnotationsMatchReferences` | src/main/java/dev/marko/yamlbuddy/annotator/YamlBuddyAnnotator.java:39-61 | the warnings and the references of a literal pair up one to one, with ranges offset by the literal start and the trimmed reference key |
| `YamlBuddyAnnotator.KeptRawIsKeptSpaced` | src/main/java/dev/marko/yamlbuddy/annotator/YamlBuddyAnnotator.java:17 | both patterns keep the same matches once keys are trimmed |
| `YamlBuddyAnnotator.AnnotationsMatchReferencesOf` | src/main/java/dev/marko/yamlbuddy/annotator/YamlBuddyAnnotator.java:45-57 | per match, warning and reference agree |
| `YamlBuddyAnnotator.AgreeAt` | src/main/java/dev/marko/yamlbuddy/annotator/YamlBuddyAnnotator.java:45-57 | one match's warning range is its reference range offset by the literal start |
| `CreateYamlKeyQuickFix.QuickFix.GetName` | src/main/java/dev/marko/yamlbuddy/inspection/CreateYamlKeyQuickFix.java:28-31 | "Create key '", the key path, then "' in application.yaml" |
| `CreateYamlKeyQuickFix.QuickFix.GetText` | src/main/java/dev/marko/yamlbuddy/inspection/CreateYamlKeyQuickFix.java:45-49 | the menu text names the same key as the name |
| `CreateYamlKeyQuickFix.QuickFix.GetFamilyName` | src/main/java/dev/marko/yamlbuddy/inspection/CreateYamlKeyQuickFix.java:33-36 | the family is "YAML Buddy QuickFixes" |
| `CreateYamlKeyQuickFix.QuickFix.IsAvailable` | src/main/java/dev/marko/yamlbuddy/inspection/CreateYamlKeyQuickFix.java:51-54 | always available |
| `CreateYamlKeyQuickFix.QuickFix.StartInWriteAction` | src/main/java/dev/marko/yamlbuddy/inspection/CreateYamlKeyQuickFix.java:61-65 | always starts in a write action |
| `CreateYamlKeyQuickFix.QuickFix.ExecuteFix` | src/main/java/dev/marko/yamlbuddy/inspection/CreateYamlKeyQuickFix.java:69-76 | the same choice or creation of application.yaml and the same edit as createMissingPathInYaml, then navigation to the lookup's hit; with an existing ranked file and a non-empty path it navigates into the first ranked file |
| `CreateYamlKeyQuickFix.QuickFix.ApplyFix` | src/main/java/dev/marko/yamlbuddy/inspection/CreateYamlKeyQuickFix.java:38-41 | same choice or creation of the file, edit and navigation as executeFix |
| `CreateYamlKeyQuickFix.QuickFix.Invoke` | src/main/java/dev/marko/yamlbuddy/inspection/CreateYamlKeyQuickFix.java:56-59 | same choice or creation of the file, edit and navigation as executeFix |
| `CreateYamlKeyQuickFix.FirstHitOfResolvingHead` | src/main/java/dev/marko/yamlbuddy/util/YamlPsiUtils.java:36-38 | the lookup stops at the first file when it resolves the path |
| `CreateYamlKeyQuickFix.GetNameInjective` | src/main/java/dev/marko/yamlbuddy/inspection/CreateYamlKeyQuickFix.java:20-31 | two fixes share a name only for the same key path, which is fixed at construction |
| `CreateYamlKeyQuickFix.FamilyIsShared` | src/main/java/dev/marko/yamlbuddy/inspection/CreateYamlKeyQuickFix.java:33-49 | every fix has the same family, and the text equals the name |
| `CreateYamlKeyQuickFix.GetNameExample` | src/main/java/dev/marko/yamlbuddy/inspection/CreateYamlKeyQuickFix.java:28-31 | the fix for server.port is named "Create key 'server.port' in application.yaml" |

## Left out

- IntelliJ plumbing is not modelled: PSI visitors, `ProblemsHolder` and `AnnotationHolder`,
  `navigate`, `WriteCommandAction`, `commitAllDocuments`, and the resolution of an
  annotation's qualified name. The element's String value and the enclosing annotation's name
  are inputs (`Element`). The holders are the returned lists of descriptors and annotations.
  Navigation is the returned hit.
- `FilenameIndex.getFilesByName`, `getBasePath`, `findFileByPath` and `findFile` are inputs
  (`Project`). Directory and file creation, `saveText` and the exception handler are one flag,
  `ioFails`. A file the fix creates is not added to the index the later lookup uses.
- YamlPsiUtils.ChainKv: the YAML parser and generator are foreign. Parsing
  `buildYamlText(ps)` is taken to give `ChainKv(ps)`, which keeps every key exactly as
  written. That is right only for plain keys, as defined in the overview. For other keys, the
  real parser yields another tree: a leading or trailing blank is dropped, and an indicator or
  a line break changes the structure. The model does not capture that, including the
  duplicate `port` entry described above.
- YamlPsiUtils.SynthesizeResolves, SynthesizeLeaf and SynthesizeIdempotent hold for the
  modelled parse. Because of the `ChainKv` assumption, they say nothing about keys that are
  not plain.
- CreateYamlKeyQuickFix.QuickFix.ExecuteFix: the ensures that navigation lands in the first
  ranked file rests on the same assumption. For a key such as `"port "`, the source does not
  navigate.
- YamlPsiUtils.Synthesize: in a file without a root mapping and for an empty split path (the
  placeholder `${...}` splits to `[]`), `buildYamlText([])` is `""`, the parser finds no
  mapping, and the `setText` fallback (YamlPsiUtils.java:110-115) sets the document text to
  `""`. Any text the file held, such as comments, is lost. The model keeps the root as "no
  mapping" and does not capture the erased text.
- Two other fallbacks depend on the parser failing for a non-empty chain, which never happens
  under the parsing assumption: the empty-key fallback (146-150) and the early `return`
  (166-168).
- YamlPsiUtils.Synthesize: equality with `EnsureRef` and sibling preservation are
  proved only when the stale `existing.getValue()` read descends into the new chain, or when
  the walk meets no non-mapping value before the last segment. The PSI decides which, and
  `StaleReplaceErasesSibling` shows the other outcome.
- YamlTree.AddBefore: which of the two possible insertion positions applies is a parameter,
  because `getLastChild()` of a PSI mapping may or may not be an entry.
- Escapes are not modelled. Offsets are computed on the unescaped `getValue()` and applied to
  the quoted source text as the code does.
- YamlPropertyReference.ReferenceOf, MissingYamlKeyInspection.ProblemOf,
  YamlBuddyAnnotator.AnnotationOf and Placeholders.Matcher.Find count offsets in characters
  (code points), not in UTF-16 units as Java does. They differ after a character outside the
  BMP: for the value `😀${a}`, the model gives the problem the range (2, 6) and Java gives (3, 7).
- JavaStrings.IsBlank follows `Character.isWhitespace`. Surrogate pairs and code points outside
  the BMP are not modelled separately.
- PSI node identity is not modelled. `current` is the key path of the mapping it points at, so
  aliasing between PSI elements is not captured.
