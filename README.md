# Project-document canonicaliser, modelled in Dafny

This project models the canonicaliser that rewrites a build-project XML document into a normal form: `ProjectFileModifier.MendProjectDocument`, its key functions, and the comparers and fingerprint it relies on. The rewrite runs in six steps:

1. **Flatten.** The root's sections are flattened into (section, child) pairs. A childless section gives one (section, null) pair.
2. **Group.** The pairs are grouped on an `ElementGroupKey`. The key is the section header (local name and attribute sequence) plus a discriminator:
   - `""` for a `PropertyGroup`;
   - otherwise the child's local name;
   - null for a childless section.
3. **Merge.** Each group becomes a copy of its first section, holding all the group's children.
4. **Sort sections.** The merged sections are stably sorted on `GetMainNodeOrder`.
5. **Tidy children.** In each section the children are stably sorted on `GetSubNodeOrder`, then deduplicated with `XElementEqualtyComparer`.
6. **Commit.** The root's children are replaced by these sections.

Files, one module each:

| file | module | contents |
|---|---|---|
| `xml.dfy` | `Xml` | The XML tree as values: elements with a local name, attributes and element children. |
| `primitives.dfy` | `Primitives` | Nullable values, C#'s unchecked 32-bit `int`, ordinal string order, `Trim`, decimal formatting. |
| `linq.dfy` | `Linq` | The LINQ operators used: `OrderBy` (stable), `Distinct`, `GroupBy` and `SequenceEqual`. Each is a specification function with lemmas; `OrderBy` and `Distinct` also have the loop that implements them. |
| `attribute_comparer.dfy` | `AttributeComparer` | `XAttributeEqualityComparer`. |
| `element_comparer.dfy` | `ElementComparer` | `XElementEqualtyComparer`. |
| `equality_helpers.dfy` | `EqualityHelpers` | `ToEqualityString`. |
| `project_file_modifier.dfy` | `ProjectFileModifier` | Grouping key, sort keys, the rewrite as the function `Mend`, a `Document` class, and the method `MendProjectDocument` that updates it in place. |

The hash code of a .NET string is a parameter `hash: string -> Int32`, because its values belong to the runtime. Every statement about hash codes holds for every such function.

`XElementEqualtyComparer` compares attribute sequences with `SequenceEqual`, so attribute order matters (`ElementComparer.AttributeOrderMatters`). It compares values untrimmed, while the fingerprint `ToEqualityString` trims them. The sub key sorts attributes by local name, so two elements with the same attributes in different orders share a sub key, yet dedupe keeps both of them (`ProjectFileModifier.ReorderedAttributesSurviveDedupe`).

## Model

| member | source | states |
|---|---|---|
| Primitives.Wrap32 | VSIXProjectFileMod/ProjectFileModifiers/ProjectFileModifier.cs:228-231 | an unchecked `int` result is congruent to the exact result modulo 2^32 and lies in the `int` range |
| Primitives.Trim | VSIXProjectFileMod/Helpers/EqualityHelpers.cs:19 | a trimmed value is no longer than the value and has no white space at either end |
| Primitives.TrimUnpadded | VSIXProjectFileMod/Helpers/EqualityHelpers.cs:19 | a value with no white space at either end is its own trimmed form |
| Primitives.TrimIgnoresPadding | VSIXProjectFileMod/Helpers/EqualityHelpers.cs:19 | white space padded around a value does not change its trimmed form |
| Linq.OrderBy | VSIXProjectFileMod/ProjectFileModifiers/ProjectFileModifier.cs:171 | sorting returns a permutation of its input |
| Linq.OrderBySorted | VSIXProjectFileMod/ProjectFileModifiers/ProjectFileModifier.cs:171 | under a total preorder the result is sorted on the key |
| Linq.OrderByStable | VSIXProjectFileMod/ProjectFileModifiers/ProjectFileModifier.cs:175 | elements with one key keep their relative order (the sort is stable) |
| Linq.OrderByNoTwoEqual | VSIXProjectFileMod/ProjectFileModifiers/ProjectFileModifier.cs:171 | sorting keeps elements that are pairwise apart under a symmetric relation pairwise apart |
| Linq.SortedUnique | VSIXProjectFileMod/ProjectFileModifiers/ProjectFileModifier.cs:140 | under an antisymmetric total preorder, two sorted arrangements of one multiset whose elements the key tells apart are the same sequence |
| Linq.OrderByOfPermutation | VSIXProjectFileMod/ProjectFileModifiers/ProjectFileModifier.cs:140 | under an antisymmetric total preorder, when the key tells the elements apart, OrderBy gives one result for every order of the same elements |
| Linq.StableSort | VSIXProjectFileMod/ProjectFileModifiers/ProjectFileModifier.cs:175 | the insertion loop computes exactly OrderBy |
| Linq.InsertionPoint | VSIXProjectFileMod/ProjectFileModifiers/ProjectFileModifier.cs:175 | the search loop finds where OrderBy's insertion places the next element |
| Linq.Distinct | VSIXProjectFileMod/ProjectFileModifiers/ProjectFileModifier.cs:178 | every survivor of Distinct is an element of the input |
| Linq.DistinctPairwise | VSIXProjectFileMod/ProjectFileModifiers/ProjectFileModifier.cs:178 | no two survivors are equal under the comparer |
| Linq.DistinctCovers | VSIXProjectFileMod/ProjectFileModifiers/ProjectFileModifier.cs:178 | under a reflexive comparer every element has an equal survivor at or before its position |
| Linq.DistinctKeepsFirst | VSIXProjectFileMod/ProjectFileModifiers/ProjectFileModifier.cs:178 | an element equal to nothing before it survives |
| Linq.DistinctSubsequence | VSIXProjectFileMod/ProjectFileModifiers/ProjectFileModifier.cs:178 | the survivors keep their input order |
| Linq.DistinctOfTwo | VSIXProjectFileMod/ProjectFileModifiers/ProjectFileModifier.cs:178 | two elements the comparer tells apart both survive |
| Linq.RemoveDuplicates | VSIXProjectFileMod/ProjectFileModifiers/ProjectFileModifier.cs:178 | the seen-list loop computes exactly Distinct |
| Linq.FirstMatch | VSIXProjectFileMod/ProjectFileModifiers/ProjectFileModifier.cs:160 | the group an element joins is the first whose key matches it |
| Linq.Matching | VSIXProjectFileMod/ProjectFileModifiers/ProjectFileModifier.cs:160 | a group's elements are input elements whose keys match the group key |
| Linq.GroupByIsGrouping | VSIXProjectFileMod/ProjectFileModifiers/ProjectFileModifier.cs:160 | under an equivalence, GroupBy partitions the input: each group is non-empty and keyed by its first element; it holds exactly the matching elements, in order; keys of different groups do not match; every element has a group |
| Linq.GroupByPrefix | VSIXProjectFileMod/ProjectFileModifiers/ProjectFileModifier.cs:160 | groups come in order of first appearance: the groups of a prefix stay at the front with the same keys |
| Linq.MatchingHas | VSIXProjectFileMod/ProjectFileModifiers/ProjectFileModifier.cs:160 | every input element whose key matches is in the group |
| Linq.SequenceEqualPairwise | VSIXProjectFileMod/Equality/XElementEqualtyComparer.cs:26 | SequenceEqual holds iff the lengths agree and the elements are equal position by position |
| AttributeComparer.NullCases | VSIXProjectFileMod/Equality/XAttributeEqualityComparer.cs:21-24 | two nulls are equal; a null and an attribute are not |
| AttributeComparer.EqualsIffIdentical | VSIXProjectFileMod/Equality/XAttributeEqualityComparer.cs:26 | two attributes are equal iff they have the same local name and exactly the same value |
| AttributeComparer.ValuesNotTrimmed | VSIXProjectFileMod/Equality/XAttributeEqualityComparer.cs:26 | values differing only in surrounding white space are unequal |
| AttributeComparer.IsEquivalence | VSIXProjectFileMod/Equality/XAttributeEqualityComparer.cs:19-27 | Equals is reflexive, symmetric and transitive on attributes |
| AttributeComparer.HashConsistent | VSIXProjectFileMod/Equality/XAttributeEqualityComparer.cs:36-39 | equal attributes have equal hash codes for every string hash |
| ElementComparer.NullCases | VSIXProjectFileMod/Equality/XElementEqualtyComparer.cs:21-24 | two nulls are equal; a null and an element are not |
| ElementComparer.EqualsIffPairwise | VSIXProjectFileMod/Equality/XElementEqualtyComparer.cs:26 | two elements are equal iff their local names agree and their attribute sequences have one length and are pairwise equal in order under the attribute comparer |
| ElementComparer.EqualsIffSameHeader | VSIXProjectFileMod/Equality/XElementEqualtyComparer.cs:26 | two elements are equal iff they have the same local name and the same attribute sequence |
| ElementComparer.ChildrenIgnored | VSIXProjectFileMod/Equality/XElementEqualtyComparer.cs:26 | elements differing only in their descendants are equal |
| ElementComparer.AttributeOrderMatters | VSIXProjectFileMod/Equality/XElementEqualtyComparer.cs:26 | the same attributes in another order make an unequal element |
| ElementComparer.InducedByHeader | VSIXProjectFileMod/Equality/XElementEqualtyComparer.cs:19-27 | the comparer relates exactly the elements with one (name, attribute sequence) header |
| ElementComparer.IsEquivalence | VSIXProjectFileMod/Equality/XElementEqualtyComparer.cs:19-27 | Equals is reflexive, symmetric and transitive on elements |
| ElementComparer.HashConsistent | VSIXProjectFileMod/Equality/XElementEqualtyComparer.cs:36-39 | equal elements have equal hash codes for every string hash |
| ElementComparer.HashOfNameAndCount | VSIXProjectFileMod/Equality/XElementEqualtyComparer.cs:36-39 | the hash code depends only on the local name and the attribute count |
| EqualityHelpers.FingerprintLength | VSIXProjectFileMod/Helpers/EqualityHelpers.cs:19 | the fingerprint starts with the local name and has at least one more character per attribute |
| EqualityHelpers.FingerprintIgnoresChildren | VSIXProjectFileMod/Helpers/EqualityHelpers.cs:19 | children never change the fingerprint |
| EqualityHelpers.AttributesStringIgnoresPadding | VSIXProjectFileMod/Helpers/EqualityHelpers.cs:19 | padding one attribute value with white space leaves the attribute part unchanged |
| EqualityHelpers.FingerprintIgnoresPadding | VSIXProjectFileMod/Helpers/EqualityHelpers.cs:19 | padding an attribute value with white space leaves the fingerprint unchanged |
| EqualityHelpers.FingerprintOfEqualElements | VSIXProjectFileMod/Helpers/EqualityHelpers.cs:19 | comparer-equal elements have one fingerprint |
| EqualityHelpers.PaddedValuesCollide | VSIXProjectFileMod/Helpers/EqualityHelpers.cs:19 | the converse fails: a padded value gives the same fingerprint for an element the comparer tells apart |
| EqualityHelpers.NamesRunTogether | VSIXProjectFileMod/Helpers/EqualityHelpers.cs:19 | the converse fails: `<ab/>` and `<a b=""/>` share a fingerprint |
| ProjectFileModifier.KeyEqualsInduced | VSIXProjectFileMod/ProjectFileModifiers/ProjectFileModifier.cs:239-242 | two keys are equal iff their sections have one header and their discriminators are equal (both null or the same string) |
| ProjectFileModifier.KeyEqualsIsEquivalence | VSIXProjectFileMod/ProjectFileModifiers/ProjectFileModifier.cs:239-242 | key equality is an equivalence, as GroupBy requires |
| ProjectFileModifier.KeyEqualsObjectAgrees | VSIXProjectFileMod/ProjectFileModifiers/ProjectFileModifier.cs:209-218 | Equals(object) is false for null and otherwise the typed Equals; a key equals itself, so the reference shortcut agrees |
| ProjectFileModifier.KeyHashConsistent | VSIXProjectFileMod/ProjectFileModifiers/ProjectFileModifier.cs:226-232 | equal keys have equal hash codes for every string hash |
| ProjectFileModifier.PropertyGroupsShareKey | VSIXProjectFileMod/ProjectFileModifiers/ProjectFileModifier.cs:70-78 | property-group pairs with comparer-equal headers share a key, whatever their children |
| ProjectFileModifier.OtherSectionsKeyedByChild | VSIXProjectFileMod/ProjectFileModifiers/ProjectFileModifier.cs:70-78 | other pairs share a key iff their headers are equal and either their children have one local name or both sections are childless |
| ProjectFileModifier.Bucket | VSIXProjectFileMod/ProjectFileModifiers/ProjectFileModifier.cs:94-114 | the bucket digit is between 1 and 6 |
| ProjectFileModifier.BucketRanks | VSIXProjectFileMod/ProjectFileModifiers/ProjectFileModifier.cs:94-114 | Import < ProjectExtensions < PropertyGroup < ItemGroup < Target < every other name |
| ProjectFileModifier.MainKeyBucketStrict | VSIXProjectFileMod/ProjectFileModifiers/ProjectFileModifier.cs:85-129 | a section in a lower bucket has a strictly smaller main key, whatever follows the bucket digit |
| ProjectFileModifier.MainKeyBucketOrder | VSIXProjectFileMod/ProjectFileModifiers/ProjectFileModifier.cs:85-129 | main keys in order imply buckets in order |
| ProjectFileModifier.ChildHistogramMembers | VSIXProjectFileMod/ProjectFileModifiers/ProjectFileModifier.cs:119-120 | the histogram part of the main key holds exactly the first characters of the children's local names |
| ProjectFileModifier.ChildHistogramShape | VSIXProjectFileMod/ProjectFileModifiers/ProjectFileModifier.cs:119-120 | each initial appears once; each group holds the children's initials that equal its key; groups are ordered by ascending count |
| ProjectFileModifier.SubKeyOfEqualElements | VSIXProjectFileMod/ProjectFileModifiers/ProjectFileModifier.cs:136-145 | comparer-equal children have one sub key |
| ProjectFileModifier.SubKeyOrdersByName | VSIXProjectFileMod/ProjectFileModifiers/ProjectFileModifier.cs:136-145 | when two local names first differ at a position inside both, the sub key orders the children as their names |
| ProjectFileModifier.PrefixNameSortsAfter | VSIXProjectFileMod/ProjectFileModifiers/ProjectFileModifier.cs:136-145 | when one name is a prefix of the other, attribute initials decide: `<Ab z=""/>` (key "Abz") sorts strictly after `<Abc/>` (key "Abc") |
| ProjectFileModifier.AttributeOrderIrrelevant | VSIXProjectFileMod/ProjectFileModifiers/ProjectFileModifier.cs:140 | for any attribute list with unique local names, every reordering gives the same sorted list, sorted by local name |
| ProjectFileModifier.ReorderedAttributesSurviveDedupe | VSIXProjectFileMod/ProjectFileModifiers/ProjectFileModifier.cs:175-178 | any two children of one local name whose attributes (unique names) are the same but in a different order share a sub key, are unequal under the comparer, and both survive dedupe |
| ProjectFileModifier.FlattenSound | VSIXProjectFileMod/ProjectFileModifiers/ProjectFileModifier.cs:157-159 | each pair's section is an input section; its child is a child of that section; a null child comes only from a childless section |
| ProjectFileModifier.FlattenComplete | VSIXProjectFileMod/ProjectFileModifiers/ProjectFileModifier.cs:157-159 | every child of a section is paired with it; a childless section is paired with null |
| ProjectFileModifier.FlattenPrefix | VSIXProjectFileMod/ProjectFileModifiers/ProjectFileModifier.cs:157-159 | the pairs of leading sections come first, in order |
| ProjectFileModifier.PresentSound | VSIXProjectFileMod/ProjectFileModifiers/ProjectFileModifier.cs:167 | a merged child is the child of one of the group's pairs |
| ProjectFileModifier.PresentComplete | VSIXProjectFileMod/ProjectFileModifiers/ProjectFileModifier.cs:167 | every non-null child of a group's pairs is merged; null ones are skipped |
| ProjectFileModifier.GroupedIsGrouping | VSIXProjectFileMod/ProjectFileModifiers/ProjectFileModifier.cs:160 | the grouped pairs partition the flat list by ElementGroupKey |
| ProjectFileModifier.GroupMember | VSIXProjectFileMod/ProjectFileModifiers/ProjectFileModifier.cs:160 | a group holds pairs of the flat list whose keys equal the group key |
| ProjectFileModifier.MergedHeader | VSIXProjectFileMod/ProjectFileModifiers/ProjectFileModifier.cs:164-169 | each merged section has the header of its group's first pair's section, an input section |
| ProjectFileModifier.GroupOfPair | VSIXProjectFileMod/ProjectFileModifiers/ProjectFileModifier.cs:157-169 | every pair lands in a merged section with its section's header, holding its child |
| ProjectFileModifier.ChildNamesGroupKey | VSIXProjectFileMod/ProjectFileModifiers/ProjectFileModifier.cs:70-78 | outside property groups, the group's discriminator is the local name of every merged child |
| ProjectFileModifier.MergedItemSectionsHomogeneous | VSIXProjectFileMod/ProjectFileModifiers/ProjectFileModifier.cs:160-169 | a merged section other than a property group holds children of one local name |
| ProjectFileModifier.MergedPropertyGroupsOnce | VSIXProjectFileMod/ProjectFileModifiers/ProjectFileModifier.cs:160-169 | no two merged sections are property groups with one header |
| ProjectFileModifier.MergedInFirstAppearanceOrder | VSIXProjectFileMod/ProjectFileModifiers/ProjectFileModifier.cs:160-169 | merged sections come in order of their groups' first appearance |
| ProjectFileModifier.MergeGroups | VSIXProjectFileMod/ProjectFileModifiers/ProjectFileModifier.cs:164-169 | the merge loop builds one merged section per group, in group order |
| ProjectFileModifier.TidySections | VSIXProjectFileMod/ProjectFileModifiers/ProjectFileModifier.cs:173-181 | the section loop sorts and deduplicates each section's children |
| ProjectFileModifier.MendProjectDocument | VSIXProjectFileMod/ProjectFileModifiers/ProjectFileModifier.cs:151-183 | a null document or one without a root is unchanged; otherwise the root keeps its name and attributes and its children become the rewritten sections (`Mend`) |
| ProjectFileModifier.TidySectionSortedUnique | VSIXProjectFileMod/ProjectFileModifiers/ProjectFileModifier.cs:175-180 | a tidied section keeps its header; its children are sorted on the sub key and pairwise unequal, in sorted order |
| ProjectFileModifier.TidySectionKeepsChildren | VSIXProjectFileMod/ProjectFileModifiers/ProjectFileModifier.cs:175-180 | tidying invents no child and drops a child only when an equal one stays |
| ProjectFileModifier.ChildSortStable | VSIXProjectFileMod/ProjectFileModifiers/ProjectFileModifier.cs:175-178 | children with one sub key keep their collected order; survivors keep the sorted order |
| ProjectFileModifier.OutputSectionOrigin | VSIXProjectFileMod/ProjectFileModifiers/ProjectFileModifier.cs:171-182 | each output section is a merged section with its children tidied |
| ProjectFileModifier.SectionsSortedByMainKey | VSIXProjectFileMod/ProjectFileModifiers/ProjectFileModifier.cs:171 | the sections are sorted on the main key; the output runs through the buckets in order |
| ProjectFileModifier.SectionSortStable | VSIXProjectFileMod/ProjectFileModifiers/ProjectFileModifier.cs:171 | sections with one main key keep the order of their groups |
| ProjectFileModifier.ChildrenSortedAndUnique | VSIXProjectFileMod/ProjectFileModifiers/ProjectFileModifier.cs:173-181 | in every output section the children are sorted on the sub key and no two are comparer-equal |
| ProjectFileModifier.ItemSectionsHomogeneous | VSIXProjectFileMod/ProjectFileModifiers/ProjectFileModifier.cs:157-182 | every output section other than a property group holds children of one local name |
| ProjectFileModifier.PropertyGroupsCollapse | VSIXProjectFileMod/ProjectFileModifiers/ProjectFileModifier.cs:157-182 | no two output sections are property groups with one header |
| ProjectFileModifier.SectionKept | VSIXProjectFileMod/ProjectFileModifiers/ProjectFileModifier.cs:157-182 | every input section, childless ones included, has an output section with a comparer-equal header |
| ProjectFileModifier.LandingSection | VSIXProjectFileMod/ProjectFileModifiers/ProjectFileModifier.cs:157-182 | every pair reaches an output section with its header, holding its child or a comparer-equal sibling |
| ProjectFileModifier.NoChildLost | VSIXProjectFileMod/ProjectFileModifiers/ProjectFileModifier.cs:157-182 | every input child survives, itself or as a comparer-equal sibling, in an output section whose header is comparer-equal to its section's |
| ProjectFileModifier.NothingInvented | VSIXProjectFileMod/ProjectFileModifiers/ProjectFileModifier.cs:157-182 | every output section has an input section's header, and every child in it is an input section's child |

## Left out

- `ProjectFileModifier.Modify` (ProjectFileModifier.cs:23-63) is left out. It only checks that files exist, parses, writes the backup and writes the output, so it is pure I/O.
- The Visual Studio glue is left out: `RunningDocTableEventsHandler.cs`, `ProjectFileCommand.cs`, `ProjectFileModPackage.cs` and `OptionPage.cs`. It is host API code.
- The values of .NET `string.GetHashCode` are left out. The hash is a parameter, and nothing is claimed about its values.
- `int.ToString()` of the tie-break hash is modelled as invariant-culture decimal digits.
- Culture-sensitive string comparison in the four `OrderBy` calls (lines 116, 140, 171, 175) is modelled as ordinal order on code points (`StrLe`). UTF-16 surrogate pairs are not distinguished.
- `Primitives.Trim` removes only the white space below U+0100 that `char.IsWhiteSpace` accepts. Wider Unicode white space is not modelled.
- Only element children are modelled. Text, comments and processing instructions are not, so nothing states that `ReplaceNodes` drops them (lines 167, 180, 182).
- XML namespaces are left out. Names are local names, and an XML name is never empty.
- Node identity, parenting and cloning in LINQ to XML are left out. Trees are values.
- ProjectFileModifier.TidySections: builds a new sequence of sections. The source instead rewrites each section object in place with `ReplaceNodes`, and any aliasing between those objects is not modelled.
- LINQ's `Distinct` and `GroupBy` compare hash codes before calling `Equals`. The model calls the comparer directly. The lemmas `ElementComparer.HashConsistent` and `ProjectFileModifier.KeyHashConsistent` show that equal values always have equal hash codes, so the pre-check never changes a result.
- ProjectFileModifier.KeyEqualsObject: treats every non-null argument as an ElementGroupKey. The runtime type test at line 215 is not modelled.
- ProjectFileModifier.KeyHashCode: has no null branch for `Element`. `GetMainNodeGrouping` always sets it to the section, so that branch is never taken. A null `GroupKey` is modelled.
- ProjectFileModifier.SectionsSortedByMainKey: states main-key order before each section's children are deduplicated. That is when the source computes the key (line 171, before line 178), and dedupe can change a section's histogram. Bucket order is stated for the final output.
- Full idempotence (a second pass changes nothing) is not proved. The source does not promise it, and because the main key is taken before dedupe, a second pass can reorder sections.
- The tests in `ProjectFileMod.Tests/ModificationTests.cs` are left out. They read XML fixtures that are not part of this model.
