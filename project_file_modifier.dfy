/** ProjectFileModifier.MendProjectDocument: the canonicaliser of a project
    document. The sections under the root are regrouped by header and
    child name, merged, sorted by a main key, and each section's children
    are sorted by a sub key and deduplicated. */
module ProjectFileModifier {
  import opened Primitives
  import opened Xml
  import Linq
  import ElementComparer
  import EqualityHelpers

  // =====================================================================
  // Grouping

  /** A section (`Root`) paired with one of its element children, or with
      null when the section has no element children. */
  datatype ElementWithRoot = ElementWithRoot(root: Element, element: Option<Element>)

  /** The key sections are grouped on: a section whose header is compared
      with XElementEqualtyComparer, and a discriminator compared as a
      nullable string. */
  datatype ElementGroupKey = ElementGroupKey(element: Element, groupKey: Option<string>)

  /** `GetMainNodeGrouping`: property groups are keyed by header alone (an
      empty discriminator); other sections by header and the child's local
      name, or a null discriminator when the section is childless. */
  function GetMainNodeGrouping(p: ElementWithRoot): ElementGroupKey {
    if p.root.name == "PropertyGroup" then ElementGroupKey(p.root, Some(""))
    else ElementGroupKey(p.root, if p.element.Some? then Some(p.element.value.name) else None)
  }

  /** `ElementGroupKey.Equals(ElementGroupKey)`. */
  predicate KeyEquals(a: ElementGroupKey, b: ElementGroupKey) {
    ElementComparer.Equals(Some(a.element), Some(b.element)) && a.groupKey == b.groupKey
  }

  /** `ElementGroupKey.Equals(object)`, where `None` is a null argument; a
      non-null argument is an ElementGroupKey. */
  predicate KeyEqualsObject(k: ElementGroupKey, obj: Option<ElementGroupKey>) {
    obj.Some? && KeyEquals(k, obj.value)
  }

  /** `ElementGroupKey.GetHashCode()`, computed `unchecked`. */
  function KeyHashCode(hash: string -> Int32, k: ElementGroupKey): Int32 {
    var h := Wrap32(hash(EqualityHelpers.ToEqualityString(k.element)) as int * 397);
    Xor32(h, if k.groupKey.Some? then hash(k.groupKey.value) else 0)
  }

  /** What KeyEquals looks at. */
  function KeyClass(k: ElementGroupKey): ((Name, seq<Attribute>), Option<string>) {
    (ElementComparer.Header(k.element), k.groupKey)
  }

  // =====================================================================
  // Sort keys

  /** The bucket digit that leads the main key. */
  function Bucket(name: string): (b: nat)
    ensures 1 <= b <= 6
  {
    if name == "Import" then 1
    else if name == "ProjectExtensions" then 2
    else if name == "PropertyGroup" then 3
    else if name == "ItemGroup" then 4
    else if name == "Target" then 5
    else 6
  }

  function AttributeName(a: Attribute): string {
    a.name
  }

  /** The attributes ordered by local name. */
  function SortedAttributes(e: Element): seq<Attribute> {
    Linq.OrderBy(e.attrs, AttributeName, StrLe)
  }

  /** The first character of each attribute's local name. */
  function Initials(attrs: seq<Attribute>): (r: string)
    ensures |r| == |attrs|
  {
    if |attrs| == 0 then "" else Initials(attrs[..|attrs| - 1]) + [attrs[|attrs| - 1].name[0]]
  }

  /** The attribute values run together. */
  function Values(attrs: seq<Attribute>): string {
    if |attrs| == 0 then "" else Values(attrs[..|attrs| - 1]) + attrs[|attrs| - 1].value
  }

  /** The first character of each child's local name. */
  function ChildInitials(children: seq<Element>): (r: seq<char>)
    ensures |r| == |children|
    ensures forall i :: 0 <= i < |r| ==> r[i] == children[i].name[0]
  {
    if |children| == 0 then []
    else ChildInitials(children[..|children| - 1]) + [children[|children| - 1].name[0]]
  }

  function Character(c: char): char {
    c
  }

  predicate SameCharacter(a: char, b: char) {
    a == b
  }

  function GroupSize(g: Linq.Grouping<char, char>): int {
    |g.items|
  }

  predicate IntLe(a: int, b: int) {
    a <= b
  }

  /** The children's initials grouped, the groups ordered by size. */
  function InitialGroups(e: Element): seq<Linq.Grouping<char, char>> {
    Linq.OrderBy(Linq.GroupBy(ChildInitials(e.children), Character, SameCharacter), GroupSize, IntLe)
  }

  function GroupKeys(gs: seq<Linq.Grouping<char, char>>): (r: string)
    ensures |r| == |gs|
    ensures forall i :: 0 <= i < |gs| ==> r[i] == gs[i].key
  {
    if |gs| == 0 then "" else GroupKeys(gs[..|gs| - 1]) + [gs[|gs| - 1].key]
  }

  /** One character per distinct child initial, rarest first. */
  function ChildHistogram(e: Element): string {
    GroupKeys(InitialGroups(e))
  }

  /** `GetMainNodeOrder(node)`: bucket digit, attribute initials, attribute
      values, child histogram, then the hash code of the value of the first
      attribute in document order. */
  function GetMainNodeOrder(hash: string -> Int32, e: Element): string {
    var attrs := SortedAttributes(e);
    [DigitChar(Bucket(e.name))] + Initials(attrs) + Values(attrs) + ChildHistogram(e)
      + (if |e.attrs| > 0 then IntToString(hash(e.attrs[0].value)) else "")
  }

  /** The main key as the function OrderBy is given. */
  function MainKey(hash: string -> Int32): Element -> string {
    e => GetMainNodeOrder(hash, e)
  }

  /** `GetSubNodeOrder(node)`: local name, attribute initials, attribute
      values. */
  function GetSubNodeOrder(e: Element): string {
    var attrs := SortedAttributes(e);
    e.name + Initials(attrs) + Values(attrs)
  }

  // =====================================================================
  // The rewrite, as functions of the root element

  /** The pairs one section contributes to the flat list. */
  function SectionPairs(section: Element): seq<ElementWithRoot> {
    if |section.children| == 0 then [ElementWithRoot(section, None)]
    else WithRoot(section, section.children)
  }

  function WithRoot(root: Element, children: seq<Element>): (r: seq<ElementWithRoot>)
    ensures |r| == |children|
    ensures forall i :: 0 <= i < |r| ==> r[i] == ElementWithRoot(root, Some(children[i]))
  {
    if |children| == 0 then []
    else WithRoot(root, children[..|children| - 1]) + [ElementWithRoot(root, Some(children[|children| - 1]))]
  }

  /** The flat list of (section, child) pairs, section by section. */
  function Flatten(sections: seq<Element>): seq<ElementWithRoot> {
    if |sections| == 0 then []
    else Flatten(sections[..|sections| - 1]) + SectionPairs(sections[|sections| - 1])
  }

  /** The children of the pairs, the null ones skipped as `ReplaceNodes`
      skips null content. */
  function Present(ps: seq<ElementWithRoot>): seq<Element> {
    if |ps| == 0 then []
    else Present(ps[..|ps| - 1]) + (if ps[|ps| - 1].element.Some? then [ps[|ps| - 1].element.value] else [])
  }

  /** The pairs grouped on GetMainNodeGrouping. */
  function Grouped(sections: seq<Element>): seq<Linq.Grouping<ElementGroupKey, ElementWithRoot>> {
    Linq.GroupBy(Flatten(sections), GetMainNodeGrouping, KeyEquals)
  }

  /** A copy of the group's key section whose nodes are replaced by the
      group's children. */
  function MergeGroup(g: Linq.Grouping<ElementGroupKey, ElementWithRoot>): Element {
    Element(g.key.element.name, g.key.element.attrs, Present(g.items))
  }

  function MergeAll(gs: seq<Linq.Grouping<ElementGroupKey, ElementWithRoot>>): (r: seq<Element>)
    ensures |r| == |gs|
    ensures forall i :: 0 <= i < |gs| ==> r[i] == MergeGroup(gs[i])
  {
    if |gs| == 0 then [] else MergeAll(gs[..|gs| - 1]) + [MergeGroup(gs[|gs| - 1])]
  }

  /** One merged section per group, in group order. */
  function Merged(sections: seq<Element>): seq<Element> {
    MergeAll(Grouped(sections))
  }

  /** The merged sections ordered on the main key. */
  function SortedSections(hash: string -> Int32, sections: seq<Element>): seq<Element> {
    Linq.OrderBy(Merged(sections), MainKey(hash), StrLe)
  }

  /** A section whose children are ordered on the sub key and deduplicated. */
  function TidySection(s: Element): Element {
    s.(children := Linq.Distinct(Linq.OrderBy(s.children, GetSubNodeOrder, StrLe), ElementComparer.ElementsEqual))
  }

  function TidyAll(ss: seq<Element>): (r: seq<Element>)
    ensures |r| == |ss|
    ensures forall i :: 0 <= i < |ss| ==> r[i] == TidySection(ss[i])
  {
    if |ss| == 0 then [] else TidyAll(ss[..|ss| - 1]) + [TidySection(ss[|ss| - 1])]
  }

  /** The root after the rewrite: its name and attributes kept, its children
      the sorted, tidied sections. */
  function Mend(hash: string -> Int32, root: Element): Element {
    root.(children := TidyAll(SortedSections(hash, root.children)))
  }

  // =====================================================================
  // The document and the in-place rewrite

  /** An XML document; `None` is a document without a root element. */
  class Document {
    var root: Option<Element>

    constructor(root: Option<Element>)
      ensures this.root == root
    {
      this.root := root;
    }
  }

  /** The merge loop: one new section per group, appended in group order. */
  method MergeGroups(grouped: seq<Linq.Grouping<ElementGroupKey, ElementWithRoot>>) returns (newList: seq<Element>)
    ensures newList == MergeAll(grouped)
  {
    newList := [];
    for i := 0 to |grouped|
      invariant newList == MergeAll(grouped[..i])
    {
      assert grouped[..i + 1][..i] == grouped[..i];
      newList := newList + [MergeGroup(grouped[i])];
    }
    assert grouped[..|grouped|] == grouped;
  }

  /** The section loop: each section's children sorted on the sub key, then
      deduplicated, then put back in place of the old ones. */
  method TidySections(newList: seq<Element>) returns (sections: seq<Element>)
    ensures sections == TidyAll(newList)
  {
    sections := [];
    for i := 0 to |newList|
      invariant sections == TidyAll(newList[..i])
    {
      var section := newList[i];
      var subElements := Linq.StableSort(section.children, GetSubNodeOrder, StrLe);
      subElements := Linq.RemoveDuplicates(subElements, ElementComparer.ElementsEqual);
      TidyAllSnoc(newList, i);
      sections := sections + [section.(children := subElements)];
    }
    assert newList[..|newList|] == newList;
  }

  lemma TidyAllSnoc(ss: seq<Element>, i: nat)
    requires i < |ss|
    ensures TidyAll(ss[..i + 1]) == TidyAll(ss[..i]) + [TidySection(ss[i])]
  {
    assert ss[..i + 1][..i] == ss[..i];
  }

  /** `MendProjectDocument(xmlDocument)`, with the string hash code as a
      parameter. A null document or one without a root is left alone;
      otherwise the root's children are replaced by the rewritten sections. */
  method MendProjectDocument(doc: Document?, hash: string -> Int32)
    modifies doc
    ensures doc != null && old(doc.root).Some? ==> doc.root == Some(Mend(hash, old(doc.root).value))
    ensures doc != null && old(doc.root).None? ==> doc.root == old(doc.root)
  {
    if doc == null || doc.root.None? {
      return;
    }
    var root := doc.root.value;
    var grouped := Linq.GroupBy(Flatten(root.children), GetMainNodeGrouping, KeyEquals);
    var newList := MergeGroups(grouped);
    newList := Linq.StableSort(newList, MainKey(hash), StrLe);
    var sections := TidySections(newList);
    doc.root := Some(root.(children := sections));
  }

  // =====================================================================
  // Properties of the grouping key

  /** KeyEquals relates exactly the keys with one KeyClass: one section
      header and one discriminator. */
  lemma KeyEqualsInduced()
    ensures Linq.InducedBy(KeyEquals, KeyClass)
  {
    forall a, b ensures KeyEquals(a, b) <==> KeyClass(a) == KeyClass(b) {
      ElementComparer.EqualsIffSameHeader(a.element, b.element);
    }
  }

  /** KeyEquals is an equivalence relation. */
  lemma KeyEqualsIsEquivalence()
    ensures Linq.Equivalence(KeyEquals)
  {
    KeyEqualsInduced();
  }

  /** Equals(object) is false for null and otherwise the typed Equals; a
      key equals itself, so the reference shortcut agrees with it. */
  lemma KeyEqualsObjectAgrees(k: ElementGroupKey, o: ElementGroupKey)
    ensures !KeyEqualsObject(k, None)
    ensures KeyEqualsObject(k, Some(o)) <==> KeyEquals(k, o)
    ensures KeyEqualsObject(k, Some(k))
  {
    ElementComparer.EqualsIffSameHeader(k.element, k.element);
  }

  /** Equal keys have equal hash codes, whatever the string hash, because
      comparer-equal sections have one fingerprint. */
  lemma KeyHashConsistent(hash: string -> Int32, a: ElementGroupKey, b: ElementGroupKey)
    requires KeyEquals(a, b)
    ensures KeyHashCode(hash, a) == KeyHashCode(hash, b)
  {
    EqualityHelpers.FingerprintOfEqualElements(a.element, b.element);
  }

  /** Property groups with comparer-equal headers share a key, whatever
      their children. */
  lemma PropertyGroupsShareKey(p: ElementWithRoot, q: ElementWithRoot)
    requires p.root.name == "PropertyGroup" && ElementComparer.ElementsEqual(p.root, q.root)
    ensures KeyEquals(GetMainNodeGrouping(p), GetMainNodeGrouping(q))
  {
    ElementComparer.EqualsIffSameHeader(p.root, q.root);
  }

  /** Outside property groups, two pairs share a key exactly when their
      sections have comparer-equal headers and either both children have
      one local name or both sections are childless. */
  lemma OtherSectionsKeyedByChild(p: ElementWithRoot, q: ElementWithRoot)
    requires p.root.name != "PropertyGroup"
    ensures KeyEquals(GetMainNodeGrouping(p), GetMainNodeGrouping(q)) <==>
      ElementComparer.ElementsEqual(p.root, q.root)
      && (if p.element.Some? then q.element.Some? && p.element.value.name == q.element.value.name
          else q.element.None?)
  {
    ElementComparer.EqualsIffSameHeader(p.root, q.root);
  }

  // =====================================================================
  // Properties of the sort keys

  /** Ordinal order is a total preorder, as OrderBy needs. */
  lemma OrdinalIsTotalPreorder()
    ensures Linq.TotalPreorder(StrLe)
  {
    forall a, b ensures StrLe(a, b) || StrLe(b, a) {
      StrLeTotal(a, b);
    }
    forall a, b, c | StrLe(a, b) && StrLe(b, c) ensures StrLe(a, c) {
      StrLeTransitive(a, b, c);
    }
  }

  /** The buckets rank Import, ProjectExtensions, PropertyGroup, ItemGroup
      and Target in that order, and every other name after them. */
  lemma BucketRanks(name: string)
    ensures Bucket("Import") < Bucket("ProjectExtensions") < Bucket("PropertyGroup")
            < Bucket("ItemGroup") < Bucket("Target")
    ensures name !in {"Import", "ProjectExtensions", "PropertyGroup", "ItemGroup", "Target"} ==>
            Bucket("Target") < Bucket(name)
  {
  }

  predicate SameGroupKey(a: Linq.Grouping<char, char>, b: Linq.Grouping<char, char>) {
    a.key == b.key
  }

  /** The initial groups are the groups of the children's initials,
      reordered. */
  lemma InitialGroupsAreGroups(e: Element)
    ensures var gs := Linq.GroupBy(ChildInitials(e.children), Character, SameCharacter);
            Linq.IsGrouping(gs, ChildInitials(e.children), Character, SameCharacter)
            && multiset(InitialGroups(e)) == multiset(gs)
            && forall g :: g in InitialGroups(e) <==> g in gs
  {
    var gs := Linq.GroupBy(ChildInitials(e.children), Character, SameCharacter);
    var ig := InitialGroups(e);
    assert Linq.InducedBy(SameCharacter, Character);
    Linq.GroupByIsGrouping(ChildInitials(e.children), Character, SameCharacter, Character);
    forall g ensures g in ig <==> g in gs {
      assert g in ig <==> g in multiset(ig);
    }
  }

  /** Every initial is the key of an initial group. */
  lemma InitialGroupsCover(e: Element, i: nat) returns (k: nat)
    requires i < |e.children|
    ensures k < |InitialGroups(e)| && InitialGroups(e)[k].key == e.children[i].name[0]
  {
    var m := GroupOfInitial(e, i);
    k := InitialGroupIndex(e, m);
  }

  /** The group of the children's initials that holds a given initial. */
  lemma GroupOfInitial(e: Element, i: nat) returns (m: nat)
    requires i < |e.children|
    ensures var gs := Linq.GroupBy(ChildInitials(e.children), Character, SameCharacter);
            m < |gs| && gs[m].key == e.children[i].name[0]
  {
    var initials := ChildInitials(e.children);
    var gs := Linq.GroupBy(initials, Character, SameCharacter);
    assert Linq.InducedBy(SameCharacter, Character);
    Linq.GroupByIsGrouping(initials, Character, SameCharacter, Character);
    assert Linq.CoversAll(gs, initials, Character, SameCharacter);
    assert initials[i] in initials;
    m :| 0 <= m < |gs| && SameCharacter(gs[m].key, Character(initials[i]));
  }

  /** Where a group of the children's initials lands after the sort by size. */
  lemma InitialGroupIndex(e: Element, m: nat) returns (k: nat)
    requires m < |Linq.GroupBy(ChildInitials(e.children), Character, SameCharacter)|
    ensures k < |InitialGroups(e)|
            && InitialGroups(e)[k] == Linq.GroupBy(ChildInitials(e.children), Character, SameCharacter)[m]
  {
    var gs := Linq.GroupBy(ChildInitials(e.children), Character, SameCharacter);
    var ig := InitialGroups(e);
    assert multiset(ig) == multiset(gs);
    assert gs[m] in multiset(ig);
    k :| 0 <= k < |ig| && ig[k] == gs[m];
  }

  /** Every initial group is keyed by an initial. */
  lemma InitialGroupKey(e: Element, k: nat) returns (i: nat)
    requires k < |InitialGroups(e)|
    ensures i < |e.children| && e.children[i].name[0] == InitialGroups(e)[k].key
  {
    var initials := ChildInitials(e.children);
    var gs := Linq.GroupBy(initials, Character, SameCharacter);
    InitialGroupsAreGroups(e);
    var ig := InitialGroups(e);
    assert ig[k] in gs;
    var m :| 0 <= m < |gs| && gs[m] == ig[k];
    assert gs[m].items[0] in gs[m].items;
    i :| 0 <= i < |initials| && initials[i] == ig[k].key;
  }

  lemma ChildHistogramSound(e: Element, c: char)
    requires c in ChildHistogram(e)
    ensures exists i :: 0 <= i < |e.children| && e.children[i].name[0] == c
  {
    var k :| 0 <= k < |InitialGroups(e)| && ChildHistogram(e)[k] == c;
    var i := InitialGroupKey(e, k);
  }

  lemma ChildHistogramComplete(e: Element, i: nat)
    requires i < |e.children|
    ensures e.children[i].name[0] in ChildHistogram(e)
  {
    var k := InitialGroupsCover(e, i);
    assert ChildHistogram(e)[k] == e.children[i].name[0];
  }

  /** The child histogram holds exactly the initials of the children's
      local names. */
  lemma ChildHistogramMembers(e: Element, c: char)
    ensures c in ChildHistogram(e) <==> exists i :: 0 <= i < |e.children| && e.children[i].name[0] == c
  {
    if c in ChildHistogram(e) {
      ChildHistogramSound(e, c);
    }
    if exists i :: 0 <= i < |e.children| && e.children[i].name[0] == c {
      var i :| 0 <= i < |e.children| && e.children[i].name[0] == c;
      ChildHistogramComplete(e, i);
    }
  }

  /** The child histogram names each initial once, and the groups behind it
      hold the children's initials by initial, ordered by size, rarest
      first. */
  lemma ChildHistogramShape(e: Element)
    ensures forall i, j :: 0 <= i < j < |ChildHistogram(e)| ==> ChildHistogram(e)[i] != ChildHistogram(e)[j]
    ensures forall g :: g in InitialGroups(e) ==>
              g.items == Linq.Matching(ChildInitials(e.children), Character, SameCharacter, g.key)
    ensures Linq.SortedBy(InitialGroups(e), GroupSize, IntLe)
  {
    var gs := Linq.GroupBy(ChildInitials(e.children), Character, SameCharacter);
    InitialGroupsAreGroups(e);
    forall g | g in InitialGroups(e)
      ensures g.items == Linq.Matching(ChildInitials(e.children), Character, SameCharacter, g.key)
    {
      assert g in gs;
    }
    assert Linq.NoTwoEqual(gs, SameGroupKey);
    Linq.OrderByNoTwoEqual(gs, GroupSize, IntLe, SameGroupKey);
    Linq.OrderBySorted(gs, GroupSize, IntLe);
  }

  /** A section in a lower bucket has a strictly smaller main key. */
  lemma MainKeyBucketStrict(hash: string -> Int32, a: Element, b: Element)
    requires Bucket(a.name) < Bucket(b.name)
    ensures StrLe(GetMainNodeOrder(hash, a), GetMainNodeOrder(hash, b))
    ensures !StrLe(GetMainNodeOrder(hash, b), GetMainNodeOrder(hash, a))
  {
    StrLeFirstDifference(GetMainNodeOrder(hash, a), GetMainNodeOrder(hash, b), 0);
  }

  /** Main keys in order put the buckets in order. */
  lemma MainKeyBucketOrder(hash: string -> Int32, a: Element, b: Element)
    requires StrLe(GetMainNodeOrder(hash, a), GetMainNodeOrder(hash, b))
    ensures Bucket(a.name) <= Bucket(b.name)
  {
    if Bucket(b.name) < Bucket(a.name) {
      MainKeyBucketStrict(hash, b, a);
    }
  }

  /** Comparer-equal elements share a sub key, so duplicates meet in one
      run of equal keys. */
  lemma SubKeyOfEqualElements(a: Element, b: Element)
    requires ElementComparer.ElementsEqual(a, b)
    ensures GetSubNodeOrder(a) == GetSubNodeOrder(b)
  {
    ElementComparer.EqualsIffSameHeader(a, b);
  }

  /** The sub key orders by local name first. */
  lemma SubKeyOrdersByName(a: Element, b: Element, k: nat)
    requires k < |a.name| && k < |b.name| && a.name[..k] == b.name[..k] && a.name[k] < b.name[k]
    ensures StrLe(GetSubNodeOrder(a), GetSubNodeOrder(b)) && !StrLe(GetSubNodeOrder(b), GetSubNodeOrder(a))
  {
    var x, y := GetSubNodeOrder(a), GetSubNodeOrder(b);
    assert x[..k] == a.name[..k] && x[k] == a.name[k];
    assert y[..k] == b.name[..k] && y[k] == b.name[k];
    StrLeFirstDifference(x, y, k);
  }

  /** When one local name is a prefix of the other, the sub key no longer
      orders by name: `<Ab z=""/>` sorts after `<Abc/>`. */
  lemma PrefixNameSortsAfter()
    ensures var a := Element("Ab", [Attribute("z", "")], []);
            var b := Element("Abc", [], []);
            StrLe(GetSubNodeOrder(b), GetSubNodeOrder(a)) && !StrLe(GetSubNodeOrder(a), GetSubNodeOrder(b))
  {
    var z := Attribute("z", "");
    var a := Element("Ab", [z], []);
    var b := Element("Abc", [], []);
    assert SortedAttributes(a) == [z] by {
      Linq.OrderBySingle(z, AttributeName, StrLe);
    }
    assert Initials([z]) == "z" && Values([z]) == "" by {
      assert [z][..0] == [];
    }
    assert GetSubNodeOrder(a) == "Abz";
    assert GetSubNodeOrder(b) == "Abc";
    StrLeFirstDifference("Abc", "Abz", 2);
  }

  /** Attribute sorting does not depend on document order: the same
      attributes in any order, their local names unique as XML requires,
      give one sorted list, sorted by local name. */
  lemma AttributeOrderIrrelevant(e1: Element, e2: Element)
    requires multiset(e1.attrs) == multiset(e2.attrs)
    requires forall a, b :: a in e1.attrs && b in e1.attrs && a.name == b.name ==> a == b
    ensures SortedAttributes(e1) == SortedAttributes(e2)
    ensures Linq.SortedBy(SortedAttributes(e1), AttributeName, StrLe)
  {
    OrdinalIsTotalPreorder();
    assert Linq.Antisymmetric(StrLe) by {
      forall a, b | StrLe(a, b) && StrLe(b, a) ensures a == b {
        StrLeAntisymmetric(a, b);
      }
    }
    assert Linq.KeyInjective(e1.attrs, AttributeName);
    Linq.OrderByOfPermutation(e1.attrs, e2.attrs, AttributeName, StrLe);
    Linq.OrderBySorted(e1.attrs, AttributeName, StrLe);
  }

  /** The sub key sorts attributes by name but the comparer does not: two
      children of one local name whose attributes are the same but in
      different orders share a sub key, and dedupe keeps both. */
  lemma ReorderedAttributesSurviveDedupe(e1: Element, e2: Element)
    requires e1.name == e2.name && e1.attrs != e2.attrs
    requires multiset(e1.attrs) == multiset(e2.attrs)
    requires forall a, b :: a in e1.attrs && b in e1.attrs && a.name == b.name ==> a == b
    ensures GetSubNodeOrder(e1) == GetSubNodeOrder(e2)
    ensures !ElementComparer.ElementsEqual(e1, e2)
    ensures Linq.Distinct([e1, e2], ElementComparer.ElementsEqual) == [e1, e2]
  {
    AttributeOrderIrrelevant(e1, e2);
    ElementComparer.EqualsIffSameHeader(e1, e2);
    Linq.DistinctOfTwo(e1, e2, ElementComparer.ElementsEqual);
  }

  // =====================================================================
  // Properties of flattening, grouping and merging

  /** Every pair comes from an input section, and its child from that
      section; a null child only from a childless section. */
  lemma {:induction false} FlattenSound(sections: seq<Element>, p: ElementWithRoot)
    requires p in Flatten(sections)
    ensures p.root in sections
    ensures p.element.Some? ==> p.element.value in p.root.children
    ensures p.element.None? ==> |p.root.children| == 0
  {
    if |sections| > 0 {
      var n := |sections| - 1;
      if p in Flatten(sections[..n]) {
        FlattenSound(sections[..n], p);
        assert forall x :: x in sections[..n] ==> x in sections;
      } else {
        var s := sections[n];
        assert p in SectionPairs(s);
        if |s.children| > 0 {
          var k :| 0 <= k < |s.children| && WithRoot(s, s.children)[k] == p;
        }
      }
    }
  }

  /** Every child of an input section is paired with it, and a childless
      input section is paired with null. */
  lemma {:induction false} FlattenComplete(sections: seq<Element>, s: Element)
    requires s in sections
    ensures forall c :: c in s.children ==> ElementWithRoot(s, Some(c)) in Flatten(sections)
    ensures |s.children| == 0 ==> ElementWithRoot(s, None) in Flatten(sections)
  {
    var n := |sections| - 1;
    if s == sections[n] {
      forall c | c in s.children ensures ElementWithRoot(s, Some(c)) in Flatten(sections) {
        var k :| 0 <= k < |s.children| && s.children[k] == c;
        assert WithRoot(s, s.children)[k] == ElementWithRoot(s, Some(c));
      }
    } else {
      assert s in sections[..n] by {
        var k :| 0 <= k < |sections| && sections[k] == s;
        assert sections[..n][k] == s;
      }
      FlattenComplete(sections[..n], s);
    }
  }

  /** The flat list of a prefix of the sections is a prefix of the flat list. */
  lemma {:induction false} FlattenPrefix(sections: seq<Element>, n: nat)
    requires n <= |sections|
    ensures Flatten(sections[..n]) <= Flatten(sections)
    decreases |sections|
  {
    if n < |sections| {
      var init := sections[..|sections| - 1];
      assert init[..n] == sections[..n];
      FlattenPrefix(init, n);
    } else {
      assert sections[..n] == sections;
    }
  }

  lemma {:induction false} PresentSound(ps: seq<ElementWithRoot>, c: Element)
    requires c in Present(ps)
    ensures exists p :: p in ps && p.element == Some(c)
  {
    var n := |ps| - 1;
    if c in Present(ps[..n]) {
      PresentSound(ps[..n], c);
      var p :| p in ps[..n] && p.element == Some(c);
      assert p in ps;
    } else {
      assert ps[n] in ps;
    }
  }

  lemma {:induction false} PresentComplete(ps: seq<ElementWithRoot>, p: ElementWithRoot)
    requires p in ps && p.element.Some?
    ensures p.element.value in Present(ps)
  {
    var n := |ps| - 1;
    if p != ps[n] {
      assert p in ps[..n] by {
        var k :| 0 <= k < |ps| && ps[k] == p;
        assert ps[..n][k] == p;
      }
      PresentComplete(ps[..n], p);
    }
  }

  /** The groups partition the flat list by key. */
  lemma GroupedIsGrouping(sections: seq<Element>)
    ensures Linq.IsGrouping(Grouped(sections), Flatten(sections), GetMainNodeGrouping, KeyEquals)
  {
    KeyEqualsInduced();
    Linq.GroupByIsGrouping(Flatten(sections), GetMainNodeGrouping, KeyEquals, KeyClass);
  }

  /** A group holds pairs of the flat list whose keys equal the group key. */
  lemma GroupMember(sections: seq<Element>, i: nat, p: ElementWithRoot)
    requires i < |Grouped(sections)| && p in Grouped(sections)[i].items
    ensures p in Flatten(sections)
    ensures KeyEquals(Grouped(sections)[i].key, GetMainNodeGrouping(p))
  {
    GroupedIsGrouping(sections);
  }

  /** Each merged section is a copy of the header of its group's first
      pair's section, an input section. */
  lemma MergedHeader(sections: seq<Element>, i: nat)
    requires i < |Merged(sections)|
    ensures var g := Grouped(sections)[i];
            |g.items| > 0 && g.key == GetMainNodeGrouping(g.items[0])
            && g.items[0].root in sections
            && SameHeader(Merged(sections)[i], g.items[0].root)
  {
    var g := Grouped(sections)[i];
    GroupedIsGrouping(sections);
    GroupMember(sections, i, g.items[0]);
    FlattenSound(sections, g.items[0]);
  }

  /** Every pair lands in a merged section with its section's header, and
      its child, if any, among that section's children. */
  lemma GroupOfPair(sections: seq<Element>, p: ElementWithRoot)
    requires p in Flatten(sections)
    ensures exists i :: 0 <= i < |Merged(sections)| && SameHeader(Merged(sections)[i], p.root)
              && (p.element.Some? ==> p.element.value in Merged(sections)[i].children)
  {
    var gs := Grouped(sections);
    GroupedIsGrouping(sections);
    var i :| 0 <= i < |gs| && KeyEquals(gs[i].key, GetMainNodeGrouping(p));
    Linq.MatchingHas(Flatten(sections), GetMainNodeGrouping, KeyEquals, gs[i].key, p);
    ElementComparer.EqualsIffSameHeader(gs[i].key.element, p.root);
    if p.element.Some? {
      PresentComplete(gs[i].items, p);
    }
    assert SameHeader(Merged(sections)[i], p.root);
  }

  /** In a merged section other than a property group, the group key names
      every child. */
  lemma ChildNamesGroupKey(sections: seq<Element>, i: nat, c: Element)
    requires i < |Merged(sections)| && c in Merged(sections)[i].children
    requires Merged(sections)[i].name != "PropertyGroup"
    ensures Grouped(sections)[i].key.groupKey == Some(c.name)
  {
    var g := Grouped(sections)[i];
    PresentSound(g.items, c);
    var p :| p in g.items && p.element == Some(c);
    GroupMember(sections, i, p);
    ElementComparer.EqualsIffSameHeader(g.key.element, p.root);
  }

  /** Every merged section other than a property group holds children of
      one local name. */
  lemma MergedItemSectionsHomogeneous(sections: seq<Element>, i: nat)
    requires i < |Merged(sections)| && Merged(sections)[i].name != "PropertyGroup"
    ensures forall c, d :: c in Merged(sections)[i].children && d in Merged(sections)[i].children ==> c.name == d.name
  {
    forall c, d | c in Merged(sections)[i].children && d in Merged(sections)[i].children
      ensures c.name == d.name
    {
      ChildNamesGroupKey(sections, i, c);
      ChildNamesGroupKey(sections, i, d);
    }
  }

  /** Two property groups with one header. */
  predicate SamePropertyGroup(a: Element, b: Element) {
    a.name == "PropertyGroup" && SameHeader(a, b)
  }

  /** Property groups with one header are merged into one section. */
  lemma MergedPropertyGroupsOnce(sections: seq<Element>)
    ensures Linq.NoTwoEqual(Merged(sections), SamePropertyGroup)
  {
    var ms := Merged(sections);
    var gs := Grouped(sections);
    GroupedIsGrouping(sections);
    forall i, j | 0 <= i < j < |ms| ensures !SamePropertyGroup(ms[i], ms[j]) {
      MergedHeader(sections, i);
      MergedHeader(sections, j);
      ElementComparer.EqualsIffSameHeader(gs[i].key.element, gs[j].key.element);
      assert !KeyEquals(gs[i].key, gs[j].key);
    }
  }

  /** Merged sections appear in order of the first appearance of their
      groups: the sections merged from a prefix of the input come first,
      with the same headers. */
  lemma MergedInFirstAppearanceOrder(sections: seq<Element>, n: nat)
    requires n <= |sections|
    ensures |Merged(sections[..n])| <= |Merged(sections)|
    ensures forall i :: 0 <= i < |Merged(sections[..n])| ==> SameHeader(Merged(sections)[i], Merged(sections[..n])[i])
  {
    FlattenPrefix(sections, n);
    var flat := Flatten(sections);
    var m := |Flatten(sections[..n])|;
    assert flat[..m] == Flatten(sections[..n]);
    Linq.GroupByPrefix(flat, m, GetMainNodeGrouping, KeyEquals);
  }

  // =====================================================================
  // Properties of sorting and deduplicating children

  /** A tidied section keeps its header; its children are sorted on the
      sub key, no two are comparer-equal, and they keep the sorted order. */
  lemma TidySectionSortedUnique(s: Element)
    ensures SameHeader(TidySection(s), s)
    ensures Linq.SortedBy(TidySection(s).children, GetSubNodeOrder, StrLe)
    ensures Linq.NoTwoEqual(TidySection(s).children, ElementComparer.ElementsEqual)
    ensures Linq.IsSubsequence(TidySection(s).children, Linq.OrderBy(s.children, GetSubNodeOrder, StrLe))
  {
    var sorted := Linq.OrderBy(s.children, GetSubNodeOrder, StrLe);
    OrdinalIsTotalPreorder();
    Linq.OrderBySorted(s.children, GetSubNodeOrder, StrLe);
    Linq.DistinctSubsequence(sorted, ElementComparer.ElementsEqual);
    Linq.SubsequenceSorted(TidySection(s).children, sorted, GetSubNodeOrder, StrLe);
    Linq.DistinctPairwise(sorted, ElementComparer.ElementsEqual);
  }

  /** Tidying drops children only as duplicates: every child stays or has
      a comparer-equal sibling that stays, and nothing new appears. */
  lemma TidySectionKeepsChildren(s: Element)
    ensures forall c :: c in TidySection(s).children ==> c in s.children
    ensures forall c :: c in s.children ==>
              exists d :: d in TidySection(s).children && ElementComparer.ElementsEqual(d, c)
  {
    var sorted := Linq.OrderBy(s.children, GetSubNodeOrder, StrLe);
    assert forall c :: c in sorted <==> c in s.children by {
      assert multiset(sorted) == multiset(s.children);
      forall c ensures c in sorted <==> c in s.children {
        assert c in sorted <==> c in multiset(sorted);
      }
    }
    forall c | c in s.children
      ensures exists d :: d in TidySection(s).children && ElementComparer.ElementsEqual(d, c)
    {
      var j :| 0 <= j < |sorted| && sorted[j] == c;
      ElementComparer.IsEquivalence();
      Linq.DistinctCovers(sorted, ElementComparer.ElementsEqual, j);
    }
  }

  /** Children with equal sub keys keep their collected order, and the
      survivors of dedupe keep their sorted order. */
  lemma ChildSortStable(s: Element, k: string)
    ensures Linq.WithKey(Linq.OrderBy(s.children, GetSubNodeOrder, StrLe), GetSubNodeOrder, k)
         == Linq.WithKey(s.children, GetSubNodeOrder, k)
    ensures Linq.IsSubsequence(TidySection(s).children, Linq.OrderBy(s.children, GetSubNodeOrder, StrLe))
  {
    OrdinalIsTotalPreorder();
    Linq.OrderByStable(s.children, GetSubNodeOrder, StrLe, k);
    Linq.DistinctSubsequence(Linq.OrderBy(s.children, GetSubNodeOrder, StrLe), ElementComparer.ElementsEqual);
  }

  // =====================================================================
  // Properties of the whole rewrite

  /** Each output section is a tidied merged section. */
  lemma OutputSectionOrigin(hash: string -> Int32, root: Element, k: nat)
    requires k < |Mend(hash, root).children|
    ensures exists i :: 0 <= i < |Merged(root.children)|
              && Mend(hash, root).children[k] == TidySection(Merged(root.children)[i])
  {
    var sorted := SortedSections(hash, root.children);
    assert sorted[k] in multiset(Merged(root.children));
  }

  /** The output sections, before their children are deduplicated, are
      sorted on the main key; so the output runs through the buckets in
      order: Import, ProjectExtensions, PropertyGroup, ItemGroup, Target,
      everything else. */
  lemma SectionsSortedByMainKey(hash: string -> Int32, root: Element)
    ensures Linq.SortedBy(SortedSections(hash, root.children), MainKey(hash), StrLe)
    ensures forall i, j :: 0 <= i < j < |Mend(hash, root).children| ==>
              Bucket(Mend(hash, root).children[i].name) <= Bucket(Mend(hash, root).children[j].name)
  {
    var sorted := SortedSections(hash, root.children);
    OrdinalIsTotalPreorder();
    Linq.OrderBySorted(Merged(root.children), MainKey(hash), StrLe);
    forall i, j | 0 <= i < j < |Mend(hash, root).children|
      ensures Bucket(Mend(hash, root).children[i].name) <= Bucket(Mend(hash, root).children[j].name)
    {
      assert StrLe(MainKey(hash)(sorted[i]), MainKey(hash)(sorted[j]));
      MainKeyBucketOrder(hash, sorted[i], sorted[j]);
    }
  }

  /** Sections with equal main keys keep the order of their groups. */
  lemma SectionSortStable(hash: string -> Int32, root: Element, k: string)
    ensures Linq.WithKey(SortedSections(hash, root.children), MainKey(hash), k)
         == Linq.WithKey(Merged(root.children), MainKey(hash), k)
  {
    OrdinalIsTotalPreorder();
    Linq.OrderByStable(Merged(root.children), MainKey(hash), StrLe, k);
  }

  /** In every output section the children are sorted on the sub key and
      no two are comparer-equal. */
  lemma ChildrenSortedAndUnique(hash: string -> Int32, root: Element, k: nat)
    requires k < |Mend(hash, root).children|
    ensures Linq.SortedBy(Mend(hash, root).children[k].children, GetSubNodeOrder, StrLe)
    ensures Linq.NoTwoEqual(Mend(hash, root).children[k].children, ElementComparer.ElementsEqual)
  {
    TidySectionSortedUnique(SortedSections(hash, root.children)[k]);
  }

  /** Every output section other than a property group holds children of
      one local name. */
  lemma ItemSectionsHomogeneous(hash: string -> Int32, root: Element, k: nat)
    requires k < |Mend(hash, root).children| && Mend(hash, root).children[k].name != "PropertyGroup"
    ensures forall c, d :: c in Mend(hash, root).children[k].children && d in Mend(hash, root).children[k].children
              ==> c.name == d.name
  {
    OutputSectionOrigin(hash, root, k);
    var i :| 0 <= i < |Merged(root.children)| && Mend(hash, root).children[k] == TidySection(Merged(root.children)[i]);
    TidySectionKeepsChildren(Merged(root.children)[i]);
    MergedItemSectionsHomogeneous(root.children, i);
  }

  /** No two output sections are property groups with one header. */
  lemma PropertyGroupsCollapse(hash: string -> Int32, root: Element)
    ensures Linq.NoTwoEqual(Mend(hash, root).children, SamePropertyGroup)
  {
    var sorted := SortedSections(hash, root.children);
    var out := Mend(hash, root).children;
    MergedPropertyGroupsOnce(root.children);
    Linq.OrderByNoTwoEqual(Merged(root.children), MainKey(hash), StrLe, SamePropertyGroup);
    forall i, j | 0 <= i < j < |out| ensures !SamePropertyGroup(out[i], out[j]) {
      assert !SamePropertyGroup(sorted[i], sorted[j]);
    }
  }

  /** Every input section is represented by an output section with a
      comparer-equal header, childless ones included. */
  lemma SectionKept(hash: string -> Int32, root: Element, s: Element)
    requires s in root.children
    ensures exists o :: o in Mend(hash, root).children && ElementComparer.ElementsEqual(o, s)
  {
    var p := if |s.children| == 0 then ElementWithRoot(s, None) else ElementWithRoot(s, Some(s.children[0]));
    FlattenComplete(root.children, s);
    var k := LandingSection(hash, root, p);
    ElementComparer.EqualsIffSameHeader(Mend(hash, root).children[k], s);
  }

  /** No child is lost except as a duplicate: every child of an input
      section is, itself or through a comparer-equal sibling, a child of an
      output section whose header is comparer-equal to its section's. */
  lemma NoChildLost(hash: string -> Int32, root: Element, s: Element, c: Element)
    requires s in root.children && c in s.children
    ensures exists o :: o in Mend(hash, root).children && ElementComparer.ElementsEqual(o, s)
              && exists d :: d in o.children && ElementComparer.ElementsEqual(d, c)
  {
    FlattenComplete(root.children, s);
    var k := LandingSection(hash, root, ElementWithRoot(s, Some(c)));
    ElementComparer.EqualsIffSameHeader(Mend(hash, root).children[k], s);
  }

  /** The output section a pair lands in: it has the pair's section header,
      and the pair's child or a comparer-equal sibling among its children. */
  lemma LandingSection(hash: string -> Int32, root: Element, p: ElementWithRoot) returns (k: nat)
    requires p in Flatten(root.children)
    ensures k < |Mend(hash, root).children|
    ensures SameHeader(Mend(hash, root).children[k], p.root)
    ensures p.element.Some? ==>
              exists d :: d in Mend(hash, root).children[k].children && ElementComparer.ElementsEqual(d, p.element.value)
  {
    var merged := Merged(root.children);
    var sorted := SortedSections(hash, root.children);
    GroupOfPair(root.children, p);
    var i :| 0 <= i < |merged| && SameHeader(merged[i], p.root)
             && (p.element.Some? ==> p.element.value in merged[i].children);
    assert merged[i] in multiset(sorted);
    k :| 0 <= k < |sorted| && sorted[k] == merged[i];
    TidySectionKeepsChildren(merged[i]);
  }

  /** Nothing is invented: every output section has the header of an input
      section, and every child of it is a child of an input section. */
  lemma NothingInvented(hash: string -> Int32, root: Element, k: nat)
    requires k < |Mend(hash, root).children|
    ensures exists s :: s in root.children && SameHeader(Mend(hash, root).children[k], s)
    ensures forall c :: c in Mend(hash, root).children[k].children ==>
              exists s :: s in root.children && c in s.children
  {
    var sections := root.children;
    OutputSectionOrigin(hash, root, k);
    var i :| 0 <= i < |Merged(sections)| && Mend(hash, root).children[k] == TidySection(Merged(sections)[i]);
    MergedHeader(sections, i);
    TidySectionKeepsChildren(Merged(sections)[i]);
    forall c | c in Mend(hash, root).children[k].children
      ensures exists s :: s in sections && c in s.children
    {
      var g := Grouped(sections)[i];
      PresentSound(g.items, c);
      var p :| p in g.items && p.element == Some(c);
      GroupMember(sections, i, p);
      FlattenSound(sections, p);
    }
  }
}
