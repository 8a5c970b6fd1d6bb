/** XElementEqualtyComparer: a shallow comparison of elements by local name
    and attribute sequence, attribute by attribute in document order, that
    never looks at children. */
module ElementComparer {
  import opened Primitives
  import opened Xml
  import Linq
  import AttributeComparer

  /** `Equals(x, y)`, where `None` is a null element. */
  function Equals(x: Option<Element>, y: Option<Element>): bool {
    match (x, y)
    case (None, None) => true
    case (None, _) => false
    case (_, None) => false
    case (Some(a), Some(b)) =>
      a.name == b.name && Linq.SequenceEqual(a.attrs, b.attrs, AttributeComparer.AttributesEqual)
  }

  /** The comparer on elements that are present, as Distinct calls it. */
  predicate ElementsEqual(a: Element, b: Element) {
    Equals(Some(a), Some(b))
  }

  /** `GetHashCode(e)`: the hash code of the local name times the number of
      attributes, wrapped to 32 bits. */
  function GetHashCode(hash: string -> Int32, e: Element): Int32 {
    Wrap32(hash(e.name) * |e.attrs|)
  }

  /** What the comparer looks at: the local name and the attribute sequence. */
  function Header(e: Element): (Name, seq<Attribute>) {
    (e.name, e.attrs)
  }

  /** Two null elements are equal; a null and a present one are not. */
  lemma NullCases(e: Element)
    ensures Equals(None, None)
    ensures !Equals(None, Some(e)) && !Equals(Some(e), None)
  {
  }

  /** Present elements are equal exactly when their local names agree and
      their attribute sequences have one length and are equal position by
      position under the attribute comparer. */
  lemma EqualsIffPairwise(a: Element, b: Element)
    ensures ElementsEqual(a, b) <==>
      a.name == b.name && |a.attrs| == |b.attrs|
      && forall i :: 0 <= i < |a.attrs| ==> AttributeComparer.AttributesEqual(a.attrs[i], b.attrs[i])
  {
    Linq.SequenceEqualPairwise(a.attrs, b.attrs, AttributeComparer.AttributesEqual);
  }

  /** Present elements are equal exactly when they have the same header:
      the same local name and the very same attribute sequence. */
  lemma EqualsIffSameHeader(a: Element, b: Element)
    ensures ElementsEqual(a, b) <==> SameHeader(a, b)
  {
    EqualsIffPairwise(a, b);
    if a.name == b.name && |a.attrs| == |b.attrs|
       && forall i :: 0 <= i < |a.attrs| ==> AttributeComparer.AttributesEqual(a.attrs[i], b.attrs[i]) {
      assert a.attrs == b.attrs;
    }
  }

  /** The comparer relates exactly the elements with one Header. */
  lemma InducedByHeader()
    ensures Linq.InducedBy(ElementsEqual, Header)
  {
    forall a, b ensures ElementsEqual(a, b) <==> Header(a) == Header(b) {
      EqualsIffSameHeader(a, b);
    }
  }

  /** The comparer is an equivalence relation on present elements. */
  lemma IsEquivalence()
    ensures Linq.Equivalence(ElementsEqual)
  {
    InducedByHeader();
  }

  /** Children are never inspected: an element equals any element with its
      header, whatever the descendants of either. */
  lemma ChildrenIgnored(e: Element, children: seq<Element>)
    ensures ElementsEqual(e, e.(children := children))
  {
    EqualsIffSameHeader(e, e.(children := children));
  }

  /** Attribute order matters: the same attributes in another order make
      a different element. */
  lemma AttributeOrderMatters()
    ensures var a := Attribute("Include", "x.cs");
            var b := Attribute("Link", "y.cs");
            !ElementsEqual(Element("Compile", [a, b], []), Element("Compile", [b, a], []))
  {
    var a := Attribute("Include", "x.cs");
    var b := Attribute("Link", "y.cs");
    EqualsIffPairwise(Element("Compile", [a, b], []), Element("Compile", [b, a], []));
    assert "Include"[0] != "Link"[0];
  }

  /** Equal elements have equal hash codes, whatever the string hash. */
  lemma HashConsistent(hash: string -> Int32, a: Element, b: Element)
    requires ElementsEqual(a, b)
    ensures GetHashCode(hash, a) == GetHashCode(hash, b)
  {
    EqualsIffPairwise(a, b);
  }

  /** The hash code depends on the local name and the attribute count only. */
  lemma HashOfNameAndCount(hash: string -> Int32, a: Element, b: Element)
    requires a.name == b.name && |a.attrs| == |b.attrs|
    ensures GetHashCode(hash, a) == GetHashCode(hash, b)
  {
  }
}
