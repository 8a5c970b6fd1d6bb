/** XAttributeEqualityComparer: attributes are equal when their local names
    and their values are exactly equal; no trimming, no case folding. */
module AttributeComparer {
  import opened Primitives
  import opened Xml
  import Linq

  /** `Equals(x, y)`, where `None` is a null attribute. */
  function Equals(x: Option<Attribute>, y: Option<Attribute>): bool {
    match (x, y)
    case (None, None) => true
    case (None, _) => false
    case (_, None) => false
    case (Some(a), Some(b)) => a.name == b.name && a.value == b.value
  }

  /** The comparer on attributes that are present, as SequenceEqual calls it. */
  predicate AttributesEqual(a: Attribute, b: Attribute) {
    Equals(Some(a), Some(b))
  }

  /** `GetHashCode(a)`: the product of the hash codes of the local name and
      the value, wrapped to 32 bits. */
  function GetHashCode(hash: string -> Int32, a: Attribute): Int32 {
    Wrap32(hash(a.name) * hash(a.value))
  }

  /** Two null attributes are equal; a null and a present one are not. */
  lemma NullCases(a: Attribute)
    ensures Equals(None, None)
    ensures !Equals(None, Some(a)) && !Equals(Some(a), None)
  {
  }

  /** On present attributes the comparer is exactly equality of the
      attribute values: same local name and the very same value. */
  lemma EqualsIffIdentical(a: Attribute, b: Attribute)
    ensures AttributesEqual(a, b) <==> a == b
  {
  }

  /** White space around a value is significant to the comparer. */
  lemma ValuesNotTrimmed()
    ensures !AttributesEqual(Attribute("Include", "a.cs"), Attribute("Include", " a.cs"))
  {
    assert " a.cs"[0] != "a.cs"[0];
  }

  /** The comparer is an equivalence relation on present attributes. */
  lemma IsEquivalence()
    ensures Linq.Equivalence(AttributesEqual)
  {
    assert Linq.InducedBy(AttributesEqual, (a: Attribute) => a);
  }

  /** Equal attributes have equal hash codes, whatever the string hash. */
  lemma HashConsistent(hash: string -> Int32, a: Attribute, b: Attribute)
    requires AttributesEqual(a, b)
    ensures GetHashCode(hash, a) == GetHashCode(hash, b)
  {
  }
}
