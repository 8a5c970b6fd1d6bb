/** The in-memory XML tree the canonicaliser rewrites, as values. Only
    element children are kept; text, comments and namespaces are not part
    of this model. */
module Xml {

  /** A local name. XML names are never empty, so taking the first
      character of one is always defined. */
  type Name = s: string | |s| > 0 witness "_"

  datatype Attribute = Attribute(name: Name, value: string)

  /** An element: its local name, its attributes in document order and its
      element children. */
  datatype Element = Element(name: Name, attrs: seq<Attribute>, children: seq<Element>)

  /** Same local name and same attribute sequence, whatever the children. */
  predicate SameHeader(a: Element, b: Element) {
    a.name == b.name && a.attrs == b.attrs
  }
}
