/** EqualityHelpers.ToEqualityString: a textual fingerprint of an element
    header, used as the input of ElementGroupKey's hash code. */
module EqualityHelpers {
  import opened Primitives
  import opened Xml
  import ElementComparer

  /** Each attribute's local name followed by its trimmed value, in
      document order, run together. */
  function AttributesString(attrs: seq<Attribute>): string {
    if |attrs| == 0 then ""
    else AttributesString(attrs[..|attrs| - 1]) + attrs[|attrs| - 1].name + Trim(attrs[|attrs| - 1].value)
  }

  /** `element.ToEqualityString()`. */
  function ToEqualityString(e: Element): string {
    e.name + AttributesString(e.attrs)
  }

  /** The fingerprint starts with the local name and is at least as long
      as all local names together. */
  lemma {:induction false} FingerprintLength(e: Element)
    ensures ToEqualityString(e)[..|e.name|] == e.name
    ensures |ToEqualityString(e)| >= |e.name| + |e.attrs|
  {
    AttributesStringLength(e.attrs);
  }

  lemma {:induction false} AttributesStringLength(attrs: seq<Attribute>)
    ensures |AttributesString(attrs)| >= |attrs|
  {
    if |attrs| > 0 {
      AttributesStringLength(attrs[..|attrs| - 1]);
    }
  }

  /** Children never enter the fingerprint. */
  lemma FingerprintIgnoresChildren(e: Element, children: seq<Element>)
    ensures ToEqualityString(e.(children := children)) == ToEqualityString(e)
  {
  }

  /** White space around an attribute value never enters the fingerprint. */
  lemma {:induction false} AttributesStringIgnoresPadding(attrs: seq<Attribute>, i: nat, pre: string, post: string)
    requires i < |attrs| && AllWhiteSpace(pre) && AllWhiteSpace(post)
    ensures AttributesString(attrs[i := Attribute(attrs[i].name, pre + attrs[i].value + post)])
         == AttributesString(attrs)
  {
    var p := Attribute(attrs[i].name, pre + attrs[i].value + post);
    var padded := attrs[i := p];
    var n := |attrs| - 1;
    assert AttributesString(padded) == AttributesString(padded[..n]) + padded[n].name + Trim(padded[n].value);
    if i < n {
      assert padded[..n] == attrs[..n][i := p];
      assert padded[n] == attrs[n];
      AttributesStringIgnoresPadding(attrs[..n], i, pre, post);
    } else {
      assert padded[..n] == attrs[..n];
      TrimIgnoresPadding(pre, attrs[i].value, post);
    }
  }

  /** Padding an attribute value with white space leaves the fingerprint
      unchanged. */
  lemma FingerprintIgnoresPadding(e: Element, i: nat, pre: string, post: string)
    requires i < |e.attrs| && AllWhiteSpace(pre) && AllWhiteSpace(post)
    ensures ToEqualityString(e.(attrs := e.attrs[i := Attribute(e.attrs[i].name, pre + e.attrs[i].value + post)]))
         == ToEqualityString(e)
  {
    AttributesStringIgnoresPadding(e.attrs, i, pre, post);
  }

  /** Elements the comparer calls equal have one fingerprint, which is what
      makes ElementGroupKey's hash code agree with its equality. */
  lemma FingerprintOfEqualElements(a: Element, b: Element)
    requires ElementComparer.ElementsEqual(a, b)
    ensures ToEqualityString(a) == ToEqualityString(b)
  {
    ElementComparer.EqualsIffSameHeader(a, b);
  }

  /** The converse fails: padding a value with white space gives an element
      the comparer tells apart, with the same fingerprint. */
  lemma PaddedValuesCollide(e: Element, i: nat, post: string)
    requires i < |e.attrs| && |post| > 0 && AllWhiteSpace(post)
    ensures var padded := e.(attrs := e.attrs[i := Attribute(e.attrs[i].name, e.attrs[i].value + post)]);
            ToEqualityString(padded) == ToEqualityString(e) && !ElementComparer.ElementsEqual(padded, e)
  {
    var padded := e.(attrs := e.attrs[i := Attribute(e.attrs[i].name, e.attrs[i].value + post)]);
    assert "" + e.attrs[i].value + post == e.attrs[i].value + post;
    FingerprintIgnoresPadding(e, i, "", post);
    ElementComparer.EqualsIffSameHeader(padded, e);
    assert |padded.attrs[i].value| != |e.attrs[i].value|;
  }

  /** The converse fails: a local name runs into the attribute after it. */
  lemma NamesRunTogether()
    ensures var a := Element("ab", [], []);
            var b := Element("a", [Attribute("b", "")], []);
            ToEqualityString(a) == ToEqualityString(b) && !ElementComparer.ElementsEqual(a, b)
  {
    var b := Element("a", [Attribute("b", "")], []);
    assert Trim("") == "";
    assert AttributesString(b.attrs) == "b";
    ElementComparer.EqualsIffSameHeader(Element("ab", [], []), b);
  }
}
