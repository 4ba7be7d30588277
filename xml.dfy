/**
 * The part of the DOM the library touches: elements with a name, string
 * attributes, a text value and element children.  Text, comment and
 * whitespace nodes are not represented (documents are loaded with
 * whitespace stripped).
 */
module Xml {

  datatype Node = Node(name: string, attrs: map<string, string>, text: string, children: seq<Node>)

  /** `createElement($name, $value)`: a fresh leaf with no attributes. */
  function Leaf(name: string, value: string): (n: Node)
    ensures n.name == name && n.text == value && n.attrs == map[] && n.children == []
  {
    Node(name, map[], value, [])
  }

  /** `DOMElement::getAttribute`: the attribute's value, or "" when it is absent. */
  function GetAttribute(n: Node, attr: string): (r: string)
    ensures attr in n.attrs ==> r == n.attrs[attr]
    ensures attr !in n.attrs ==> r == ""
  {
    if attr in n.attrs then n.attrs[attr] else ""
  }

  /**
   * `getElementsByTagName($tag)` over a forest: every element named tag at
   * any depth, in document order (an element before its descendants, and
   * those before its following siblings).
   */
  function ElementsByTag(forest: seq<Node>, tag: string): (r: seq<Node>)
    ensures forall i :: 0 <= i < |r| ==> r[i].name == tag
    ensures |forest| > 0 && forest[0].name == tag ==> |r| > 0 && r[0] == forest[0]
    decreases forest
  {
    if forest == [] then []
    else
      var n := forest[0];
      (if n.name == tag then [n] else []) + ElementsByTag(n.children, tag) + ElementsByTag(forest[1..], tag)
  }

  /** Every top-level element of the forest that carries the tag is found. */
  lemma {:induction false} TopLevelFound(forest: seq<Node>, tag: string, k: nat)
    requires k < |forest| && forest[k].name == tag
    ensures forest[k] in ElementsByTag(forest, tag)
    decreases k
  {
    if k > 0 {
      TopLevelFound(forest[1..], tag, k - 1);
    }
  }
}
