/** The document model: an abstract labelled tree standing in for
    System.Xml.Linq's XElement and XAttribute. Names carry their namespace URI,
    so that a lookup by an unqualified XName (XName.Get("x")) matches only the
    names that have no namespace. */
module Xml {
  import opened Results

  /** Namespace URI of every `xmlns:p` attribute. */
  const XMLNS_NAMESPACE := "http://www.w3.org/2000/xmlns/"

  datatype Attr = Attr(ns: string, localName: string, value: string)

  /** An element: its name, its attributes in document order, its child
      elements in document order and its text content (XElement.Value). */
  datatype Node = Node(ns: string, localName: string, attributes: seq<Attr>, children: seq<Node>, text: string)

  /** XAttribute.IsNamespaceDeclaration: `xmlns` itself or any `xmlns:p`. */
  predicate IsNamespaceDeclaration(a: Attr) {
    if a.ns == "" then a.localName == "xmlns" else a.ns == XMLNS_NAMESPACE
  }

  /** The element's name equals XName.Get(local). */
  predicate Named(n: Node, local: string) {
    n.ns == "" && n.localName == local
  }

  /** Index of the first child named `local`, or |children| when there is none. */
  function FirstIndex(children: seq<Node>, local: string): (i: nat)
    ensures i <= |children|
    ensures i < |children| ==> Named(children[i], local)
    ensures forall j :: 0 <= j < i ==> !Named(children[j], local)
  {
    if children == [] then 0
    else if Named(children[0], local) then 0
    else 1 + FirstIndex(children[1..], local)
  }

  /** XContainer.Element(name): the first child with that name, if any. */
  function FirstElement(children: seq<Node>, local: string): (r: Option<Node>)
    ensures r.None? <==> forall j :: 0 <= j < |children| ==> !Named(children[j], local)
    ensures r.Some? ==> FirstIndex(children, local) < |children| && r.value == children[FirstIndex(children, local)]
  {
    var i := FirstIndex(children, local);
    if i < |children| then Some(children[i]) else None
  }

  /** XContainer.Elements(name): the children with that name, in document order. */
  function Elements(children: seq<Node>, local: string): (r: seq<Node>)
    ensures forall k :: 0 <= k < |r| ==> Named(r[k], local)
    ensures |r| <= |children|
  {
    if children == [] then []
    else
      var last := children[|children| - 1];
      Elements(children[..|children| - 1], local) + (if Named(last, local) then [last] else [])
  }

  /** Elements keeps exactly the children with that name. */
  lemma {:induction false} ElementsMembers(children: seq<Node>, local: string, n: Node)
    ensures n in Elements(children, local) <==> n in children && Named(n, local)
  {
    if children != [] {
      var front := children[..|children| - 1];
      ElementsMembers(front, local, n);
      assert children == front + [children[|children| - 1]];
    }
  }

  /** Elements keeps document order: the matches of a prefix come first. */
  lemma {:induction false} ElementsAppend(xs: seq<Node>, ys: seq<Node>, local: string)
    ensures Elements(xs + ys, local) == Elements(xs, local) + Elements(ys, local)
    decreases |ys|
  {
    if ys == [] {
      assert xs + ys == xs;
    } else {
      var front := ys[..|ys| - 1];
      var last := ys[|ys| - 1];
      assert (xs + ys)[..|xs + ys| - 1] == xs + front;
      ElementsAppend(xs, front, local);
    }
  }

  /** A single child is kept exactly when it has the name. */
  lemma ElementsSingleton(x: Node, local: string)
    ensures Elements([x], local) == if Named(x, local) then [x] else []
  {
    assert [x][..0] == [];
  }

  /** XElement.Attribute(name).Value: the value of the first attribute named
      XName.Get(local), if any. */
  function AttributeValue(attributes: seq<Attr>, local: string): (r: Option<string>)
    ensures r.None? <==> forall j :: 0 <= j < |attributes| ==> !(attributes[j].ns == "" && attributes[j].localName == local)
    ensures r.Some? ==> exists j :: 0 <= j < |attributes| && attributes[j] == Attr("", local, r.value)
  {
    if attributes == [] then None
    else if attributes[0].ns == "" && attributes[0].localName == local then Some(attributes[0].value)
    else
      var r := AttributeValue(attributes[1..], local);
      assert r.Some? ==> exists j :: 0 <= j < |attributes| - 1 && attributes[1..][j] == Attr("", local, r.value);
      r
  }
}
