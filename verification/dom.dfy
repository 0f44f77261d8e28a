/**
 * An abstract element tree standing for the parts of QDomDocument the
 * catalog reads and writes: elements with a tag, an optional namespace,
 * attributes and children; text nodes; processing instructions. The XML
 * text layer (parsing, escaping, indentation) is outside the model.
 */
module Dom {
  import opened Wrappers

  datatype Attr = Attr(name: string, value: string)

  datatype Node =
    | Element(tag: string, ns: string, attrs: seq<Attr>, kids: seq<Node>)
    | Text(data: string)
    | Instruction(target: string, data: string)

  /** A document is its sequence of top-level nodes; the empty sequence is the empty document. */
  type Document = seq<Node>

  /** QDomDocument::documentElement: the first top-level element. */
  function DocumentElement(doc: Document): (r: Option<Node>)
    ensures r.Some? ==> r.value.Element? && r.value in doc
    ensures r.Some? ==> exists i :: 0 <= i < |doc| && doc[i] == r.value && forall j :: 0 <= j < i ==> !doc[j].Element?
    ensures r.None? <==> forall i :: 0 <= i < |doc| ==> !doc[i].Element?
  {
    if doc == [] then None
    else if doc[0].Element? then Some(doc[0])
    else
      var r := DocumentElement(doc[1..]);
      assert forall i :: 1 <= i < |doc| ==> doc[i] == doc[1..][i - 1];
      r
  }

  /** QDomElement::attribute(name, default): the value of the named attribute, or the default when there is none. */
  function AttrOf(attrs: seq<Attr>, name: string, default: string): (r: string)
    ensures (forall i :: 0 <= i < |attrs| ==> attrs[i].name != name) ==> r == default
    ensures |attrs| > 0 && attrs[0].name == name ==> r == attrs[0].value
  {
    if attrs == [] then default
    else if attrs[0].name == name then attrs[0].value
    else
      var r := AttrOf(attrs[1..], name, default);
      assert forall i :: 1 <= i < |attrs| ==> attrs[i] == attrs[1..][i - 1];
      r
  }

  /** The attribute of an element, or the default for a null element (Option None) or a non-element. */
  function Attribute(e: Option<Node>, name: string, default: string): string
  {
    if e.Some? && e.value.Element? then AttrOf(e.value.attrs, name, default) else default
  }

  /** QDomNode::text for an element: the concatenated data of all descendant text nodes. */
  function TextOf(ns: seq<Node>): string
    decreases ns
  {
    if ns == [] then ""
    else
      var head := match ns[0]
        case Text(d) => d
        case Element(_, _, _, kids) => TextOf(kids)
        case Instruction(_, _) => "";
      head + TextOf(ns[1..])
  }

  /** The text of a possibly null element; the null element has empty text. */
  function TextContent(e: Option<Node>): string
  {
    if e.Some? && e.value.Element? then TextOf(e.value.kids) else ""
  }

  /** QDomElement::elementsByTagName over the children: every descendant element with that tag, in pre-order. */
  function ElementsByTag(ns: seq<Node>, tag: string): (r: seq<Node>)
    ensures forall i :: 0 <= i < |r| ==> r[i].Element? && r[i].tag == tag
    decreases ns
  {
    if ns == [] then []
    else
      var head := match ns[0]
        case Element(t, _, _, kids) => (if t == tag then [ns[0]] else []) + ElementsByTag(kids, tag)
        case _ => [];
      head + ElementsByTag(ns[1..], tag)
  }

  /** QDomNode::firstChildElement(tag): the first child element with that tag. */
  function FirstChild(ns: seq<Node>, tag: string): (r: Option<Node>)
    ensures r.Some? ==> r.value in ns && r.value.Element? && r.value.tag == tag
    ensures r.Some? ==> exists i :: 0 <= i < |ns| && ns[i] == r.value && forall j :: 0 <= j < i ==> !(ns[j].Element? && ns[j].tag == tag)
    ensures r.None? <==> forall i :: 0 <= i < |ns| ==> !(ns[i].Element? && ns[i].tag == tag)
  {
    if ns == [] then None
    else if ns[0].Element? && ns[0].tag == tag then Some(ns[0])
    else
      var r := FirstChild(ns[1..], tag);
      assert forall i :: 1 <= i < |ns| ==> ns[i] == ns[1..][i - 1];
      r
  }

  /** firstChildElement on a possibly null element. */
  function FirstChildElement(e: Option<Node>, tag: string): (r: Option<Node>)
    ensures r.Some? ==> r.value.Element? && r.value.tag == tag
  {
    if e.Some? && e.value.Element? then FirstChild(e.value.kids, tag) else None
  }

  /** The child elements with that tag, in sibling order: firstChildElement followed by nextSiblingElement. */
  function ChildElements(ns: seq<Node>, tag: string): (r: seq<Node>)
    ensures forall i :: 0 <= i < |r| ==> r[i].Element? && r[i].tag == tag
    ensures |r| == 0 <==> FirstChild(ns, tag).None?
    ensures |r| > 0 ==> r[0] == FirstChild(ns, tag).value
  {
    if ns == [] then []
    else if ns[0].Element? && ns[0].tag == tag then [ns[0]] + ChildElements(ns[1..], tag)
    else ChildElements(ns[1..], tag)
  }

  /** The children of a possibly null element. */
  function KidsOf(e: Option<Node>): seq<Node>
  {
    if e.Some? && e.value.Element? then e.value.kids else []
  }

  lemma {:induction false} ElementsByTagAppend(a: seq<Node>, b: seq<Node>, tag: string)
    ensures ElementsByTag(a + b, tag) == ElementsByTag(a, tag) + ElementsByTag(b, tag)
  {
    if a == [] {
      assert a + b == b;
    } else {
      assert (a + b)[0] == a[0];
      assert (a + b)[1..] == a[1..] + b;
      ElementsByTagAppend(a[1..], b, tag);
    }
  }

  /** The sibling walk over two node lists in a row: the elements of the first, then those of the second. */
  lemma {:induction false} ChildElementsAppend(a: seq<Node>, b: seq<Node>, tag: string)
    ensures ChildElements(a + b, tag) == ChildElements(a, tag) + ChildElements(b, tag)
  {
    if a == [] {
      assert a + b == b;
    } else {
      assert (a + b)[0] == a[0];
      assert (a + b)[1..] == a[1..] + b;
      ChildElementsAppend(a[1..], b, tag);
    }
  }

  /** The walk keeps exactly the child elements with the tag: every one of them, in order. */
  lemma {:induction false} ChildElementsExact(ns: seq<Node>, tag: string)
    ensures |ChildElements(ns, tag)| <= |ns|
    ensures (forall i :: 0 <= i < |ns| ==> ns[i].Element? && ns[i].tag == tag) ==> ChildElements(ns, tag) == ns
    ensures (forall i :: 0 <= i < |ns| ==> !(ns[i].Element? && ns[i].tag == tag)) ==> ChildElements(ns, tag) == []
  {
    if ns != [] {
      ChildElementsExact(ns[1..], tag);
      assert forall i :: 1 <= i < |ns| ==> ns[i] == ns[1..][i - 1];
      assert ns == [ns[0]] + ns[1..];
    }
  }

  /** The attribute lookup looks at the first attribute, then at the rest. */
  lemma AttrOfCons(a: Attr, rest: seq<Attr>, name: string, default: string)
    ensures AttrOf([a] + rest, name, default) == if a.name == name then a.value else AttrOf(rest, name, default)
  {
    assert ([a] + rest)[1..] == rest;
  }

  /** One element: itself when it has the tag, then its matching descendants. */
  lemma ElementsByTagOne(e: Node, tag: string)
    requires e.Element?
    ensures ElementsByTag([e], tag) == (if e.tag == tag then [e] else []) + ElementsByTag(e.kids, tag)
  {
    assert [e][1..] == [];
  }

  /** A node list holding one text node: that text. */
  lemma TextOfOne(s: string)
    ensures TextOf([Text(s)]) == s
  {
    assert [Text(s)][1..] == [];
  }

  lemma {:induction false} TextOfAppend(a: seq<Node>, b: seq<Node>)
    ensures TextOf(a + b) == TextOf(a) + TextOf(b)
  {
    if a == [] {
      assert a + b == b;
    } else {
      assert (a + b)[0] == a[0];
      assert (a + b)[1..] == a[1..] + b;
      TextOfAppend(a[1..], b);
    }
  }
}
