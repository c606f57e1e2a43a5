/**
 * `HtmlElement::from_dom`: the conversion of the document tree the HTML5
 * parser builds into the simplified `HtmlElement` tree the selectors walk.
 * The parser itself is not modelled; its output is the `DomNode` datatype.
 */
module Html {
  import opened Wrappers
  import opened Strings

  /** The node kinds `from_dom` distinguishes; every other kind is `Other`. */
  datatype DomNode =
    | Document(children: seq<DomNode>)
    | Element(name: string, attrs: seq<(string, string)>, children: seq<DomNode>)
    | Text(contents: string)
    | Other

  /** A converted node: a tag for elements only, the folded text, the kept children, the attributes. */
  datatype HtmlElement = HtmlElement(
    tagName: Option<string>,
    text: string,
    children: seq<HtmlElement>,
    attributes: map<string, string>)

  // ---------------------------------------------------------------------------
  // Specification
  // ---------------------------------------------------------------------------

  /**
   * The conversion of one node, children first. Only elements convert with a
   * tag, and it is their local name; only documents and elements have
   * children; only elements have attributes; a text node keeps its contents
   * verbatim and every other leaf has no text.
   */
  function Convert(node: DomNode): (r: HtmlElement)
    ensures r.tagName.Some? <==> node.Element?
    ensures node.Element? ==> r.tagName == Some(node.name)
    ensures !node.Element? ==> r.attributes == map[]
    ensures node.Text? || node.Other? ==> r.children == []
    ensures node.Text? ==> r.text == node.contents
    ensures node.Document? || node.Other? ==> r.text == []
    decreases node
  {
    match node
    case Document(children) =>
      HtmlElement(None, "", seq(|children|, i requires 0 <= i < |children| => Convert(children[i])), map[])
    case Element(name, attrs, children) =>
      var converted := seq(|children|, i requires 0 <= i < |children| => Convert(children[i]));
      HtmlElement(Some(name), TaglessText(converted), Tagged(converted), ToMap(attrs))
    case Text(contents) => HtmlElement(None, contents, [], map[])
    case Other => HtmlElement(None, "", [], map[])
  }

  /** The conversions of `nodes`, in order. */
  function ConvertAll(nodes: seq<DomNode>): (r: seq<HtmlElement>)
    ensures |r| == |nodes| && forall i :: 0 <= i < |nodes| ==> r[i] == Convert(nodes[i])
  {
    seq(|nodes|, i requires 0 <= i < |nodes| => Convert(nodes[i]))
  }

  /** The converted children an element keeps: those with a tag, in order. */
  function Tagged(es: seq<HtmlElement>): seq<HtmlElement>
    decreases |es|
  {
    if es == [] then []
    else
      var last := es[|es| - 1];
      Tagged(es[..|es| - 1]) + if last.tagName.Some? then [last] else []
  }

  /** The texts of the tag-less converted children, concatenated with no separator. */
  function TaglessText(es: seq<HtmlElement>): string
    decreases |es|
  {
    if es == [] then []
    else
      var last := es[|es| - 1];
      TaglessText(es[..|es| - 1]) + if last.tagName.None? then last.text else []
  }

  // ---------------------------------------------------------------------------
  // The conversion as the source performs it
  // ---------------------------------------------------------------------------

  /**
   * `from_dom`: a document converts every child; an element walks its
   * children once, folding the text of each tag-less conversion into its own
   * text and pushing each tagged one onto its children.
   */
  method FromDom(node: DomNode) returns (e: HtmlElement)
    ensures e == Convert(node)
    decreases node
  {
    match node
    case Document(children) =>
      var converted: seq<HtmlElement> := [];
      for i := 0 to |children|
        invariant converted == ConvertAll(children[..i])
      {
        var child := FromDom(children[i]);
        converted := converted + [child];
        assert children[..i + 1][..i] == children[..i];
      }
      assert children[..|children|] == children;
      e := HtmlElement(None, "", converted, map[]);
    case Element(name, attrs, children) =>
      var kept: seq<HtmlElement> := [];
      var text: string := "";
      for i := 0 to |children|
        invariant kept == Tagged(ConvertAll(children[..i]))
        invariant text == TaglessText(ConvertAll(children[..i]))
      {
        var child := FromDom(children[i]);
        ConvertAllSnoc(children, i);
        if child.tagName.None? {
          text := text + child.text;
        } else {
          kept := kept + [child];
        }
      }
      assert children[..|children|] == children;
      e := HtmlElement(Some(name), text, kept, ToMap(attrs));
    case Text(contents) =>
      e := HtmlElement(None, contents, [], map[]);
    case Other =>
      e := HtmlElement(None, "", [], map[]);
  }

  /** One more child converted: the conversions so far, then its own. */
  lemma ConvertAllSnoc(children: seq<DomNode>, i: nat)
    requires i < |children|
    ensures ConvertAll(children[..i + 1]) == ConvertAll(children[..i]) + [Convert(children[i])]
    ensures ConvertAll(children[..i + 1])[..i] == ConvertAll(children[..i])
  {
    assert children[..i + 1][..i] == children[..i];
  }

  // ---------------------------------------------------------------------------
  // Properties
  // ---------------------------------------------------------------------------

  /** The contents of the text nodes among `nodes`, concatenated in order. */
  function DirectText(nodes: seq<DomNode>): string
    decreases |nodes|
  {
    if nodes == [] then []
    else
      var last := nodes[|nodes| - 1];
      DirectText(nodes[..|nodes| - 1]) + if last.Text? then last.contents else []
  }

  /** The element nodes among `nodes`, in order. */
  function ElementsOf(nodes: seq<DomNode>): seq<DomNode>
    decreases |nodes|
  {
    if nodes == [] then []
    else
      var last := nodes[|nodes| - 1];
      ElementsOf(nodes[..|nodes| - 1]) + if last.Element? then [last] else []
  }

  /** A document keeps one converted child per child, in order, tag-less ones included. */
  lemma DocumentChildren(children: seq<DomNode>)
    ensures Convert(Document(children)).children == ConvertAll(children)
    ensures |Convert(Document(children)).children| == |children|
  {
  }

  /** The conversions of the first `n` nodes are the first `n` conversions. */
  lemma ConvertAllPrefix(nodes: seq<DomNode>, n: nat)
    requires n <= |nodes|
    ensures ConvertAll(nodes)[..n] == ConvertAll(nodes[..n])
  {
  }

  /** The text folded from the conversions is the text of the text nodes. */
  lemma {:induction false} TaglessTextOfConverted(nodes: seq<DomNode>)
    ensures TaglessText(ConvertAll(nodes)) == DirectText(nodes)
    decreases |nodes|
  {
    if nodes != [] {
      var n := |nodes| - 1;
      ConvertAllPrefix(nodes, n);
      TaglessTextOfConverted(nodes[..n]);
    }
  }

  /** The tagged conversions are the conversions of the element nodes. */
  lemma {:induction false} TaggedOfConverted(nodes: seq<DomNode>)
    ensures Tagged(ConvertAll(nodes)) == ConvertAll(ElementsOf(nodes))
    decreases |nodes|
  {
    if nodes != [] {
      var n := |nodes| - 1;
      ConvertAllPrefix(nodes, n);
      TaggedOfConverted(nodes[..n]);
      var init := ElementsOf(nodes[..n]);
      if nodes[n].Element? {
        assert ConvertAll(init + [nodes[n]]) == ConvertAll(init) + [Convert(nodes[n])];
      } else {
        assert ConvertAll(init) + [] == ConvertAll(init);
      }
    }
  }

  /**
   * An element's text is the contents of its text children joined with no
   * separator; the text inside its element children is not part of it.
   */
  lemma ElementText(name: string, attrs: seq<(string, string)>, children: seq<DomNode>)
    ensures Convert(Element(name, attrs, children)).text == DirectText(children)
  {
    TaglessTextOfConverted(children);
  }

  /** An element keeps exactly the conversions of its element children, in order. */
  lemma ElementChildren(name: string, attrs: seq<(string, string)>, children: seq<DomNode>)
    ensures Convert(Element(name, attrs, children)).children == ConvertAll(ElementsOf(children))
  {
    TaggedOfConverted(children);
  }

  /** Every child an element keeps has a tag. */
  lemma {:induction false} TaggedHaveTags(es: seq<HtmlElement>)
    ensures forall k :: 0 <= k < |Tagged(es)| ==> Tagged(es)[k].tagName.Some?
    decreases |es|
  {
    if es != [] {
      TaggedHaveTags(es[..|es| - 1]);
    }
  }

  /** Tag-less conversions are never kept, and tagged ones always are: the two counts add up. */
  lemma {:induction false} TaggedCount(es: seq<HtmlElement>)
    ensures |Tagged(es)| == |es| - |TaglessOf(es)|
    decreases |es|
  {
    if es != [] {
      TaggedCount(es[..|es| - 1]);
    }
  }

  /** The tag-less elements among `es`, in order. */
  function TaglessOf(es: seq<HtmlElement>): seq<HtmlElement>
    decreases |es|
  {
    if es == [] then []
    else
      var last := es[|es| - 1];
      TaglessOf(es[..|es| - 1]) + if last.tagName.None? then [last] else []
  }

  /**
   * An element's attributes hold a name exactly when one of its attribute
   * pairs has it, with the value of the last such pair.
   */
  lemma ElementAttributes(name: string, attrs: seq<(string, string)>, children: seq<DomNode>, k: string)
    ensures var a := Convert(Element(name, attrs, children)).attributes;
      k in a <==> exists i :: 0 <= i < |attrs| && attrs[i].0 == k
    ensures forall i :: 0 <= i < |attrs| && (forall j :: i < j < |attrs| ==> attrs[j].0 != attrs[i].0) ==>
      attrs[i].0 in Convert(Element(name, attrs, children)).attributes
      && Convert(Element(name, attrs, children)).attributes[attrs[i].0] == attrs[i].1
  {
    ToMapKeys(attrs, k);
    forall i | 0 <= i < |attrs| && (forall j :: i < j < |attrs| ==> attrs[j].0 != attrs[i].0)
      ensures attrs[i].0 in ToMap(attrs) && ToMap(attrs)[attrs[i].0] == attrs[i].1
    {
      ToMapLastWins(attrs, i);
    }
  }

  /**
   * An element child between two text nodes (the layout of indented markup):
   * the two texts join into the parent's text and the element is its only child.
   */
  lemma ElementBetweenTexts(name: string, attrs: seq<(string, string)>, before: string, child: DomNode, after: string)
    requires child.Element?
    ensures var e := Convert(Element(name, attrs, [Text(before), child, Text(after)]));
      e.tagName == Some(name) && e.text == before + after && e.children == [Convert(child)]
  {
    var children := [Text(before), child, Text(after)];
    ElementText(name, attrs, children);
    ElementChildren(name, attrs, children);
    var first, two := [Text(before)], [Text(before), child];
    assert children[..2] == two && two[..1] == first && first[..0] == [];
    assert DirectText(first) == before;
    assert DirectText(two) == before;
    assert DirectText(children) == before + after;
    assert ElementsOf(first) == [];
    assert ElementsOf(two) == [child];
    assert ElementsOf(children) == [child];
    assert ConvertAll([child]) == [Convert(child)];
  }
}
