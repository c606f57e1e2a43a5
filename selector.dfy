/**
 * The selector engine: a `Selector` names a tag, a class or both, and
 * selecting walks an `HtmlElement` tree in pre-order, collecting every node
 * that matches into a `Selection`, whose accessors read the matched nodes.
 */
module Selectors {
  import opened Wrappers
  import opened Strings
  import opened Html

  // ---------------------------------------------------------------------------
  // Matching
  // ---------------------------------------------------------------------------

  /** What a selector asks for: the values of its two fields. */
  datatype Criteria = Criteria(tagName: Option<string>, className: Option<string>)

  /**
   * `matches_class`: a class is asked for and the node's `class` attribute,
   * split at whitespace, has a word equal to it. Only a non-empty class
   * without whitespace can match.
   */
  predicate ClassMatches(className: Option<string>, e: HtmlElement)
    ensures ClassMatches(className, e) ==> className.Some? && className.value != [] && NoWhitespace(className.value)
  {
    className.Some? && "class" in e.attributes && className.value in SplitWhitespace(e.attributes["class"])
  }

  /**
   * The test of `select_recursive`: the two tag OPTIONS are equal, or the
   * class matches. A selector without a tag therefore matches every node
   * without a tag.
   */
  predicate IsMatch(c: Criteria, e: HtmlElement)
    ensures c.tagName == e.tagName ==> IsMatch(c, e)
    ensures c.className.None? ==> (IsMatch(c, e) <==> c.tagName == e.tagName)
  {
    c.tagName == e.tagName || ClassMatches(c.className, e)
  }

  /** The matches of the tree under `e`: `e` itself when it matches, then each child's matches in order. */
  function Matches(c: Criteria, e: HtmlElement): (r: seq<HtmlElement>)
    ensures forall x :: x in r ==> IsMatch(c, x)
    ensures IsMatch(c, e) ==> r != [] && r[0] == e
    decreases e, 1
  {
    (if IsMatch(c, e) then [e] else []) + MatchesAll(c, e.children)
  }

  /** The matches of the trees under `es`, one tree after another. */
  function MatchesAll(c: Criteria, es: seq<HtmlElement>): (r: seq<HtmlElement>)
    ensures forall x :: x in r ==> IsMatch(c, x)
    decreases es, 0
  {
    if es == [] then [] else MatchesAll(c, es[..|es| - 1]) + Matches(c, es[|es| - 1])
  }

  // ---------------------------------------------------------------------------
  // The selector object
  // ---------------------------------------------------------------------------

  class Selector {
    var tagName: Option<string>
    var className: Option<string>

    /** `Selector::new`: asks for nothing yet. */
    constructor ()
      ensures tagName == None && className == None
    {
      tagName := None;
      className := None;
    }

    /** What this selector asks for now. */
    function Wanted(): Criteria
      reads this
    {
      Criteria(tagName, className)
    }

    /** `from_tag_name`: sets the tag and leaves the class as it was. */
    method FromTagName(name: string)
      modifies this
      ensures tagName == Some(name) && className == old(className)
    {
      tagName := Some(name);
    }

    /** `from_class_name`: sets the class and leaves the tag as it was. */
    method FromClassName(name: string)
      modifies this
      ensures className == Some(name) && tagName == old(tagName)
    {
      className := Some(name);
    }

    /**
     * `select_recursive`: pushes `element` when it matches, then recurses
     * into each child in order, all onto the same accumulator.
     */
    method SelectRecursive(element: HtmlElement, selected: seq<HtmlElement>) returns (result: seq<HtmlElement>)
      ensures result == selected + Matches(Wanted(), element)
      decreases element
    {
      var c := Wanted();
      result := selected;
      if tagName == element.tagName || ClassMatches(className, element) {
        result := result + [element];
      }
      MatchesUnfold(c, element, selected, result);
      var before := result;
      for i := 0 to |element.children|
        invariant result == before + MatchesAll(c, element.children[..i])
      {
        var next := SelectRecursive(element.children[i], result);
        MatchesAllStep(c, element.children, i, before, result, next);
        result := next;
      }
      assert element.children[..|element.children|] == element.children;
    }

    /** `select`: every match, in pre-order. */
    method Select(element: HtmlElement) returns (selection: Selection)
      ensures selection.elements == Matches(Wanted(), element)
    {
      var selected := SelectRecursive(element, []);
      selection := Selection(selected);
    }

    /** `select_first`: the first match in pre-order, if there is one. */
    method SelectFirst(element: HtmlElement) returns (first: Option<HtmlElement>)
      ensures var all := Matches(Wanted(), element);
        if all == [] then first == None else first == Some(all[0])
    {
      var selected := SelectRecursive(element, []);
      first := if selected == [] then None else Some(selected[0]);
    }
  }

  /** `select_by_tag_name!`: a fresh selector that asks for the tag only. */
  method SelectByTagName(element: HtmlElement, name: string) returns (selection: Selection)
    ensures selection.elements == Matches(Criteria(Some(name), None), element)
  {
    var selector := new Selector();
    selector.FromTagName(name);
    selection := selector.Select(element);
  }

  /** `select_by_class!`: a fresh selector that asks for the class only. */
  method SelectByClass(element: HtmlElement, name: string) returns (selection: Selection)
    ensures selection.elements == Matches(Criteria(None, Some(name)), element)
  {
    var selector := new Selector();
    selector.FromClassName(name);
    selection := selector.Select(element);
  }

  // ---------------------------------------------------------------------------
  // Selections
  // ---------------------------------------------------------------------------

  /** The matched nodes, in selection order. */
  datatype Selection = Selection(elements: seq<HtmlElement>)
  {
    /** `text`: the texts of the matched nodes joined by single spaces. */
    function Text(): (r: string)
      ensures elements == [] ==> r == []
      ensures elements != [] ==> |r| == Lengths(Texts(elements)) + |elements| - 1
    {
      Join(Texts(elements), " ")
    }

    /** `tag_name`: the first tag among the matched nodes. */
    function TagName(): (r: Option<string>)
      ensures r.None? <==> forall i :: 0 <= i < |elements| ==> elements[i].tagName.None?
      ensures r.Some? ==> exists i :: 0 <= i < |elements| && elements[i].tagName == r
    {
      FirstTag(elements)
    }

    /** `len`: the number of matched nodes. */
    function Len(): (r: nat)
      ensures r == 0 <==> elements == []
    {
      |elements|
    }

    /** `class`: the first `class` attribute among the matched nodes. */
    function Class(): (r: Option<string>)
      ensures r.None? <==> forall i :: 0 <= i < |elements| ==> "class" !in elements[i].attributes
      ensures r.Some? ==> exists i :: 0 <= i < |elements| && "class" in elements[i].attributes && elements[i].attributes["class"] == r.value
    {
      FirstAttribute(elements, "class")
    }

    /** `id`: the first `id` attribute among the matched nodes. */
    function Id(): (r: Option<string>)
      ensures r.None? <==> forall i :: 0 <= i < |elements| ==> "id" !in elements[i].attributes
      ensures r.Some? ==> exists i :: 0 <= i < |elements| && "id" in elements[i].attributes && elements[i].attributes["id"] == r.value
    {
      FirstAttribute(elements, "id")
    }

    /** `href`: the first `href` attribute among the matched nodes. */
    function Href(): (r: Option<string>)
      ensures r.None? <==> forall i :: 0 <= i < |elements| ==> "href" !in elements[i].attributes
      ensures r.Some? ==> exists i :: 0 <= i < |elements| && "href" in elements[i].attributes && elements[i].attributes["href"] == r.value
    {
      FirstAttribute(elements, "href")
    }

    /** `src`: the first `src` attribute among the matched nodes. */
    function Src(): (r: Option<string>)
      ensures r.None? <==> forall i :: 0 <= i < |elements| ==> "src" !in elements[i].attributes
      ensures r.Some? ==> exists i :: 0 <= i < |elements| && "src" in elements[i].attributes && elements[i].attributes["src"] == r.value
    {
      FirstAttribute(elements, "src")
    }
  }

  /** The texts of `es`, in order. */
  function Texts(es: seq<HtmlElement>): (texts: seq<string>)
    ensures |texts| == |es| && forall i :: 0 <= i < |es| ==> texts[i] == es[i].text
  {
    seq(|es|, i requires 0 <= i < |es| => es[i].text)
  }

  /** The first tag of a node that has one (`filter_map` then `next`). */
  function FirstTag(es: seq<HtmlElement>): (r: Option<string>)
    ensures r.None? <==> forall i :: 0 <= i < |es| ==> es[i].tagName.None?
    ensures r.Some? ==> exists i :: 0 <= i < |es| && es[i].tagName == r
    decreases |es|
  {
    if es == [] then None
    else if es[0].tagName.Some? then es[0].tagName
    else
      assert forall i :: 1 <= i < |es| ==> es[i] == es[1..][i - 1];
      FirstTag(es[1..])
  }

  /** The value of attribute `name` on the first node that has it. */
  function FirstAttribute(es: seq<HtmlElement>, name: string): (r: Option<string>)
    ensures r.None? <==> forall i :: 0 <= i < |es| ==> name !in es[i].attributes
    ensures r.Some? ==> exists i :: 0 <= i < |es| && name in es[i].attributes && es[i].attributes[name] == r.value
    decreases |es|
  {
    if es == [] then None
    else if name in es[0].attributes then Some(es[0].attributes[name])
    else
      assert forall i :: 1 <= i < |es| ==> es[i] == es[1..][i - 1];
      FirstAttribute(es[1..], name)
  }

  // ---------------------------------------------------------------------------
  // Unfolding lemmas used by the methods
  // ---------------------------------------------------------------------------

  /** A node's matches: its own, then those under its children. */
  lemma MatchesUnfold(c: Criteria, e: HtmlElement, selected: seq<HtmlElement>, before: seq<HtmlElement>)
    requires before == selected + if IsMatch(c, e) then [e] else []
    ensures selected + Matches(c, e) == before + MatchesAll(c, e.children)
  {
  }

  /** One more tree: the matches so far, then the matches under it. */
  lemma MatchesAllSnoc(c: Criteria, es: seq<HtmlElement>, i: nat)
    requires i < |es|
    ensures MatchesAll(c, es[..i + 1]) == MatchesAll(c, es[..i]) + Matches(c, es[i])
  {
    assert es[..i + 1][..i] == es[..i];
  }

  /** One turn of the loop over the children carries the accumulator invariant. */
  lemma MatchesAllStep(c: Criteria, es: seq<HtmlElement>, i: nat, before: seq<HtmlElement>, result: seq<HtmlElement>, next: seq<HtmlElement>)
    requires i < |es| && result == before + MatchesAll(c, es[..i])
    requires next == result + Matches(c, es[i])
    ensures next == before + MatchesAll(c, es[..i + 1])
  {
    MatchesAllSnoc(c, es, i);
  }

  // ---------------------------------------------------------------------------
  // Reference: the matching nodes of the tree, in pre-order
  // ---------------------------------------------------------------------------

  /** Every node of the tree under `e`, in pre-order: the node, then each child's tree in order. */
  function Nodes(e: HtmlElement): seq<HtmlElement>
    decreases e, 1
  {
    [e] + NodesAll(e.children)
  }

  /** The nodes of the trees under `es`, one tree after another. */
  function NodesAll(es: seq<HtmlElement>): seq<HtmlElement>
    decreases es, 0
  {
    if es == [] then [] else NodesAll(es[..|es| - 1]) + Nodes(es[|es| - 1])
  }

  /** The nodes of `es` that `c` matches, in order. */
  function Filter(c: Criteria, es: seq<HtmlElement>): seq<HtmlElement>
    decreases |es|
  {
    if es == [] then []
    else
      var last := es[|es| - 1];
      Filter(c, es[..|es| - 1]) + if IsMatch(c, last) then [last] else []
  }

  /** Filtering distributes over concatenation. */
  lemma {:induction false} FilterAppend(c: Criteria, a: seq<HtmlElement>, b: seq<HtmlElement>)
    ensures Filter(c, a + b) == Filter(c, a) + Filter(c, b)
    decreases |b|
  {
    if b == [] {
      assert a + b == a;
    } else {
      var n := |b| - 1;
      assert (a + b)[..|a + b| - 1] == a + b[..n];
      FilterAppend(c, a, b[..n]);
    }
  }

  /** A node survives filtering exactly when it is there and matches. */
  lemma {:induction false} FilterMembers(c: Criteria, es: seq<HtmlElement>, x: HtmlElement)
    ensures x in Filter(c, es) <==> x in es && IsMatch(c, x)
    decreases |es|
  {
    if es != [] {
      var n := |es| - 1;
      FilterMembers(c, es[..n], x);
      assert es == es[..n] + [es[n]];
    }
  }

  /** Selecting yields exactly the matching nodes of the tree, in pre-order. */
  lemma {:induction false} MatchesAreFilteredNodes(c: Criteria, e: HtmlElement)
    ensures Matches(c, e) == Filter(c, Nodes(e))
    decreases e, 1
  {
    MatchesAllAreFilteredNodes(c, e.children);
    FilterAppend(c, [e], NodesAll(e.children));
    assert [e][..0] == [];
  }

  /** The same for a sequence of trees. */
  lemma {:induction false} MatchesAllAreFilteredNodes(c: Criteria, es: seq<HtmlElement>)
    ensures MatchesAll(c, es) == Filter(c, NodesAll(es))
    decreases es, 0
  {
    if es != [] {
      var n := |es| - 1;
      MatchesAllAreFilteredNodes(c, es[..n]);
      MatchesAreFilteredNodes(c, es[n]);
      FilterAppend(c, NodesAll(es[..n]), Nodes(es[n]));
    }
  }

  /** The matches under consecutive trees are those under the first group, then the second. */
  lemma {:induction false} MatchesAllAppend(c: Criteria, a: seq<HtmlElement>, b: seq<HtmlElement>)
    ensures MatchesAll(c, a + b) == MatchesAll(c, a) + MatchesAll(c, b)
    decreases |b|
  {
    if b == [] {
      assert a + b == a;
    } else {
      var n := |b| - 1;
      assert (a + b)[..|a + b| - 1] == a + b[..n];
      MatchesAllAppend(c, a, b[..n]);
    }
  }

  /**
   * Pre-order, child by child: a node's own match comes first, then the
   * matches under the children to the left of child `i`, then those under
   * child `i` itself (searched whether or not the node matched), then those
   * under the children to its right.
   */
  lemma ChildMatchesInPlace(c: Criteria, e: HtmlElement, i: nat)
    requires i < |e.children|
    ensures Matches(c, e) == (if IsMatch(c, e) then [e] else [])
      + MatchesAll(c, e.children[..i]) + Matches(c, e.children[i]) + MatchesAll(c, e.children[i + 1..])
  {
    var cs := e.children;
    assert cs == cs[..i] + [cs[i]] + cs[i + 1..];
    MatchesAllAppend(c, cs[..i] + [cs[i]], cs[i + 1..]);
    MatchesAllAppend(c, cs[..i], [cs[i]]);
    assert [cs[i]][..0] == [];
  }

  /** A node is selected exactly when it is in the tree and matches. */
  lemma SelectedIffMatchingNode(c: Criteria, e: HtmlElement, x: HtmlElement)
    ensures x in Matches(c, e) <==> x in Nodes(e) && IsMatch(c, x)
  {
    MatchesAreFilteredNodes(c, e);
    FilterMembers(c, Nodes(e), x);
  }

  /** Every one of the trees is part of their nodes. */
  lemma {:induction false} TreeInNodesAll(es: seq<HtmlElement>, i: nat)
    requires i < |es|
    ensures es[i] in NodesAll(es)
    decreases |es|
  {
    var n := |es| - 1;
    if i < n {
      TreeInNodesAll(es[..n], i);
    } else {
      assert Nodes(es[n])[0] == es[n];
    }
  }

  // ---------------------------------------------------------------------------
  // When a node matches
  // ---------------------------------------------------------------------------

  /** A tag-only selector matches exactly the nodes with that tag. */
  lemma TagSelectorMatches(name: string, e: HtmlElement)
    ensures IsMatch(Criteria(Some(name), None), e) <==> e.tagName == Some(name)
  {
  }

  /**
   * A class-only selector matches the nodes with that class, and also every
   * node without a tag, since its missing tag equals the node's.
   */
  lemma ClassSelectorMatches(name: string, e: HtmlElement)
    ensures IsMatch(Criteria(None, Some(name)), e) <==> e.tagName == None || ClassMatches(Some(name), e)
  {
  }

  /**
   * Selecting by class in a converted document always yields the document
   * root first, and every text node directly under the document too.
   */
  lemma ClassSelectionOfDocument(children: seq<DomNode>, name: string, i: nat)
    requires i < |children| && children[i].Text?
    ensures var root := Convert(Document(children));
      var selected := Matches(Criteria(None, Some(name)), root);
      selected != [] && selected[0] == root && Convert(children[i]) in selected
  {
    var root := Convert(Document(children));
    var c := Criteria(None, Some(name));
    assert root.children[i] == Convert(children[i]);
    TreeInNodesAll(root.children, i);
    SelectedIffMatchingNode(c, root, Convert(children[i]));
  }

  /** A class attribute made of words joined by spaces matches exactly those words. */
  lemma ClassOfWords(e: HtmlElement, words: seq<string>, w: string)
    requires forall i :: 0 <= i < |words| ==> words[i] != [] && NoWhitespace(words[i])
    requires "class" in e.attributes && e.attributes["class"] == Join(words, " ")
    ensures ClassMatches(Some(w), e) <==> w in words
  {
    SplitJoinRoundTrip(words);
  }

  /** Classes are compared word by word: `test testing` has the class `test` but not `tes`. */
  lemma ClassWordsNotPrefixes(e: HtmlElement)
    requires "class" in e.attributes && e.attributes["class"] == "test testing"
    ensures ClassMatches(Some("test"), e) && ClassMatches(Some("testing"), e)
    ensures !ClassMatches(Some("tes"), e)
  {
    var words := ["test", "testing"];
    assert Join(words, " ") == "test testing" by {
      assert Join(words[1..], " ") == "testing";
    }
    ClassOfWords(e, words, "test");
    ClassOfWords(e, words, "testing");
    ClassOfWords(e, words, "tes");
  }

  // ---------------------------------------------------------------------------
  // Selection accessors
  // ---------------------------------------------------------------------------

  /** An empty selection has empty text; a single match gives its own text. */
  lemma TextOfFew(e: HtmlElement)
    ensures Selection([]).Text() == []
    ensures Selection([e]).Text() == e.text
  {
  }

  /** One more match appends a space and its text. */
  lemma TextSnoc(es: seq<HtmlElement>, e: HtmlElement)
    requires es != []
    ensures Selection(es + [e]).Text() == Selection(es).Text() + " " + e.text
  {
    assert Texts(es + [e]) == Texts(es) + [e.text];
    JoinSnoc(Texts(es), e.text, " ");
  }

  /** `len` of a selection counts the matching nodes of the tree. */
  lemma LenCountsMatchingNodes(c: Criteria, e: HtmlElement)
    ensures Selection(Matches(c, e)).Len() == |Filter(c, Nodes(e))|
  {
    MatchesAreFilteredNodes(c, e);
  }

  /** The attribute accessors return the value on the first match that has the attribute. */
  lemma {:induction false} FirstAttributeAt(es: seq<HtmlElement>, name: string, i: nat)
    requires i < |es| && name in es[i].attributes
    requires forall j :: 0 <= j < i ==> name !in es[j].attributes
    ensures FirstAttribute(es, name) == Some(es[i].attributes[name])
    decreases i
  {
    if i > 0 {
      FirstAttributeAt(es[1..], name, i - 1);
    }
  }

  /** `tag_name` returns the tag of the first match that has one. */
  lemma {:induction false} FirstTagAt(es: seq<HtmlElement>, i: nat)
    requires i < |es| && es[i].tagName.Some?
    requires forall j :: 0 <= j < i ==> es[j].tagName.None?
    ensures FirstTag(es) == es[i].tagName
    decreases i
  {
    if i > 0 {
      FirstTagAt(es[1..], i - 1);
    }
  }

  // ---------------------------------------------------------------------------
  // Small trees
  // ---------------------------------------------------------------------------

  /** A leaf node with a tag, a text and attributes. */
  function Leaf(name: string, text: string, attributes: map<string, string>): HtmlElement {
    HtmlElement(Some(name), text, [], attributes)
  }

  /** The matches in a parent with two leaf children: the parent's own match, then the children's. */
  lemma TwoLeaves(c: Criteria, parent: HtmlElement, first: HtmlElement, second: HtmlElement)
    requires parent.children == [first, second] && first.children == [] && second.children == []
    ensures Matches(c, parent) == (if IsMatch(c, parent) then [parent] else [])
      + (if IsMatch(c, first) then [first] else []) + (if IsMatch(c, second) then [second] else [])
  {
    assert parent.children[..1] == [first] && [first][..0] == [];
    assert Matches(c, first) == if IsMatch(c, first) then [first] else [];
    assert Matches(c, second) == if IsMatch(c, second) then [second] else [];
    assert MatchesAll(c, [first]) == Matches(c, first);
  }

  /** Selecting `span` under a `div` with two `span` children selects both, in order. */
  lemma SpansUnderDiv(firstText: string, secondText: string, a: map<string, string>, b: map<string, string>)
    ensures var first, second := Leaf("span", firstText, a), Leaf("span", secondText, b);
      var s := Selection(Matches(Criteria(Some("span"), None), HtmlElement(Some("div"), "", [first, second], map[])));
      s.elements == [first, second] && s.Len() == 2 && s.Text() == firstText + " " + secondText
  {
    var first, second := Leaf("span", firstText, a), Leaf("span", secondText, b);
    var root := HtmlElement(Some("div"), "", [first, second], map[]);
    var c := Criteria(Some("span"), None);
    TwoLeaves(c, root, first, second);
    TextSnoc([first], second);
  }

  /**
   * `href` skips matches without the attribute: an `a` holding an `a` with
   * an `href` yields that child's link although the outer `a` comes first.
   */
  lemma HrefOfNestedLink(url: string, text: string)
    ensures var inner := Leaf("a", text, map["href" := url]);
      var outer := HtmlElement(Some("a"), "", [inner], map[]);
      var s := Selection(Matches(Criteria(Some("a"), None), outer));
      s.elements == [outer, inner] && s.Href() == Some(url) && s.Id() == None
  {
    var inner := Leaf("a", text, map["href" := url]);
    var outer := HtmlElement(Some("a"), "", [inner], map[]);
    NestedLinkMatches(outer, inner);
    FirstAttributeAt([outer, inner], "href", 1);
    assert FirstAttribute([inner], "id") == None;
  }

  /** Selecting `a` in an `a` that holds a leaf `a` gives the outer link, then the inner one. */
  lemma NestedLinkMatches(outer: HtmlElement, inner: HtmlElement)
    requires outer.tagName == Some("a") && outer.children == [inner]
    requires inner.tagName == Some("a") && inner.children == []
    ensures Matches(Criteria(Some("a"), None), outer) == [outer, inner]
  {
    var c := Criteria(Some("a"), None);
    assert outer.children[..0] == [];
    assert Matches(c, inner) == [inner];
    assert MatchesAll(c, [inner]) == [inner];
  }
}
