/**
 * The scanner on the documents the repository's own tokenizer tests use,
 * derived from the construct-by-construct lemmas of `Parser`.
 */
module ParserExamples {
  import opened Wrappers
  import opened Strings
  import opened Parser

  /** How the first test document is put together. */
  lemma DivWithTextPieces()
    ensures ' ' !in "div" && '>' !in "div" && "div"[0] != '/'
    ensures '<' !in "Hello, World!" && !IsWhitespace('H') && !IsWhitespace('!')
    ensures "<div>Hello, World!</div>" == "<" + "div" + ">" + ("Hello, World!" + ("</" + "div" + ">"))
  {
  }

  /** A paragraph of text inside one element. */
  lemma DivWithText(html: string)
    requires html == "<div>Hello, World!</div>"
    ensures TokensOf(html) == Tokens([StartTag("div", map[]), Text("Hello, World!"), EndTag("div")])
  {
    DivWithTextPieces();
    ElementWithText("div", "Hello, World!");
  }

  /** Words without whitespace joined around `=` and quotes stay free of whitespace. */
  lemma QuotedWord(key: string, v: string)
    requires NoWhitespace(key) && NoWhitespace(v)
    ensures NoWhitespace(key + "=" + ("\"" + v + "\""))
  {
    var w := key + "=" + ("\"" + v + "\"");
    forall i | 0 <= i < |w| ensures !IsWhitespace(w[i]) {
      if i < |key| {
        assert w[i] == key[i];
      } else if |key| + 1 < i < |w| - 1 {
        assert w[i] == v[i - |key| - 2];
      }
    }
  }

  /** A single `key="value"` attribute. */
  lemma QuotedAttribute(key: string, v: string)
    requires '=' !in key && NoWhitespace(key)
    requires v != [] && NoWhitespace(v) && !Accepts(Quote, v[0]) && !Accepts(Quote, v[|v| - 1])
    ensures ParseAttributes(key + "=" + ("\"" + v + "\"")) == map[key := v]
  {
    var attribute := key + "=" + ("\"" + v + "\"");
    QuotedWord(key, v);
    QuotedPair(key, v);
    SingleAttribute(attribute);
  }

  /** A single word that is an attribute pair parses to a one-entry map. */
  lemma SingleAttribute(w: string)
    requires w != [] && NoWhitespace(w) && AttributePair(w).Some?
    ensures ParseAttributes(w) == map[AttributePair(w).value.0 := AttributePair(w).value.1]
  {
    SplitWhitespaceOfWord(w);
    var kv := AttributePair(w).value;
    assert [w][..0] == [];
    assert AttributePairs([w]) == [kv];
    assert ToMap([kv]) == ToMap([])[kv.0 := kv.1];
  }

  /**
   * An element with one double-quoted attribute around a text: the quotes are
   * stripped from the value (the shape of `<a href="https://example.com">Link</a>`).
   */
  lemma ElementWithAttribute(name: string, key: string, v: string, text: string)
    requires ' ' !in name && '>' !in name && (name == [] || name[0] != '/')
    requires '=' !in key && '>' !in key && NoWhitespace(key)
    requires v != [] && '>' !in v && NoWhitespace(v) && !Accepts(Quote, v[0]) && !Accepts(Quote, v[|v| - 1])
    requires text != [] && '<' !in text && !IsWhitespace(text[0]) && !IsWhitespace(text[|text| - 1])
    ensures var attribute := key + "=" + ("\"" + v + "\"");
      TokensOf("<" + (name + " " + attribute) + ">" + (text + ("</" + name + ">")))
      == Tokens([StartTag(name, map[key := v]), Text(text), EndTag(name)])
  {
    var attribute := key + "=" + ("\"" + v + "\"");
    AttributeTag(name, key, v);
    TaggedText(name + " " + attribute, name, text);
  }

  /** The start tag `name key="v"`: its name, one pair, and no `>` anywhere. */
  lemma AttributeTag(name: string, key: string, v: string)
    requires ' ' !in name && '>' !in name && (name == [] || name[0] != '/')
    requires '=' !in key && '>' !in key && NoWhitespace(key)
    requires v != [] && '>' !in v && NoWhitespace(v) && !Accepts(Quote, v[0]) && !Accepts(Quote, v[|v| - 1])
    ensures var contents := name + " " + (key + "=" + ("\"" + v + "\""));
      StartTagOf(contents) == StartTag(name, map[key := v])
      && '>' !in contents && contents[0] != '/'
  {
    var attribute := key + "=" + ("\"" + v + "\"");
    QuotedAttribute(key, v);
    StartTagOfSpec(name, attribute);
    QuotedNoClose(key, v);
    NoCloseInContents(name, attribute);
  }

  /** Anything that ends in `>` leaves no tag open. */
  lemma ClosedTagsEndingInClose(s: string)
    requires s != [] && s[|s| - 1] == '>'
    ensures ClosedTags(s)
  {
    forall p | 0 <= p < |s| && s[p] == '<' ensures '>' in s[p + 1..] {
      assert s[p + 1..][|s| - 1 - (p + 1)] == '>';
    }
  }

  /**
   * One element holding another that holds a text (the shape of
   * `<div><p>Test</p></div>`): five tokens, outer tags outermost.
   */
  lemma NestedElement(outer: string, inner: string, text: string)
    requires ' ' !in outer && '>' !in outer && (outer == [] || outer[0] != '/')
    requires ' ' !in inner && '>' !in inner && (inner == [] || inner[0] != '/')
    requires text != [] && '<' !in text && !IsWhitespace(text[0]) && !IsWhitespace(text[|text| - 1])
    ensures var body := "<" + inner + ">" + (text + ("</" + inner + ">"));
      TokensOf("<" + outer + ">" + (body + ("</" + outer + ">")))
      == Tokens([StartTag(outer, map[]), StartTag(inner, map[]), Text(text), EndTag(inner), EndTag(outer)])
  {
    var body := "<" + inner + ">" + (text + ("</" + inner + ">"));
    ClosedTagsEndingInClose(body);
    ElementWithText(inner, text);
    ElementAround(outer, body);
    Around(StartTag(outer, map[]), StartTag(inner, map[]), Text(text), EndTag(inner), EndTag(outer));
  }

  lemma Around(first: Token, a: Token, b: Token, c: Token, last: Token)
    ensures [first] + [a, b, c] + [last] == [first, a, b, c, last]
  {
  }

  /**
   * Two quoted attributes followed by a word without `=` (a stray `/`, say):
   * that word adds nothing.
   */
  lemma TwoAttributes(k1: string, v1: string, k2: string, v2: string, tail: string)
    requires '=' !in k1 && NoWhitespace(k1) && '=' !in k2 && NoWhitespace(k2)
    requires v1 != [] && NoWhitespace(v1) && !Accepts(Quote, v1[0]) && !Accepts(Quote, v1[|v1| - 1])
    requires v2 != [] && NoWhitespace(v2) && !Accepts(Quote, v2[0]) && !Accepts(Quote, v2[|v2| - 1])
    requires tail != [] && '=' !in tail && NoWhitespace(tail)
    ensures var a1 := k1 + "=" + ("\"" + v1 + "\"");
      var a2 := k2 + "=" + ("\"" + v2 + "\"");
      ParseAttributes(a1 + " " + (a2 + " " + tail)) == map[k1 := v1][k2 := v2]
  {
    var a1 := k1 + "=" + ("\"" + v1 + "\"");
    var a2 := k2 + "=" + ("\"" + v2 + "\"");
    QuotedWord(k1, v1);
    QuotedWord(k2, v2);
    JoinThree(a1, a2, tail);
    ParseAttributesOfWords([a1, a2, tail]);
    QuotedPair(k1, v1);
    QuotedPair(k2, v2);
    CollectThree(a1, a2, tail, (k1, v1), (k2, v2));
  }

  lemma JoinThree(w1: string, w2: string, w3: string)
    ensures Join([w1, w2, w3], " ") == w1 + " " + (w2 + " " + w3)
  {
    var words := [w1, w2, w3];
    assert words[1..] == [w2, w3] && words[1..][1..] == [w3];
  }

  /** Two pairs and a part without one collect into a map of those two, the later written last. */
  lemma CollectThree(w1: string, w2: string, w3: string, kv1: (string, string), kv2: (string, string))
    requires AttributePair(w1) == Some(kv1) && AttributePair(w2) == Some(kv2) && AttributePair(w3).None?
    ensures ToMap(AttributePairs([w1, w2, w3])) == map[kv1.0 := kv1.1][kv2.0 := kv2.1]
  {
    SnocPair(w1, w2, w3);
    CollectSnoc([w1, w2], w3);
    ConsSingle(w1, w2);
    CollectSnoc([w1], w2);
    NilAppend([w1]);
    CollectSnoc([], w1);
  }

  /**
   * A tag with two quoted attributes and a trailing `/` (the shape of
   * `<input type="text" value="Sample" />`): one start tag holding both pairs.
   */
  lemma SelfClosingWithTwoAttributes(name: string, k1: string, v1: string, k2: string, v2: string, tail: string)
    requires ' ' !in name && '>' !in name && (name == [] || name[0] != '/')
    requires '=' !in k1 && '>' !in k1 && NoWhitespace(k1) && '=' !in k2 && '>' !in k2 && NoWhitespace(k2)
    requires v1 != [] && '>' !in v1 && NoWhitespace(v1) && !Accepts(Quote, v1[0]) && !Accepts(Quote, v1[|v1| - 1])
    requires v2 != [] && '>' !in v2 && NoWhitespace(v2) && !Accepts(Quote, v2[0]) && !Accepts(Quote, v2[|v2| - 1])
    requires tail != [] && '=' !in tail && '>' !in tail && NoWhitespace(tail)
    ensures var a1 := k1 + "=" + ("\"" + v1 + "\"");
      var a2 := k2 + "=" + ("\"" + v2 + "\"");
      TokensOf("<" + (name + " " + (a1 + " " + (a2 + " " + tail))) + ">")
      == Tokens([StartTag(name, map[k1 := v1][k2 := v2])])
  {
    var a1 := k1 + "=" + ("\"" + v1 + "\"");
    var a2 := k2 + "=" + ("\"" + v2 + "\"");
    TwoAttributesTag(name, k1, v1, k2, v2, tail);
    LoneStartTag(name + " " + (a1 + " " + (a2 + " " + tail)));
  }

  /** The start tag `name k1="v1" k2="v2" tail`: its name, both pairs, and no `>` anywhere. */
  lemma TwoAttributesTag(name: string, k1: string, v1: string, k2: string, v2: string, tail: string)
    requires ' ' !in name && '>' !in name && (name == [] || name[0] != '/')
    requires '=' !in k1 && '>' !in k1 && NoWhitespace(k1) && '=' !in k2 && '>' !in k2 && NoWhitespace(k2)
    requires v1 != [] && '>' !in v1 && NoWhitespace(v1) && !Accepts(Quote, v1[0]) && !Accepts(Quote, v1[|v1| - 1])
    requires v2 != [] && '>' !in v2 && NoWhitespace(v2) && !Accepts(Quote, v2[0]) && !Accepts(Quote, v2[|v2| - 1])
    requires tail != [] && '=' !in tail && '>' !in tail && NoWhitespace(tail)
    ensures var a1 := k1 + "=" + ("\"" + v1 + "\"");
      var a2 := k2 + "=" + ("\"" + v2 + "\"");
      var contents := name + " " + (a1 + " " + (a2 + " " + tail));
      StartTagOf(contents) == StartTag(name, map[k1 := v1][k2 := v2])
      && '>' !in contents && contents[0] != '/'
  {
    var a1 := k1 + "=" + ("\"" + v1 + "\"");
    var a2 := k2 + "=" + ("\"" + v2 + "\"");
    var attributes := a1 + " " + (a2 + " " + tail);
    TwoAttributes(k1, v1, k2, v2, tail);
    StartTagOfSpec(name, attributes);
    QuotedNoClose(k1, v1);
    QuotedNoClose(k2, v2);
    SpacedNoClose(a1, a2, tail);
    NoCloseInContents(name, attributes);
  }

  /** `key="v"` holds a `>` only where its key or value does. */
  lemma QuotedNoClose(key: string, v: string)
    requires '>' !in key && '>' !in v
    ensures '>' !in key + "=" + ("\"" + v + "\"")
  {
    var w := key + "=" + ("\"" + v + "\"");
    assert w == key + ("=" + ("\"" + (v + "\"")));
    assert '>' !in "=" && '>' !in "\"";
  }

  /** Words joined by spaces hold a `>` only where a word does. */
  lemma SpacedNoClose(a1: string, a2: string, tail: string)
    requires '>' !in a1 && '>' !in a2 && '>' !in tail
    ensures '>' !in a1 + " " + (a2 + " " + tail)
  {
    assert '>' !in " ";
  }

  /** The contents `name attributes` hold no `>` and do not start with `/`. */
  lemma NoCloseInContents(name: string, attributes: string)
    requires '>' !in name && (name == [] || name[0] != '/') && '>' !in attributes
    ensures var contents := name + " " + attributes;
      '>' !in contents && contents[0] != '/'
  {
    var contents := name + " " + attributes;
    assert contents == name + (" " + attributes);
  }

  /** How the nested test document is put together. */
  lemma DivWithParagraphPieces()
    ensures ' ' !in "div" && '>' !in "div" && "div"[0] != '/'
    ensures ' ' !in "p" && '>' !in "p" && "p"[0] != '/'
    ensures '<' !in "Test" && !IsWhitespace('T') && !IsWhitespace('t')
    ensures "<div><p>Test</p></div>" == "<" + "div" + ">" + (("<" + "p" + ">" + ("Test" + ("</" + "p" + ">"))) + ("</" + "div" + ">"))
  {
  }

  /** A paragraph nested in a division. */
  lemma DivWithParagraph(html: string)
    requires html == "<div><p>Test</p></div>"
    ensures TokensOf(html) == Tokens([StartTag("div", map[]), StartTag("p", map[]), Text("Test"), EndTag("p"), EndTag("div")])
  {
    DivWithParagraphPieces();
    NestedElement("div", "p", "Test");
  }

  /** The attribute value of the link test document, character by character. */
  lemma LinkValuePieces(value: string)
    requires value == "https://example.com"
    ensures value != [] && '>' !in value && NoWhitespace(value)
    ensures !Accepts(Quote, value[0]) && !Accepts(Quote, value[|value| - 1])
  {
  }

  /** The names and the text of the link test document. */
  lemma LinkNamePieces()
    ensures ' ' !in "a" && '>' !in "a" && "a"[0] != '/'
    ensures '=' !in "href" && '>' !in "href" && NoWhitespace("href")
    ensures '<' !in "Link" && !IsWhitespace('L') && !IsWhitespace('k')
  {
  }

  /** How the link test document is put together. */
  lemma LinkLayout()
    ensures "<a href=\"https://example.com\">Link</a>"
      == "<" + ("a" + " " + ("href" + "=" + ("\"" + "https://example.com" + "\""))) + ">" + ("Link" + ("</" + "a" + ">"))
  {
    LinkThirds();
    LinkHead();
    LinkTail();
    Reassociate("a", "href", "https://example.com", "Link");
  }

  lemma LinkThirds()
    ensures "<a href=\"https://example.com\">Link</a>" == "<a href=\"" + "https://example.com" + "\">Link</a>"
  {
  }

  lemma LinkHead()
    ensures "<a href=\"" == "<" + "a" + " " + "href" + "=" + "\""
  {
  }

  lemma LinkTail()
    ensures "\">Link</a>" == "\"" + ">" + "Link" + "</" + "a" + ">"
  {
  }

  lemma Reassociate(name: string, key: string, value: string, text: string)
    ensures ("<" + name + " " + key + "=" + "\"") + value + ("\"" + ">" + text + "</" + name + ">")
      == "<" + (name + " " + (key + "=" + ("\"" + value + "\""))) + ">" + (text + ("</" + name + ">"))
  {
  }

  /** A link: the quotes around the address are stripped. */
  lemma Link(html: string)
    requires html == "<a href=\"https://example.com\">Link</a>"
    ensures TokensOf(html) == Tokens([StartTag("a", map["href" := "https://example.com"]), Text("Link"), EndTag("a")])
  {
    var value := "https://example.com";
    LinkValuePieces(value);
    LinkNamePieces();
    LinkLayout();
    ElementWithAttribute("a", "href", value, "Link");
  }

  /** The names, values and the stray `/` of the input test document. */
  lemma InputNamePieces()
    ensures ' ' !in "input" && '>' !in "input" && "input"[0] != '/'
    ensures '=' !in "type" && '>' !in "type" && NoWhitespace("type")
    ensures '=' !in "value" && '>' !in "value" && NoWhitespace("value")
    ensures "/" != [] && '=' !in "/" && '>' !in "/" && NoWhitespace("/")
  {
  }

  lemma InputValuePieces()
    ensures "text" != [] && '>' !in "text" && NoWhitespace("text")
    ensures !Accepts(Quote, 't') && "text"[0] == 't' && "text"[3] == 't'
    ensures "Sample" != [] && '>' !in "Sample" && NoWhitespace("Sample")
    ensures !Accepts(Quote, 'S') && !Accepts(Quote, 'e') && "Sample"[0] == 'S' && "Sample"[5] == 'e'
  {
  }

  lemma InputThirds()
    ensures "<input type=\"text\" value=\"Sample\" />"
      == "<input " + "type=\"text\"" + " value=\"Sample\"" + " />"
  {
  }

  lemma InputChunks()
    ensures "<input " == "<" + "input" + " "
    ensures "type=\"text\"" == "type" + "=" + ("\"" + "text" + "\"")
    ensures " value=\"Sample\"" == " " + ("value" + "=" + ("\"" + "Sample" + "\""))
    ensures " />" == " " + "/" + ">"
  {
  }

  lemma ReassociateTag(name: string, a1: string, a2: string, tail: string)
    ensures ("<" + name + " ") + a1 + (" " + a2) + (" " + tail + ">")
      == "<" + (name + " " + (a1 + " " + (a2 + " " + tail))) + ">"
  {
  }

  /** A self-closing input with two attributes: one start tag holding both. */
  lemma Input(html: string)
    requires html == "<input type=\"text\" value=\"Sample\" />"
    ensures TokensOf(html) == Tokens([StartTag("input", map["type" := "text"]["value" := "Sample"])])
  {
    InputThirds();
    InputChunks();
    ReassociateTag("input", "type" + "=" + ("\"" + "text" + "\""), "value" + "=" + ("\"" + "Sample" + "\""), "/");
    InputNamePieces();
    InputValuePieces();
    SelfClosingWithTwoAttributes("input", "type", "text", "value", "Sample", "/");
  }
}
