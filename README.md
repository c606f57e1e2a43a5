# wappu parsing core, in Dafny

wappu is a Rust scraping library: it fetches a page, turns it into a tree of
`HtmlElement`s and lets callers query that tree with CSS-like selectors. This
project models the parts of it that are plain computation and proves what they
promise:

- **the markup scanner** (`Parser::tokenize`, `Parser::parse_attributes`,
  `parser.dfy`): one left-to-right pass that turns a document into
  `StartTag`/`EndTag`/`Text` tokens, reading `key=value` attributes from each
  opening tag. `TokensOf` states the scan as a function over the rest of the
  input; `Tokenize` is the source's index-based loop, proved to compute it.
  `parser_examples.dfy` works the crate's own tokenizer examples through it.
- **the DOM conversion** (`HtmlElement::from_dom`, `html.dfy`): the tree the
  HTML5 parser builds (the `DomNode` datatype, standing in for html5ever's
  `NodeData`) becomes the simplified tree the selectors walk. `Convert` is the
  specification, `FromDom` the source's loop.
- **the selector engine** (`Selector`, `Selection`, the `select_by_tag_name!`
  and `select_by_class!` shorthands, `selector.dfy`): a `Selector` object whose
  fields the builder methods assign, a recursive selection that pushes onto an
  accumulator, and the accessors of the resulting `Selection`. `Matches` is the
  pre-order specification; `Nodes`/`Filter` is an independent reference it is
  proved equal to.
- **the cookie reader** (`parse_cookie`, `client.dfy`): the name and value of
  a cookie from a `Set-Cookie` header value.

`strings.dfy` holds the Rust string and collection operations these are built
from (`char::is_whitespace`, `trim`, `trim_matches`, `split_once`,
`split_whitespace`, `join`, collecting pairs into a `HashMap`), and
`wrappers.dfy` the `Option` type.

Behaviour of the code worth knowing when reading the model:

- `tokenize` reads the byte after a `<` without a bounds check
  (`src/engine/parser.rs:22`), so it panics when a turn of its scan starts at
  a `<` that is the last character. That happens exactly when the input ends
  with `<` and every `<` before it is followed later by a `>`: a tag that finds
  no `>` consumes the rest of the input, so `<a<` gives one start tag and no
  panic. The model has an explicit `IndexOutOfBounds` outcome, and
  `Parser.PanicIffTrailingOpen` states the condition.
- `trim_matches` strips every leading and trailing quote, not a single one
  (`src/engine/parser.rs:59`).
- An element's text is its tag-less children's texts concatenated with no
  separator (`src/engine/html.rs:59-60`).
- The selection test compares the two tag options (`src/engine/selector.rs:56`),
  so a selector without a tag, such as the one `select_by_class!` builds,
  matches every node without a tag, including the document root.
  `Selectors.ClassSelectorMatches` and `Selectors.ClassSelectionOfDocument`
  state this.
- The code contains no tree builder: tokens are never assembled into a tree,
  so none is modelled.

## Model

| member | source | states |
|---|---|---|
| Strings.Trim | src/engine/parser.rs:45 | the result is empty exactly when the text is all whitespace, and otherwise neither starts nor ends with whitespace; the piece kept is given by `Strings.TrimByInfix` |
| Strings.TrimBy | src/engine/parser.rs:59 | `trim_matches` on quotes: the result neither starts nor ends with a stripped character, and is empty exactly when every character is one |
| Strings.TrimByUntouched | src/engine/parser.rs:59 | a text whose ends are not stripped characters is left as it is |
| Strings.UnquoteDoubleQuoted | src/engine/parser.rs:59 | a double-quoted value without quotes at its own ends loses exactly the two quotes |
| Strings.TrimByInfix | src/engine/parser.rs:45 | the trimmed text is the contiguous piece of the original between two indices, and everything before and after that piece is made of stripped characters |
| Strings.NoWhitespaceTrimBy | src/engine/parser.rs:59 | trimming a text without whitespace gives a text without whitespace |
| Strings.IndexOf | src/engine/parser.rs:26 | the first index of a character, or the length when it is absent: no earlier occurrence, and the character is at that index |
| Strings.IndexOfUnique | src/engine/parser.rs:26 | any index with those two properties is the one found |
| Strings.SplitOnce | src/engine/parser.rs:36 | `split_once`: nothing exactly when the separator is absent; otherwise the text is before + separator + after, with no separator before |
| Strings.WordLength | src/engine/parser.rs:55 | the first word: a prefix without whitespace, ended by whitespace or the end of the text |
| Strings.SplitWhitespace | src/engine/parser.rs:55 | `split_whitespace`: every part is non-empty and has no whitespace |
| Strings.SplitWhitespaceSkipsLeading | src/engine/parser.rs:55 | leading whitespace does not change the split |
| Strings.SplitWhitespaceOfWord | src/engine/parser.rs:55 | a single word splits to itself |
| Strings.SplitWhitespaceAppend | src/engine/parser.rs:55 | the split of two texts around a whitespace character is the two splits, one after the other |
| Strings.Join | src/engine/selector.rs:100 | `join`: empty for no parts, the part itself for one, and the parts' lengths plus one separator between each pair |
| Strings.JoinSnoc | src/engine/selector.rs:100 | joining one more part appends the separator and that part |
| Strings.SplitJoinRoundTrip | src/engine/selector.rs:68 | words joined by spaces split back into the same words |
| Strings.ToMapSnoc | src/engine/parser.rs:64 | collecting one more pair overwrites that key |
| Strings.ToMapKeys | src/engine/html.rs:50-52 | a key is in the collected map exactly when some pair has it |
| Strings.ToMapLastWins | src/engine/html.rs:50-52 | the collected value of a key is that of its last pair |
| Strings.ToMap | src/engine/parser.rs:64 | collecting pairs into a `HashMap`: the map is empty exactly when there are no pairs, and has at most one entry per pair |
| Parser.AttributePair | src/engine/parser.rs:56-62 | a part gives no pair exactly when it has no `=` |
| Parser.AttributePairs | src/engine/parser.rs:56-63 | the `filter_map` keeps at most one pair per part |
| Parser.AttributePairSpec | src/engine/parser.rs:57-59 | a part `key=value` with no `=` in the key gives that key and the value with its quotes stripped |
| Parser.QuotedPair | src/engine/parser.rs:59 | `key="v"` gives the key and `v` |
| Parser.AttributePairShape | src/engine/parser.rs:55-59 | the key of a whitespace-free part has no `=` and no whitespace; the value has no whitespace and no quote at either end |
| Parser.CollectSnoc | src/engine/parser.rs:64 | one more part inserts its pair, if it has one, over what was collected |
| Parser.CollectedKeys | src/engine/parser.rs:55-64 | a key is collected exactly when some part carries it |
| Parser.CollectedLastWins | src/engine/parser.rs:64 | the value stored under a key is that of the last part carrying it |
| Parser.LastWithKeyExists | src/engine/parser.rs:64 | every carried key has a last part that carries it |
| Parser.ParseAttributes | src/engine/parser.rs:54-65 | `parse_attributes` yields at most one attribute per whitespace-separated part |
| Parser.ParseAttributesSpec | src/engine/parser.rs:54-65 | `parse_attributes`: a key is present exactly when some whitespace-separated part has it before its first `=`, and its value is the quote-stripped rest of the last such part |
| Parser.ParseAttributesOfWords | src/engine/parser.rs:55 | attribute text of words joined by spaces is read word by word |
| Parser.ParseAttributesShape | src/engine/parser.rs:54-65 | no key holds `=` or whitespace; no value holds whitespace or starts or ends with a quote |
| Parser.StartTagOf | src/engine/parser.rs:35-38 | the name is a prefix of the tag contents with no space; without a space it is all of them and there are no attributes |
| Parser.StartTagOfSpec | src/engine/parser.rs:36-37 | contents with a space give the name before the first space and the attributes parsed from the rest |
| Parser.ScanStep | src/engine/parser.rs:20-49 | one turn of the outer loop consumes at least one character unless it panics |
| Parser.Emitted | src/engine/parser.rs:28-48 | one turn emits at most one token |
| Parser.EndTagStep | src/engine/parser.rs:22-29 | an end tag at `i`: the name runs from after `</` to the next `>` or the end, and the scan resumes past the `>` |
| Parser.StartTagStep | src/engine/parser.rs:30-39 | a start tag at `i`: the contents run from after `<` to the next `>` or the end, and the scan resumes past the `>` |
| Parser.TextStep | src/engine/parser.rs:41-48 | a text run at `i` reaches up to the next `<` or the end, where the scan resumes |
| Parser.ScanTo | src/engine/parser.rs:26 | the inner loops stop at the first occurrence of the character after the start, or at the end |
| Parser.ScanAt | src/engine/parser.rs:21-49 | the loop body at `i` never panics when a character follows a `<`, moves the index forward, and emits what one turn of the specification emits |
| Parser.Tokenize | src/engine/parser.rs:17-52 | the loop's result equals the scan specification on the whole input, panic included |
| Parser.TokensOf | src/engine/parser.rs:17-52 | the scan specification, turn by turn over the rest of the input: a successful scan yields at most one token per character |
| Parser.DanglingOpenPanics | src/engine/parser.rs:21-22 | a turn that starts at a `<` which is the last character ends the scan in the panic, whatever was emitted before |
| Parser.Advance | src/engine/parser.rs:20-50 | one turn of the loop carries the tokens-so-far invariant |
| Parser.ScanStepShape | src/engine/parser.rs:20-49 | a turn panics exactly on a lone `<`; end tag names and start tag contents have no `>`; a text run is non-empty without `<`; the rest follows what was consumed |
| Parser.EmittedWellFormed | src/engine/parser.rs:20-49 | the tokens of one turn are well formed |
| Parser.StepWellFormed | src/engine/parser.rs:27-48 | a turn whose raw text excludes the delimiters emits well-formed tokens |
| Parser.StartTagWellFormed | src/engine/parser.rs:35-38 | a start tag name has neither a space nor `>` |
| Parser.TextWellFormed | src/engine/parser.rs:45-47 | an emitted text is non-empty, without `<`, and neither starts nor ends with whitespace |
| Parser.TokensWellFormed | src/engine/parser.rs:17-52 | every token of a successful scan is well formed, and there are at most as many tokens as characters |
| Parser.PanicIffTrailingOpen | src/engine/parser.rs:17-52 | the scan panics if and only if the input ends with `<` and every `<` before that one is followed later by a `>` |
| Parser.ClosedThenOpenPanics | src/engine/parser.rs:21-22 | a `<` after input whose tags all close makes the scan panic |
| Parser.PanicNeedsTrailingOpen | src/engine/parser.rs:21-22 | a panic implies the input ends with `<` and every earlier `<` is closed by a later `>` |
| Parser.FrontCloses | src/engine/parser.rs:22-48 | a turn followed by more input ends right after its construct, and every `<` in that construct is closed by its final `>` |
| Parser.TrailingOpenPanics | src/engine/parser.rs:21-22 | an input ending in `>` then `<` (or a lone `<`) always panics |
| Parser.StartTagFirst | src/engine/parser.rs:30-39 | an opening tag at the front gives its start tag, then the tokens of the rest |
| Parser.EndTagFirst | src/engine/parser.rs:22-29 | a closing tag at the front gives its end tag, then the tokens of the rest |
| Parser.TextFirst | src/engine/parser.rs:41-48 | a text run at the front gives its trimmed text, unless blank, then the tokens of the rest |
| Parser.IndexOfAppend | src/engine/parser.rs:26 | the first occurrence in a concatenation is in the first part, or else in the second, shifted |
| Parser.IndexOfPresent | src/engine/parser.rs:26 | a character that occurs is found before the end |
| Parser.TagStepAppend | src/engine/parser.rs:21-39 | a tag that closes inside the first part is read the same with more input after it |
| Parser.TextStepAppend | src/engine/parser.rs:41-48 | a text run that ends at a `<` is read the same with more input after it |
| Parser.ScanStepAppend | src/engine/parser.rs:20-49 | the first turn on `a + b` is the first turn on `a` when every tag of `a` closes inside it |
| Parser.ClosingBracket | src/engine/parser.rs:34 | where the tag at the front closes |
| Parser.ClosedTagsSuffix | src/engine/parser.rs:20 | every suffix of complete content is complete |
| Parser.TokensAppend | src/engine/parser.rs:17-52 | the tokens of two pieces of complete content are those of the first, then those of the second |
| Parser.ElementWithText | src/engine/parser.rs:17-52 | `<n>text</n>` gives the start tag, the text and the end tag |
| Parser.TaggedText | src/engine/parser.rs:17-52 | opening-tag contents, a text and a closing tag give the start tag of those contents, the text and the end tag |
| Parser.TextThenClose | src/engine/parser.rs:41-48 | a trimmed text before a closing tag is kept whole |
| Parser.LoneEndTag | src/engine/parser.rs:22-29 | a document that is one closing tag gives one end tag |
| Parser.LoneStartTag | src/engine/parser.rs:30-39 | a document that is one opening tag gives one start tag |
| Parser.TrimmedTextFirst | src/engine/parser.rs:43-47 | a text without surrounding whitespace is one token, kept whole |
| Parser.ClosedBy | src/engine/parser.rs:17-52 | complete content before a closing tag gives its tokens, then the end tag |
| Parser.ElementAround | src/engine/parser.rs:17-52 | an element around complete content gives its start tag, the content's tokens, then its end tag |
| ParserExamples.DivWithText | src/tests/parser.rs:7-15 | `<div>Hello, World!</div>` gives the start tag, the text and the end tag |
| ParserExamples.Link | src/tests/parser.rs:18-29 | `<a href="https://example.com">Link</a>` gives a start tag with the unquoted `href`, the text and the end tag |
| ParserExamples.DivWithParagraph | src/tests/parser.rs:32-42 | `<div><p>Test</p></div>` gives five tokens in document order |
| ParserExamples.Input | src/tests/parser.rs:45-55 | `<input type="text" value="Sample" />` gives one start tag with both attributes; the lone `/` is dropped |
| ParserExamples.QuotedAttribute | src/engine/parser.rs:54-65 | `key="v"` parses to the one-entry map from the key to `v` |
| ParserExamples.ElementWithAttribute | src/engine/parser.rs:17-52 | an element with one quoted attribute around a text gives its start tag with that attribute, the text and the end tag |
| ParserExamples.NestedElement | src/engine/parser.rs:17-52 | an element nested in another gives both start tags, the text and both end tags in document order |
| ParserExamples.TwoAttributes | src/engine/parser.rs:54-65 | two quoted attributes and a word without `=` give both attributes and nothing for the word |
| ParserExamples.SelfClosingWithTwoAttributes | src/engine/parser.rs:30-39 | a self-closing tag with two attributes gives one start tag carrying both |
| Html.FromDom | src/engine/html.rs:31-86 | the source's conversion, loops included, computes the specification `Convert` |
| Html.ConvertAllSnoc | src/engine/html.rs:56-57 | converting one more child appends its conversion |
| Html.Convert | src/engine/html.rs:31-86 | only elements get a tag, their local name; only elements have attributes; text and other leaves have no children; a text keeps its contents verbatim and every other non-element has empty text |
| Html.DocumentChildren | src/engine/html.rs:33-46 | a document keeps one converted child per child, in order, tag-less ones included |
| Html.ConvertAllPrefix | src/engine/html.rs:56 | the conversions of the first `n` children are the first `n` conversions |
| Html.TaglessTextOfConverted | src/engine/html.rs:56-61 | the text folded from the conversions is the contents of the text nodes, in order |
| Html.TaggedOfConverted | src/engine/html.rs:56-63 | the kept conversions are the conversions of the element nodes, in order |
| Html.ElementText | src/engine/html.rs:55-61 | an element's text is its text children's contents concatenated with no separator |
| Html.ElementChildren | src/engine/html.rs:54-63 | an element keeps exactly its element children's conversions, in order |
| Html.TaggedHaveTags | src/engine/html.rs:59-63 | every kept child has a tag |
| Html.TaggedCount | src/engine/html.rs:59-63 | every child is either folded into the text or kept, never both |
| Html.ElementAttributes | src/engine/html.rs:49-52 | an element has an attribute exactly when one of its pairs names it, with the value of the last such pair |
| Html.ElementBetweenTexts | src/engine/html.rs:48-72 | an element child between two texts: the texts join into the parent's text and the element is its only child |
| Selectors.ClassMatches | src/engine/selector.rs:64-73 | `matches_class`: only a non-empty class name without whitespace can ever match, since the attribute is compared word by word |
| Selectors.IsMatch | src/engine/selector.rs:55-56 | a node whose tag option equals the selector's always matches; with no class asked for, that is the only way to match |
| Selectors.Matches | src/engine/selector.rs:54-61 | every node selected under a tree matches, and a matching root comes first |
| Selectors.MatchesAll | src/engine/selector.rs:58-60 | every node selected under a sequence of trees matches |
| Selectors.Selector.constructor | src/engine/selector.rs:24-29 | a new selector asks for no tag and no class |
| Selectors.Selector.FromTagName | src/engine/selector.rs:32-35 | sets the tag and leaves the class |
| Selectors.Selector.FromClassName | src/engine/selector.rs:37-41 | sets the class and leaves the tag |
| Selectors.Selector.SelectRecursive | src/engine/selector.rs:55-62 | the accumulator ends as what it held followed by every match under the element, in pre-order |
| Selectors.Selector.Select | src/engine/selector.rs:43-47 | the selection is every match in pre-order; it depends only on the selector's fields and the tree, which is not changed |
| Selectors.Selector.SelectFirst | src/engine/selector.rs:49-53 | the first match that `select` would return, or nothing when there is none |
| Selectors.SelectByTagName | src/engine/selector.rs:3-8 | selects with the tag set and no class |
| Selectors.SelectByClass | src/engine/selector.rs:10-15 | selects with the class set and no tag |
| Selectors.MatchesUnfold | src/engine/selector.rs:56-61 | a node's matches are its own, then those under its children |
| Selectors.MatchesAllSnoc | src/engine/selector.rs:59-61 | one more child appends the matches under it |
| Selectors.MatchesAllStep | src/engine/selector.rs:58-60 | one turn of the loop over the children keeps the accumulator equal to what it held followed by the matches under the children visited so far |
| Selectors.MatchesAllAppend | src/engine/selector.rs:59-61 | the matches under consecutive children are those of the first group, then the second |
| Selectors.ChildMatchesInPlace | src/engine/selector.rs:55-62 | pre-order: the node's own match, then the matches under the children to the left, under the child itself (searched whether or not the node matched), and to the right |
| Selectors.FilterAppend | src/engine/selector.rs:55-62 | filtering the nodes distributes over concatenation |
| Selectors.FilterMembers | src/engine/selector.rs:56 | a node survives filtering exactly when it is there and matches |
| Selectors.MatchesAreFilteredNodes | src/engine/selector.rs:55-62 | the selection equals the matching nodes of the tree in pre-order, node before descendants, siblings left to right |
| Selectors.MatchesAllAreFilteredNodes | src/engine/selector.rs:59-61 | the same for a sequence of trees |
| Selectors.SelectedIffMatchingNode | src/engine/selector.rs:55-62 | a node is selected exactly when it is in the tree and matches |
| Selectors.TreeInNodesAll | src/engine/selector.rs:59-61 | every child is visited |
| Selectors.TagSelectorMatches | src/engine/selector.rs:56 | a tag-only selector matches exactly the nodes with that tag, compared exactly |
| Selectors.ClassSelectorMatches | src/engine/selector.rs:56-73 | a class-only selector matches exactly the nodes with that class and the nodes without a tag |
| Selectors.ClassSelectionOfDocument | src/engine/selector.rs:56 | selecting by class in a converted document yields the root first, and every text node directly under the document |
| Selectors.ClassOfWords | src/engine/selector.rs:64-73 | a class attribute of words joined by spaces matches exactly those words |
| Selectors.ClassWordsNotPrefixes | src/engine/selector.rs:68 | `test testing` has the classes `test` and `testing` but not `tes` |
| Selectors.Selection.Text | src/engine/selector.rs:95-101 | `text`: empty for no matches; otherwise the matches' texts with exactly one separator character between consecutive ones |
| Selectors.Selection.TagName | src/engine/selector.rs:103-109 | `tag_name`: nothing exactly when no match has a tag; otherwise the tag of some match |
| Selectors.Selection.Len | src/engine/selector.rs:111-113 | `len`: zero exactly when nothing was selected |
| Selectors.LenCountsMatchingNodes | src/engine/selector.rs:111-113 | `len` of a selection counts the matching nodes of the tree |
| Selectors.Selection.Class | src/engine/selector.rs:115-121 | `class`: nothing exactly when no match has a `class` attribute; otherwise the value on some match |
| Selectors.Selection.Id | src/engine/selector.rs:123-129 | `id`: nothing exactly when no match has an `id` attribute; otherwise the value on some match |
| Selectors.Selection.Href | src/engine/selector.rs:131-137 | `href`: nothing exactly when no match has an `href` attribute; otherwise the value on some match |
| Selectors.Selection.Src | src/engine/selector.rs:139-145 | `src`: nothing exactly when no match has a `src` attribute; otherwise the value on some match |
| Selectors.TextOfFew | src/engine/selector.rs:95-101 | an empty selection has empty text; one match gives its own text |
| Selectors.TextSnoc | src/engine/selector.rs:95-101 | one more match appends a single space and its text |
| Selectors.FirstAttributeAt | src/engine/selector.rs:115-145 | the attribute accessors return the value on the first match that has the attribute |
| Selectors.FirstAttribute | src/engine/selector.rs:115-145 | nothing exactly when no match has the attribute; otherwise the value some match gives it |
| Selectors.FirstTagAt | src/engine/selector.rs:103-109 | `tag_name` returns the tag of the first match that has one |
| Selectors.FirstTag | src/engine/selector.rs:103-109 | nothing exactly when no match has a tag; otherwise the tag of some match |
| Selectors.TwoLeaves | src/engine/selector.rs:55-62 | a parent with two leaf children: the parent's own match, then the first child's, then the second's |
| Selectors.SpansUnderDiv | src/tests/selector.rs:17-29 | selecting `span` under a `div` with two `span` children selects both in order, length 2, texts joined by a space |
| Selectors.HrefOfNestedLink | src/tests/selector.rs:70-79 | an `a` holding an `a` with an `href`: both are selected and `href` returns the child's link, `id` nothing |
| Cookies.ToStr | src/engine/client.rs:263 | the header is text exactly when every byte is a tab or visible ASCII, and then each character has its byte's code |
| Cookies.SplitN2 | src/engine/client.rs:264 | `splitn(2, '=')` has two parts exactly when the text has `=`, one otherwise |
| Cookies.ParseCookie | src/engine/client.rs:262-274 | there is no cookie exactly when the header is not text or its text has no `=` |
| Cookies.CookieOfText | src/engine/client.rs:264-272 | the text gives a cookie exactly when it holds an `=` |
| Cookies.SplitFirst | src/engine/client.rs:268 | the first piece of a split always exists and is the longest prefix without the separator |
| Cookies.CookieFields | src/engine/client.rs:264-269 | `name=value` then nothing or `;` and attributes gives the trimmed name and trimmed value; the value may hold `=` |
| Cookies.CookieClean | src/engine/client.rs:264-269 | every cookie's name has no `=`, its value no `;`, and both are trimmed |
| Cookies.TrimKeepsOut | src/engine/client.rs:267-268 | trimming adds no character |
| Cookies.CookieLayout | src/engine/client.rs:264-268 | any text with `=` is a name without `=`, the `=`, a value without `;`, then nothing or `;` and more |
| Cookies.AttributesIgnoredInText | src/engine/client.rs:268 | after the first `;` that follows the `=`, the rest of the text does not change the cookie |
| Cookies.ToStrAppend | src/engine/client.rs:263 | the text of concatenated bytes is the concatenation of their texts |
| Cookies.AttributesIgnored | src/engine/client.rs:262-274 | on header bytes: attributes after a `;` that follows an `=` are ignored |
| Cookies.Encode | src/engine/client.rs:263 | one byte per character, with its code |
| Cookies.ToStrEncode | src/engine/client.rs:263 | text of tabs and visible ASCII reads back unchanged from its bytes |
| Cookies.CookieRoundTrip | src/engine/client.rs:262-274 | a header `name=value` (then attributes) with a trimmed name without `=` and a trimmed value without `;` gives back that name and value |
| Cookies.CookieWithEqualsInValue | src/engine/client.rs:264-268 | `a=b=c; Path=/` is the cookie `a` with the value `b=c` |

## Left out

- The HTTP client (`WappuClient` requests, `WappuResponse`, JSON decoding), error formatting and the `headers!` macro: network I/O over reqwest and serde.
- The captcha client: polling of a remote API with sleeps.
- `HtmlParser::parse_html` and html5ever itself: a foreign parser. Its output is the `DomNode` datatype, with `Document`, `Element`, `Text` and every other kind (`Other`), and nothing is assumed about what it builds.
- The example programs: fetch, parse and print.
- Byte indexing: the scanner indexes bytes while the model indexes characters. Every delimiter it looks for is ASCII, so the boundaries are the same for UTF-8 text.
- `Parser::tokenize`: the body of the outer loop is factored into `ScanAt`, with the inner scanning loops in `ScanTo`. The loop order and index arithmetic are those of the source.
- Lifetimes, borrows and `IntoIterator` for `Selection`: a selection holds the matched node values, and the tree is an immutable value.
- `HeaderValue` is modelled by its bytes and `to_str` by its visible-ASCII check.
- `HashMap` iteration order is not modelled. Attribute maps are Dafny maps, and only the last-wins rule of `collect` matters.
- Strings.TrimBy: its own contract states the shape of the result (ends not stripped, empty exactly when everything is stripped); which piece of the text is kept, and that only stripped characters are dropped, is stated by `Strings.TrimByInfix`, so that the many callers of `TrimBy` do not carry the quantified statement.
- Strings.Trim: likewise, the piece kept is stated by `Strings.TrimByInfix` with the whitespace pattern.
