/**
 * The hand-written markup scanner of `Parser::tokenize`: one left-to-right
 * pass that turns a document into `StartTag`, `EndTag` and `Text` tokens, and
 * `Parser::parse_attributes`, which reads the `key=value` parts of an opening
 * tag.
 *
 * `TokensOf` states the scan as a function over the rest of the input;
 * `Tokenize` is the source's index-based loop, proved to compute it.
 */
module Parser {
  import opened Wrappers
  import opened Strings

  datatype Token =
    | StartTag(name: string, attributes: map<string, string>)
    | EndTag(name: string)
    | Text(content: string)

  /**
   * The outcome of a scan: the tokens, or the panic of `html.as_bytes()[i + 1]`
   * when a turn of the scan starts at a `<` that is the last character of the input.
   */
  datatype Tokenized = Tokens(tokens: seq<Token>) | IndexOutOfBounds

  /** Puts `ts` in front of the tokens of `r`; a panic stays a panic. */
  function Prepend(ts: seq<Token>, r: Tokenized): Tokenized {
    match r
    case Tokens(rest) => Tokens(ts + rest)
    case IndexOutOfBounds => IndexOutOfBounds
  }

  /** The rest of `s` after its first `n` characters, empty once `n` passes the end. */
  function Skip(s: string, n: nat): string {
    if n <= |s| then s[n..] else []
  }

  // ---------------------------------------------------------------------------
  // Attributes
  // ---------------------------------------------------------------------------

  /**
   * One whitespace-separated part of the attribute text: split at its first
   * `=` into a key and a value with every leading and trailing quote removed;
   * a part without `=` gives nothing.
   */
  function AttributePair(part: string): (r: Option<(string, string)>)
    ensures r.None? <==> '=' !in part
  {
    match SplitOnce(part, '=')
    case Some((key, value)) => Some((key, TrimBy(value, Quote)))
    case None => None
  }

  /** The pairs of the parts that have one, in order (`filter_map`). */
  function AttributePairs(parts: seq<string>): (pairs: seq<(string, string)>)
    ensures |pairs| <= |parts|
    decreases |parts|
  {
    if parts == [] then []
    else
      var init := AttributePairs(parts[..|parts| - 1]);
      match AttributePair(parts[|parts| - 1])
      case Some(kv) => init + [kv]
      case None => init
  }

  /** `Parser::parse_attributes`. */
  function ParseAttributes(s: string): (m: map<string, string>)
    ensures |m| <= |SplitWhitespace(s)|
  {
    ToMap(AttributePairs(SplitWhitespace(s)))
  }

  /** The key a part contributes, if any. */
  function KeyOf(part: string): Option<string> {
    match AttributePair(part)
    case Some((k, _)) => Some(k)
    case None => None
  }

  /** Collecting one more part inserts its pair, if it has one. */
  lemma CollectSnoc(parts: seq<string>, p: string)
    ensures ToMap(AttributePairs(parts + [p])) ==
      match AttributePair(p)
      case Some(kv) => ToMap(AttributePairs(parts))[kv.0 := kv.1]
      case None => ToMap(AttributePairs(parts))
  {
    assert (parts + [p])[..|parts|] == parts;
    match AttributePair(p)
    case Some(kv) => ToMapSnoc(AttributePairs(parts), kv);
    case None =>
  }

  /** A key is collected exactly when some part carries it. */
  lemma {:induction false} CollectedKeys(parts: seq<string>, k: string)
    ensures k in ToMap(AttributePairs(parts)) <==> exists i :: 0 <= i < |parts| && KeyOf(parts[i]) == Some(k)
    decreases |parts|
  {
    if parts != [] {
      var init, p := parts[..|parts| - 1], parts[|parts| - 1];
      SplitLast(parts);
      CollectedKeys(init, k);
      CollectSnocKey(init, p, k);
      KeyedSnoc(init, p, k);
    }
  }

  /** One more part adds its key, if it has one, to the collected keys. */
  lemma CollectSnocKey(init: seq<string>, p: string, k: string)
    ensures k in ToMap(AttributePairs(init + [p])) <==> k in ToMap(AttributePairs(init)) || KeyOf(p) == Some(k)
  {
    CollectSnoc(init, p);
  }

  /** Some part of `init + [p]` carries `k` exactly when one of `init` does or `p` does. */
  lemma KeyedSnoc(init: seq<string>, p: string, k: string)
    ensures (exists i :: 0 <= i < |init + [p]| && KeyOf((init + [p])[i]) == Some(k))
      <==> (exists i :: 0 <= i < |init| && KeyOf(init[i]) == Some(k)) || KeyOf(p) == Some(k)
  {
    var parts := init + [p];
    if i :| 0 <= i < |parts| && KeyOf(parts[i]) == Some(k) {
      if i < |init| {
        assert init[i] == parts[i];
      }
    }
    if i :| 0 <= i < |init| && KeyOf(init[i]) == Some(k) {
      assert parts[i] == init[i];
    }
    assert parts[|init|] == p;
  }

  /** The value stored under a key is that of the last part carrying the key. */
  lemma {:induction false} CollectedLastWins(parts: seq<string>, i: nat)
    requires i < |parts| && AttributePair(parts[i]).Some?
    requires forall j :: i < j < |parts| ==> KeyOf(parts[j]) != KeyOf(parts[i])
    ensures AttributePair(parts[i]).value.0 in ToMap(AttributePairs(parts))
    ensures ToMap(AttributePairs(parts))[AttributePair(parts[i]).value.0] == AttributePair(parts[i]).value.1
    decreases |parts|
  {
    var init, p := parts[..|parts| - 1], parts[|parts| - 1];
    SplitLast(parts);
    var kv := AttributePair(parts[i]).value;
    if i < |parts| - 1 {
      assert init[i] == parts[i];
      assert KeyOf(p) != Some(kv.0);
      CollectedLastWins(init, i);
      CollectSnocOther(init, p, kv.0);
    } else {
      CollectSnocOwn(init, p);
    }
  }

  /** One more part with a pair stores its value under its key. */
  lemma CollectSnocOwn(init: seq<string>, p: string)
    requires AttributePair(p).Some?
    ensures var kv := AttributePair(p).value;
      kv.0 in ToMap(AttributePairs(init + [p])) && ToMap(AttributePairs(init + [p]))[kv.0] == kv.1
  {
    CollectSnoc(init, p);
  }

  /** One more part without key `k` leaves what is stored under `k` as it was. */
  lemma CollectSnocOther(init: seq<string>, p: string, k: string)
    requires KeyOf(p) != Some(k) && k in ToMap(AttributePairs(init))
    ensures k in ToMap(AttributePairs(init + [p]))
    ensures ToMap(AttributePairs(init + [p]))[k] == ToMap(AttributePairs(init))[k]
  {
    CollectSnoc(init, p);
  }

  /** `parts[i]` is the last part that carries key `k`. */
  predicate LastWithKey(parts: seq<string>, k: string, i: int) {
    0 <= i < |parts| && KeyOf(parts[i]) == Some(k)
    && forall j :: i < j < |parts| ==> KeyOf(parts[j]) != Some(k)
  }

  /** Every part that carries a key is followed by a last one that carries it. */
  lemma {:induction false} LastWithKeyExists(parts: seq<string>, k: string, i: nat) returns (last: nat)
    requires i < |parts| && KeyOf(parts[i]) == Some(k)
    ensures LastWithKey(parts, k, last)
    decreases |parts| - i
  {
    if j :| i < j < |parts| && KeyOf(parts[j]) == Some(k) {
      last := LastWithKeyExists(parts, k, j);
    } else {
      last := i;
    }
  }

  /**
   * What `parse_attributes` returns: a key is present exactly when some
   * whitespace-separated part of the text has it before its first `=`, and its
   * value is the quote-stripped remainder of the LAST such part.
   */
  lemma ParseAttributesSpec(s: string, k: string)
    ensures k in ParseAttributes(s) <==>
      exists i :: 0 <= i < |SplitWhitespace(s)| && KeyOf(SplitWhitespace(s)[i]) == Some(k)
    ensures k in ParseAttributes(s) ==>
      exists i :: LastWithKey(SplitWhitespace(s), k, i)
        && ParseAttributes(s)[k] == AttributePair(SplitWhitespace(s)[i]).value.1
  {
    var parts := SplitWhitespace(s);
    CollectedKeys(parts, k);
    if k in ParseAttributes(s) {
      var i :| 0 <= i < |parts| && KeyOf(parts[i]) == Some(k);
      var last := LastWithKeyExists(parts, k, i);
      CollectedLastWins(parts, last);
    }
  }

  /** Attribute text made of words joined by single spaces is read word by word. */
  lemma ParseAttributesOfWords(words: seq<string>)
    requires forall i :: 0 <= i < |words| ==> words[i] != [] && NoWhitespace(words[i])
    ensures ParseAttributes(Join(words, " ")) == ToMap(AttributePairs(words))
  {
    SplitJoinRoundTrip(words);
  }

  /**
   * A part with `=` splits into the text before its first `=` and the rest
   * with quotes stripped from both ends.
   */
  lemma AttributePairSpec(key: string, value: string)
    requires '=' !in key
    ensures AttributePair(key + "=" + value) == Some((key, TrimBy(value, Quote)))
  {
    var p := key + "=" + value;
    IndexOfUnique(p, '=', |key|);
    assert p[..|key|] == key && p[|key| + 1..] == value;
  }

  /** A `key="value"` part gives the key and the value without its quotes. */
  lemma QuotedPair(key: string, v: string)
    requires '=' !in key && v != [] && !Accepts(Quote, v[0]) && !Accepts(Quote, v[|v| - 1])
    ensures AttributePair(key + "=" + ("\"" + v + "\"")) == Some((key, v))
  {
    AttributePairSpec(key, "\"" + v + "\"");
    UnquoteDoubleQuoted(v);
  }

  /**
   * A part without whitespace yields a key and value without whitespace; the
   * key has no `=` and the value neither starts nor ends with a quote.
   */
  lemma AttributePairShape(part: string)
    requires NoWhitespace(part) && AttributePair(part).Some?
    ensures '=' !in AttributePair(part).value.0
    ensures NoWhitespace(AttributePair(part).value.0) && NoWhitespace(AttributePair(part).value.1)
    ensures var v := AttributePair(part).value.1; v == [] || (!Accepts(Quote, v[0]) && !Accepts(Quote, v[|v| - 1]))
  {
    var (key, raw) := SplitOnce(part, '=').value;
    assert part == key + ['='] + raw;
    assert NoWhitespace(key) by {
      forall j | 0 <= j < |key| ensures !IsWhitespace(key[j]) {
        assert key[j] == part[j];
      }
    }
    assert NoWhitespace(raw) by {
      forall j | 0 <= j < |raw| ensures !IsWhitespace(raw[j]) {
        assert raw[j] == part[|key| + 1 + j];
      }
    }
    NoWhitespaceTrimBy(raw, Quote);
  }

  /**
   * Every key has no `=` and no whitespace, and no value starts or ends with
   * a quote or holds whitespace.
   */
  lemma ParseAttributesShape(s: string, k: string)
    requires k in ParseAttributes(s)
    ensures '=' !in k && NoWhitespace(k) && NoWhitespace(ParseAttributes(s)[k])
    ensures var v := ParseAttributes(s)[k]; v == [] || (!Accepts(Quote, v[0]) && !Accepts(Quote, v[|v| - 1]))
  {
    var parts := SplitWhitespace(s);
    ParseAttributesSpec(s, k);
    var i :| LastWithKey(parts, k, i) && ParseAttributes(s)[k] == AttributePair(parts[i]).value.1;
    AttributePairShape(parts[i]);
  }

  // ---------------------------------------------------------------------------
  // The scan
  // ---------------------------------------------------------------------------

  /**
   * The token for the contents between `<` and `>`: the name runs up to the
   * first space (only `' '`, not other whitespace) and the rest is attribute
   * text; without a space the whole contents are the name.
   */
  function StartTagOf(contents: string): (t: Token)
    ensures t.StartTag? && ' ' !in t.name && t.name <= contents
    ensures ' ' !in contents ==> t == StartTag(contents, map[])
  {
    match SplitOnce(contents, ' ')
    case Some((name, attributes)) => StartTag(name, ParseAttributes(attributes))
    case None => StartTag(contents, ParseAttributes(""))
  }

  /** Contents with a space: the name before the first space, attributes after it. */
  lemma StartTagOfSpec(name: string, attributes: string)
    requires ' ' !in name
    ensures StartTagOf(name + " " + attributes) == StartTag(name, ParseAttributes(attributes))
  {
    var c := name + " " + attributes;
    IndexOfUnique(c, ' ', |name|);
    assert c[..|name|] == name && c[|name| + 1..] == attributes;
  }

  /**
   * One turn of the scan at the start of `s`: which construct starts there,
   * its raw text, and the input left after it.
   */
  datatype Step =
    | EndTagAt(name: string, rest: string)
    | StartTagAt(contents: string, rest: string)
    | TextAt(raw: string, rest: string)
    | Panic

  /** One turn of the scan's outer loop, on the input from its current position. */
  function ScanStep(s: string): (r: Step)
    requires s != []
    ensures !r.Panic? ==> |r.rest| < |s|
  {
    if s[0] == '<' then
      if |s| == 1 then Panic
      else if s[1] == '/' then
        var n := IndexOf(s[2..], '>');
        EndTagAt(s[2..2 + n], Skip(s, 3 + n))
      else
        var n := IndexOf(s[1..], '>');
        StartTagAt(s[1..1 + n], Skip(s, 2 + n))
    else
      var n := IndexOf(s, '<');
      TextAt(s[..n], s[n..])
  }

  /** The tokens one turn emits: none for a panic or a whitespace-only text run. */
  function Emitted(st: Step): (ts: seq<Token>)
    ensures |ts| <= 1
  {
    match st
    case EndTagAt(name, _) => [EndTag(name)]
    case StartTagAt(contents, _) => [StartTagOf(contents)]
    case TextAt(raw, _) =>
      var text := Trim(raw);
      if text == [] then [] else [Text(text)]
    case Panic => []
  }

  /** The tokens of the input `s`, scanned from its first character. */
  function TokensOf(s: string): (r: Tokenized)
    ensures r.Tokens? ==> |r.tokens| <= |s|
    decreases |s|
  {
    if s == [] then Tokens([])
    else
      var st := ScanStep(s);
      if st.Panic? then IndexOutOfBounds else Prepend(Emitted(st), TokensOf(st.rest))
  }

  lemma PrependPrepend(a: seq<Token>, b: seq<Token>, r: Tokenized)
    ensures Prepend(a, Prepend(b, r)) == Prepend(a + b, r)
  {
    if r.Tokens? {
      assert a + (b + r.tokens) == (a + b) + r.tokens;
    }
  }

  /** Skipping within a suffix is skipping further in the whole. */
  lemma SkipSlice(html: string, i: nat, m: nat)
    requires i <= |html|
    ensures Skip(html[i..], m) == Skip(html, i + m)
  {
    if i + m <= |html| {
      assert html[i..][m..] == html[i + m..];
    }
  }

  /**
   * An end tag at `i`: `</` followed by a name that runs to the next `>`
   * (or to the end), after which the scan resumes past the `>`.
   */
  lemma EndTagStep(html: string, i: nat, j: nat)
    requires i + 2 <= j <= |html| && html[i] == '<' && html[i + 1] == '/'
    requires '>' !in html[i + 2..j] && (j < |html| ==> html[j] == '>')
    ensures ScanStep(html[i..]) == EndTagAt(html[i + 2..j], Skip(html, j + 1))
  {
    var s := html[i..];
    var n := j - i - 2;
    assert s[2..][..n] == html[i + 2..j];
    IndexOfUnique(s[2..], '>', n);
    assert s[2..2 + n] == html[i + 2..j];
    SkipSlice(html, i, 3 + n);
  }

  /**
   * A start tag at `i`: `<` not followed by `/`, with contents that run to the
   * next `>` (or to the end), after which the scan resumes past the `>`.
   */
  lemma StartTagStep(html: string, i: nat, j: nat)
    requires i + 1 <= j <= |html| && i + 1 < |html| && html[i] == '<' && html[i + 1] != '/'
    requires '>' !in html[i + 1..j] && (j < |html| ==> html[j] == '>')
    ensures ScanStep(html[i..]) == StartTagAt(html[i + 1..j], Skip(html, j + 1))
  {
    var s := html[i..];
    var n := j - i - 1;
    assert s[1..][..n] == html[i + 1..j];
    IndexOfUnique(s[1..], '>', n);
    assert s[1..1 + n] == html[i + 1..j];
    SkipSlice(html, i, 2 + n);
  }

  /**
   * A text run at `i`: everything up to the next `<` (or the end), trimmed; a
   * run of whitespace only gives no token.
   */
  lemma TextStep(html: string, i: nat, j: nat)
    requires i < j <= |html| && html[i] != '<'
    requires '<' !in html[i..j] && (j < |html| ==> html[j] == '<')
    ensures ScanStep(html[i..]) == TextAt(html[i..j], Skip(html, j))
  {
    var s := html[i..];
    assert s[..j - i] == html[i..j] && s[j - i..] == Skip(html, j);
    IndexOfUnique(s, '<', j - i);
  }

  /**
   * The inner loops of `tokenize`: advances from `from` to the first `c`, or
   * to the end of the input when there is none.
   */
  method ScanTo(html: string, from: nat, c: char) returns (j: nat)
    requires from <= |html|
    ensures from <= j <= |html| && c !in html[from..j]
    ensures j < |html| ==> html[j] == c
  {
    j := from;
    while j < |html| && html[j] != c
      invariant from <= j <= |html|
      invariant c !in html[from..j]
    {
      j := j + 1;
    }
  }

  /** `Parser::tokenize`. */
  method Tokenize(html: string) returns (r: Tokenized)
    ensures r == TokensOf(html)
  {
    var tokens: seq<Token> := [];
    var i: nat := 0;
    PrependNothing(TokensOf(html));
    assert Skip(html, 0) == html;
    while i < |html|
      invariant i <= |html| + 1
      invariant TokensOf(html) == Prepend(tokens, TokensOf(Skip(html, i)))
      decreases |html| + 1 - i
    {
      if html[i] == '<' && i + 1 == |html| {
        // `html.as_bytes()[i + 1]` reads past the end
        DanglingOpenPanics(html, tokens);
        return IndexOutOfBounds;
      }
      var emitted, next := ScanAt(html, i);
      Advance(html, i, tokens, emitted, next);
      tokens := tokens + emitted;
      i := next;
    }
    assert Skip(html, i) == [];
    assert tokens + [] == tokens;
    return Tokens(tokens);
  }

  /**
   * The body of `tokenize`'s outer loop at position `i`: an end tag, a start
   * tag or a text run, the tokens it emits and the position after it.
   */
  method ScanAt(html: string, i: nat) returns (emitted: seq<Token>, next: nat)
    requires i < |html| && (html[i] == '<' ==> i + 1 < |html|)
    ensures i < next <= |html| + 1
    ensures !ScanStep(html[i..]).Panic?
    ensures emitted == Emitted(ScanStep(html[i..])) && ScanStep(html[i..]).rest == Skip(html, next)
  {
    if html[i] == '<' {
      if html[i + 1] == '/' {
        var start := i + 2;
        var close := ScanTo(html, start, '>');
        EndTagStep(html, i, close);
        emitted, next := [EndTag(html[start..close])], close + 1;
      } else {
        var start := i + 1;
        var close := ScanTo(html, start, '>');
        StartTagStep(html, i, close);
        emitted, next := [StartTagOf(html[start..close])], close + 1;
      }
    } else {
      var start := i;
      var stop := ScanTo(html, start, '<');
      TextStep(html, start, stop);
      var text := Trim(html[start..stop]);
      if text != [] {
        emitted := [Text(text)];
      } else {
        emitted := [];
      }
      next := stop;
    }
  }

  lemma PrependNothing(r: Tokenized)
    ensures Prepend([], r) == r
  {
    if r.Tokens? {
      assert [] + r.tokens == r.tokens;
    }
  }

  /** A turn that starts at a `<` which is the last character ends the scan in the out-of-bounds panic. */
  lemma DanglingOpenPanics(html: string, done: seq<Token>)
    requires |html| > 0 && html[|html| - 1] == '<'
    ensures Prepend(done, TokensOf(Skip(html, |html| - 1))) == IndexOutOfBounds
  {
    assert Skip(html, |html| - 1) == ['<'];
  }

  /** The loop invariant carries over one turn of the outer loop. */
  lemma Advance(html: string, at: nat, done: seq<Token>, emitted: seq<Token>, i: nat)
    requires at < |html| && !ScanStep(html[at..]).Panic?
    requires emitted == Emitted(ScanStep(html[at..])) && ScanStep(html[at..]).rest == Skip(html, i)
    ensures Prepend(done, TokensOf(Skip(html, at))) == Prepend(done + emitted, TokensOf(Skip(html, i)))
  {
    PrependPrepend(done, emitted, TokensOf(Skip(html, i)));
  }

  // ---------------------------------------------------------------------------
  // What the scan promises
  // ---------------------------------------------------------------------------

  /**
   * What one turn finds: a panic only on a lone `<`; an end tag name and start
   * tag contents that stop before any `>`; a non-empty text run without `<`;
   * and the rest of the input after the `m` characters it consumed.
   */
  lemma ScanStepShape(s: string) returns (m: nat)
    requires s != []
    ensures ScanStep(s).Panic? <==> s == ['<']
    ensures ScanStep(s).EndTagAt? ==> '>' !in ScanStep(s).name
    ensures ScanStep(s).StartTagAt? ==> '>' !in ScanStep(s).contents
    ensures ScanStep(s).TextAt? ==> ScanStep(s).raw != [] && '<' !in ScanStep(s).raw
    ensures !ScanStep(s).Panic? ==> 0 < m && ScanStep(s).rest == Skip(s, m)
  {
    m := 0;
    if s[0] == '<' && |s| > 1 {
      if s[1] == '/' {
        var n := IndexOf(s[2..], '>');
        assert s[2..2 + n] == s[2..][..n];
        m := 3 + n;
      } else {
        var n := IndexOf(s[1..], '>');
        assert s[1..1 + n] == s[1..][..n];
        m := 2 + n;
      }
    } else if s[0] != '<' {
      m := IndexOf(s, '<');
    }
  }

  /**
   * The shape of every token the scan emits: a start tag name has no space
   * and no `>`, an end tag name has no `>`, and a text is non-empty, has no
   * `<`, and neither starts nor ends with whitespace.
   */
  predicate WellFormed(t: Token) {
    match t
    case StartTag(name, _) => ' ' !in name && '>' !in name
    case EndTag(name) => '>' !in name
    case Text(c) => c != [] && !IsWhitespace(c[0]) && !IsWhitespace(c[|c| - 1]) && '<' !in c
  }

  /** The tokens of one turn are well formed. */
  lemma EmittedWellFormed(s: string)
    requires s != [] && !ScanStep(s).Panic?
    ensures forall k :: 0 <= k < |Emitted(ScanStep(s))| ==> WellFormed(Emitted(ScanStep(s))[k])
  {
    var _ := ScanStepShape(s);
    StepWellFormed(ScanStep(s));
  }

  /** A turn whose boundaries exclude `>` from tag text and `<` from text emits well-formed tokens. */
  lemma StepWellFormed(st: Step)
    requires st.EndTagAt? ==> '>' !in st.name
    requires st.StartTagAt? ==> '>' !in st.contents
    requires st.TextAt? ==> '<' !in st.raw
    ensures forall k :: 0 <= k < |Emitted(st)| ==> WellFormed(Emitted(st)[k])
  {
    match st
    case EndTagAt(_, _) =>
    case StartTagAt(contents, _) => StartTagWellFormed(contents);
    case TextAt(raw, _) =>
      if Trim(raw) != [] {
        TextWellFormed(raw);
      }
    case Panic =>
  }

  /** A start tag read from contents without `>` has a well-formed name. */
  lemma StartTagWellFormed(contents: string)
    requires '>' !in contents
    ensures WellFormed(StartTagOf(contents))
  {
    var name := StartTagOf(contents).name;
    assert forall k :: 0 <= k < |name| ==> name[k] == contents[k];
  }

  /** Trimming text without `<` leaves text without `<`. */
  lemma TextWellFormed(raw: string)
    requires '<' !in raw && Trim(raw) != []
    ensures WellFormed(Text(Trim(raw)))
  {
    var text := Trim(raw);
    var a := TrimByInfix(raw, Whitespace);
    assert forall k :: 0 <= k < |text| ==> text[k] == raw[a + k];
  }

  /**
   * Every token of a successful scan is well formed, and there are at most
   * as many tokens as input characters.
   */
  lemma {:induction false} TokensWellFormed(s: string)
    ensures TokensOf(s).Tokens? ==> |TokensOf(s).tokens| <= |s|
    ensures TokensOf(s).Tokens? ==> forall k :: 0 <= k < |TokensOf(s).tokens| ==> WellFormed(TokensOf(s).tokens[k])
    decreases |s|
  {
    if s != [] && !ScanStep(s).Panic? {
      var st := ScanStep(s);
      TokensWellFormed(st.rest);
      EmittedWellFormed(s);
      if TokensOf(s).Tokens? {
        var ts := TokensOf(s).tokens;
        assert ts == Emitted(st) + TokensOf(st.rest).tokens;
        forall k | 0 <= k < |ts| ensures WellFormed(ts[k]) {
          if k >= |Emitted(st)| {
            assert ts[k] == TokensOf(st.rest).tokens[k - |Emitted(st)|];
          }
        }
      }
    }
  }

  /**
   * The scan panics exactly when the input ends with a `<` and every tag
   * before that `<` closes: only then does a turn start at the final `<`.
   */
  lemma PanicIffTrailingOpen(s: string)
    ensures TokensOf(s) == IndexOutOfBounds <==> s != [] && s[|s| - 1] == '<' && ClosedTags(s[..|s| - 1])
  {
    if s != [] && s[|s| - 1] == '<' && ClosedTags(s[..|s| - 1]) {
      SplitLast(s);
      ClosedThenOpenPanics(s[..|s| - 1]);
    }
    if TokensOf(s) == IndexOutOfBounds {
      PanicNeedsTrailingOpen(s);
    }
  }

  /** A `<` after input whose tags all close starts the last turn, which panics. */
  lemma ClosedThenOpenPanics(front: string)
    requires ClosedTags(front)
    ensures TokensOf(front + "<") == IndexOutOfBounds
  {
    TokensAppend(front, "<");
    assert TokensOf("<") == IndexOutOfBounds;
  }

  /**
   * The scan panics only when the input ends with `<` and every tag before it
   * closes: a tag that finds no `>` swallows the rest of the input, after
   * which no turn is left to panic.
   */
  lemma {:induction false} PanicNeedsTrailingOpen(s: string)
    requires TokensOf(s) == IndexOutOfBounds
    ensures s != [] && s[|s| - 1] == '<' && ClosedTags(s[..|s| - 1])
    decreases |s|
  {
    var _ := ScanStepShape(s);
    if !ScanStep(s).Panic? {
      var rest := ScanStep(s).rest;
      PanicNeedsTrailingOpen(rest);
      var m := FrontCloses(s);
      ClosedTagsBefore(s, m);
    }
  }

  /**
   * When every `<` of `s` before index `m` is closed by the `>` at `m - 1`,
   * and every tag of `s[m..]` but its last character closes, so does every
   * tag of `s` but its last character.
   */
  lemma ClosedTagsBefore(s: string, m: nat)
    requires 0 < m < |s| && ClosedTags(s[m..][..|s| - m - 1])
    requires forall p :: 0 <= p < m && s[p] == '<' ==> p < m - 1 && s[m - 1] == '>'
    ensures ClosedTags(s[..|s| - 1])
  {
    var q, rq := s[..|s| - 1], s[m..][..|s| - m - 1];
    assert rq == q[m..];
    forall p | 0 <= p < |q| && q[p] == '<'
      ensures '>' in q[p + 1..]
    {
      if p < m {
        assert q[p + 1..][m - 2 - p] == '>';
      } else {
        assert rq[p - m] == '<';
        assert rq[p - m + 1..] == q[p + 1..];
      }
    }
  }

  /**
   * A turn followed by more input ends right after the construct it read, and
   * every `<` of that construct is closed by its final `>`.
   */
  lemma FrontCloses(s: string) returns (m: nat)
    requires s != [] && !ScanStep(s).Panic? && ScanStep(s).rest != []
    ensures 0 < m < |s| && ScanStep(s).rest == s[m..]
    ensures forall p :: 0 <= p < m && s[p] == '<' ==> p < m - 1 && s[m - 1] == '>'
  {
    if s[0] == '<' && s[1] == '/' {
      var n := IndexOf(s[2..], '>');
      m := 3 + n;
      assert s[2..][n] == '>';
    } else if s[0] == '<' {
      var n := IndexOf(s[1..], '>');
      m := 2 + n;
      assert s[1..][n] == '>';
    } else {
      m := IndexOf(s, '<');
      forall p | 0 <= p < m
        ensures s[p] != '<'
      {
        assert s[..m][p] == s[p];
      }
    }
  }

  /**
   * A `<` right after a `>` (or alone) at the end of the input always makes
   * the scan panic: the final `>` closes every tag before it.
   */
  lemma TrailingOpenPanics(s: string)
    requires s != [] && s[|s| - 1] == '<'
    requires |s| == 1 || s[|s| - 2] == '>'
    ensures TokensOf(s) == IndexOutOfBounds
  {
    var q := s[..|s| - 1];
    forall p | 0 <= p < |q| && q[p] == '<'
      ensures '>' in q[p + 1..]
    {
      assert q[p + 1..][|q| - 2 - p] == '>';
    }
    PanicIffTrailingOpen(s);
  }

  // ---------------------------------------------------------------------------
  // The scan, construct by construct
  // ---------------------------------------------------------------------------

  /** An opening tag at the front: `<`, contents up to the first `>`, then the rest. */
  lemma StartTagFirst(contents: string, rest: string)
    requires '>' !in contents && (contents == [] || contents[0] != '/')
    ensures TokensOf("<" + contents + ">" + rest) == Prepend([StartTagOf(contents)], TokensOf(rest))
  {
    var s := "<" + contents + ">" + rest;
    var j := 1 + |contents|;
    assert ScanStep(s) == StartTagAt(contents, rest) by {
      assert s[0..] == s && s[1..j] == contents && s[j] == '>';
      assert Skip(s, j + 1) == rest;
      StartTagStep(s, 0, j);
    }
  }

  /** A closing tag at the front: `</`, the name up to the first `>`, then the rest. */
  lemma EndTagFirst(name: string, rest: string)
    requires '>' !in name
    ensures TokensOf("</" + name + ">" + rest) == Prepend([EndTag(name)], TokensOf(rest))
  {
    var s := "</" + name + ">" + rest;
    var j := 2 + |name|;
    assert ScanStep(s) == EndTagAt(name, rest) by {
      assert s[0..] == s && s[2..j] == name && s[j] == '>';
      assert Skip(s, j + 1) == rest;
      EndTagStep(s, 0, j);
    }
  }

  /** A text run at the front, up to the next `<`: one trimmed token unless it is blank. */
  lemma TextFirst(raw: string, rest: string)
    requires raw != [] && '<' !in raw && (rest == [] || rest[0] == '<')
    ensures var text := Trim(raw);
      TokensOf(raw + rest) == Prepend(if text == [] then [] else [Text(text)], TokensOf(rest))
  {
    var s := raw + rest;
    var j := |raw|;
    assert ScanStep(s) == TextAt(raw, rest) by {
      assert s[0..] == s && s[0..j] == raw;
      assert Skip(s, j) == rest;
      TextStep(s, 0, j);
    }
  }

  /** Every `<` in `s` is followed, later in `s`, by a `>`: no tag runs past the end. */
  predicate ClosedTags(s: string) {
    forall p :: 0 <= p < |s| && s[p] == '<' ==> '>' in s[p + 1..]
  }

  /** The first `c` in `a + b` is the first in `a`, or else the first in `b` shifted by `|a|`. */
  lemma IndexOfAppend(a: string, b: string, c: char)
    ensures IndexOf(a + b, c) == if IndexOf(a, c) < |a| then IndexOf(a, c) else |a| + IndexOf(b, c)
  {
    var k := IndexOf(a, c);
    if k < |a| {
      assert (a + b)[..k] == a[..k];
      IndexOfUnique(a + b, c, k);
    } else {
      var j := IndexOf(b, c);
      assert a[..k] == a;
      assert (a + b)[..|a| + j] == a + b[..j];
      IndexOfUnique(a + b, c, |a| + j);
    }
  }

  /** A `c` somewhere in `s` is found before the end. */
  lemma IndexOfPresent(s: string, c: char)
    requires c in s
    ensures IndexOf(s, c) < |s|
  {
  }

  /** The turn on `a + b` finds the tag that closes inside `a` at `j`. */
  lemma TagStepAppend(a: string, b: string, j: nat)
    requires 1 < |a| && a[0] == '<' && j < |a| && a[j] == '>'
    requires if a[1] == '/' then 2 <= j && '>' !in a[2..j] else 1 <= j && '>' !in a[1..j]
    ensures !ScanStep(a).Panic? && ScanStep(a + b) == ScanStep(a).(rest := ScanStep(a).rest + b)
    ensures ScanStep(a).rest == a[j + 1..]
  {
    var s := a + b;
    assert s[0..] == s && a[0..] == a;
    assert s[j] == '>' && s[1] == a[1];
    assert s[j + 1..] == a[j + 1..] + b;
    if a[1] == '/' {
      assert s[2..j] == a[2..j];
      EndTagStep(s, 0, j);
      EndTagStep(a, 0, j);
    } else {
      assert s[1..j] == a[1..j];
      StartTagStep(s, 0, j);
      StartTagStep(a, 0, j);
    }
  }

  /** The turn on `a + b` reads the same text run as on `a` when `b` starts a tag. */
  lemma TextStepAppend(a: string, b: string, j: nat)
    requires 0 < j <= |a| && a[0] != '<' && '<' !in a[..j] && (j < |a| ==> a[j] == '<')
    requires b == [] || b[0] == '<'
    ensures !ScanStep(a).Panic? && ScanStep(a + b) == ScanStep(a).(rest := ScanStep(a).rest + b)
    ensures ScanStep(a).rest == a[j..]
  {
    var s := a + b;
    assert s[0..] == s && a[0..] == a;
    assert s[0..j] == a[..j] && a[0..j] == a[..j];
    assert j < |s| ==> s[j] == '<';
    assert s[j..] == a[j..] + b;
    TextStep(s, 0, j);
    TextStep(a, 0, j);
  }

  /**
   * When every tag of `a` closes inside `a` and `b` starts a new construct,
   * the first turn on `a + b` is the first turn on `a`, with `b` added to what
   * is left.
   */
  lemma ScanStepAppend(a: string, b: string)
    requires a != [] && ClosedTags(a) && (b == [] || b[0] == '<')
    ensures !ScanStep(a).Panic? && ScanStep(a + b) == ScanStep(a).(rest := ScanStep(a).rest + b)
    ensures ClosedTags(ScanStep(a).rest)
  {
    if a[0] == '<' {
      var j := ClosingBracket(a);
      TagStepAppend(a, b, j);
      ClosedTagsSuffix(a, j + 1);
    } else {
      var j := IndexOf(a, '<');
      if b != [] {
        assert IndexOf(b, '<') == 0;
      }
      TextStepAppend(a, b, j);
      ClosedTagsSuffix(a, j);
    }
  }

  /** Where the tag at the front of `a` closes, when every tag of `a` closes. */
  lemma ClosingBracket(a: string) returns (j: nat)
    requires a != [] && a[0] == '<' && ClosedTags(a)
    ensures 1 < |a| && j < |a| && a[j] == '>'
    ensures if a[1] == '/' then 2 <= j && '>' !in a[2..j] else 1 <= j && '>' !in a[1..j]
  {
    assert '>' in a[1..];
    var k := 1;
    if a[1] == '/' {
      assert '>' in a[2..] by {
        var q :| 0 <= q < |a[1..]| && a[1..][q] == '>';
        assert a[2..][q - 1] == '>';
      }
      k := 2;
    }
    IndexOfPresent(a[k..], '>');
    j := k + IndexOf(a[k..], '>');
    assert a[k..j] == a[k..][..j - k];
  }

  /** Every suffix of a string whose tags close is one too. */
  lemma ClosedTagsSuffix(a: string, m: nat)
    requires ClosedTags(a) && m <= |a|
    ensures ClosedTags(a[m..])
  {
    forall p | 0 <= p < |a[m..]| && a[m..][p] == '<' ensures '>' in a[m..][p + 1..] {
      assert a[m..][p + 1..] == a[m + p + 1..];
    }
  }

  /** Joins two scan outcomes; a panic in either is a panic. */
  function Concat(x: Tokenized, y: Tokenized): Tokenized {
    match x
    case Tokens(ts) => Prepend(ts, y)
    case IndexOutOfBounds => IndexOutOfBounds
  }

  /**
   * Scanning distributes over a boundary between complete constructs: when
   * every tag of `a` closes inside `a` and `b` is empty or starts with `<`,
   * the tokens of `a + b` are those of `a` followed by those of `b`.
   */
  lemma {:induction false} TokensAppend(a: string, b: string)
    requires ClosedTags(a) && (b == [] || b[0] == '<')
    ensures TokensOf(a).Tokens?
    ensures TokensOf(a + b) == Concat(TokensOf(a), TokensOf(b))
    decreases |a|
  {
    if a == [] {
      assert a + b == b;
      PrependNothing(TokensOf(b));
    } else {
      ScanStepAppend(a, b);
      var st := ScanStep(a);
      TokensAppend(st.rest, b);
      PrependPrepend(Emitted(st), TokensOf(st.rest).tokens, TokensOf(b));
    }
  }

  /**
   * An element holding one text: the start tag with no attributes, the text,
   * and the end tag.
   */
  lemma ElementWithText(name: string, text: string)
    requires ' ' !in name && '>' !in name && (name == [] || name[0] != '/')
    requires text != [] && '<' !in text && !IsWhitespace(text[0]) && !IsWhitespace(text[|text| - 1])
    ensures TokensOf("<" + name + ">" + (text + ("</" + name + ">")))
      == Tokens([StartTag(name, map[]), Text(text), EndTag(name)])
  {
    assert StartTagOf(name) == StartTag(name, map[]);
    TaggedText(name, name, text);
  }

  /**
   * Start-tag contents, a text and a closing tag: the start tag those contents
   * make, the text, and the end tag.
   */
  lemma TaggedText(contents: string, name: string, text: string)
    requires '>' !in contents && (contents == [] || contents[0] != '/') && '>' !in name
    requires text != [] && '<' !in text && !IsWhitespace(text[0]) && !IsWhitespace(text[|text| - 1])
    ensures TokensOf("<" + contents + ">" + (text + ("</" + name + ">")))
      == Tokens([StartTagOf(contents), Text(text), EndTag(name)])
  {
    var tail := text + ("</" + name + ">");
    TextThenClose(text, name);
    StartTagFirst(contents, tail);
    ConsPair(StartTagOf(contents), Text(text), EndTag(name));
  }

  /** A text followed by a closing tag: the text, kept whole, then the end tag. */
  lemma TextThenClose(text: string, name: string)
    requires '>' !in name
    requires text != [] && '<' !in text && !IsWhitespace(text[0]) && !IsWhitespace(text[|text| - 1])
    ensures TokensOf(text + ("</" + name + ">")) == Tokens([Text(text), EndTag(name)])
  {
    LoneEndTag(name);
    TrimmedTextFirst(text, "</" + name + ">");
    ConsSingle(Text(text), EndTag(name));
  }

  /** A document that is one closing tag. */
  lemma LoneEndTag(name: string)
    requires '>' !in name
    ensures TokensOf("</" + name + ">") == Tokens([EndTag(name)])
  {
    var close := "</" + name + ">";
    AppendNil(close);
    EndTagFirst(name, []);
    assert TokensOf([]) == Tokens([]);
    AppendNil([EndTag(name)]);
  }

  /** A document that is a single start tag. */
  lemma LoneStartTag(contents: string)
    requires '>' !in contents && (contents == [] || contents[0] != '/')
    ensures TokensOf("<" + contents + ">") == Tokens([StartTagOf(contents)])
  {
    var html := "<" + contents + ">";
    AppendNil(html);
    StartTagFirst(contents, []);
    assert TokensOf([]) == Tokens([]);
    AppendNil([StartTagOf(contents)]);
  }

  /** A text without surrounding whitespace at the front is one token, kept whole. */
  lemma TrimmedTextFirst(text: string, rest: string)
    requires text != [] && '<' !in text && !IsWhitespace(text[0]) && !IsWhitespace(text[|text| - 1])
    requires rest == [] || rest[0] == '<'
    ensures TokensOf(text + rest) == Prepend([Text(text)], TokensOf(rest))
  {
    TrimByUntouched(text, Whitespace);
    TextFirst(text, rest);
  }

  /** Complete content followed by a closing tag. */
  lemma ClosedBy(body: string, name: string)
    requires '>' !in name && ClosedTags(body)
    ensures TokensOf(body).Tokens?
    ensures TokensOf(body + ("</" + name + ">")) == Tokens(TokensOf(body).tokens + [EndTag(name)])
  {
    LoneEndTag(name);
    TokensAppend(body, "</" + name + ">");
  }

  /**
   * An element around complete content: its start tag, the content's tokens
   * in order, and its end tag.
   */
  lemma ElementAround(name: string, body: string)
    requires ' ' !in name && '>' !in name && (name == [] || name[0] != '/')
    requires ClosedTags(body)
    ensures TokensOf(body).Tokens?
    ensures TokensOf("<" + name + ">" + (body + ("</" + name + ">")))
      == Tokens([StartTag(name, map[])] + TokensOf(body).tokens + [EndTag(name)])
  {
    ClosedBy(body, name);
    StartTagFirst(name, body + ("</" + name + ">"));
    assert StartTagOf(name) == StartTag(name, map[]);
    AppendAssoc([StartTag(name, map[])], TokensOf(body).tokens, [EndTag(name)]);
  }

  lemma SplitLast<T>(s: seq<T>)
    requires s != []
    ensures s == s[..|s| - 1] + [s[|s| - 1]]
  {
  }

  lemma SnocPair<T>(a: T, b: T, c: T)
    ensures [a, b] + [c] == [a, b, c]
  {
  }

  lemma NilAppend<T>(x: seq<T>)
    ensures [] + x == x
  {
  }

  lemma AppendNil<T>(x: seq<T>)
    ensures x + [] == x
  {
  }

  lemma ConsSingle<T>(a: T, b: T)
    ensures [a] + [b] == [a, b]
  {
  }

  lemma ConsPair<T>(a: T, b: T, c: T)
    ensures [a] + [b, c] == [a, b, c]
  {
  }

  lemma AppendAssoc<T>(x: seq<T>, y: seq<T>, z: seq<T>)
    ensures x + (y + z) == x + y + z
  {
  }
}
