/**
 * The string and collection primitives the scanner, the selector and the
 * cookie parser are built from: Rust's `char::is_whitespace`, `trim`,
 * `trim_matches`, `find`, `split_once`, `split_whitespace`, `join` and
 * `HashMap::from_iter`, on strings modelled as `seq<char>`.
 */
module Strings {
  import opened Wrappers

  /** `char::is_whitespace`: the code points with the Unicode White_Space property. */
  predicate IsWhitespace(c: char) {
    ('\t' <= c <= '\r') || c == ' ' || c == '\U{0085}' || c == '\U{00A0}' || c == '\U{1680}'
    || ('\U{2000}' <= c <= '\U{200A}') || c == '\U{2028}' || c == '\U{2029}'
    || c == '\U{202F}' || c == '\U{205F}' || c == '\U{3000}'
  }

  /**
   * The character classes the core strips with `trim` and `trim_matches`:
   * whitespace, or the two quote characters.
   */
  datatype CharPattern = Whitespace | Quote

  predicate Accepts(p: CharPattern, c: char) {
    match p
    case Whitespace => IsWhitespace(c)
    case Quote => c == '"' || c == '\''
  }

  /** Whether no character of `s` is whitespace. */
  predicate NoWhitespace(s: string) {
    forall i :: 0 <= i < |s| ==> !IsWhitespace(s[i])
  }

  /** The length of the longest prefix of `s` that `p` accepts: the run `trim_start_matches` removes. */
  function Span(s: string, p: CharPattern): (k: nat)
    ensures k <= |s|
    ensures forall i :: 0 <= i < k ==> Accepts(p, s[i])
    ensures k < |s| ==> !Accepts(p, s[k])
    decreases |s|
  {
    if s == [] || !Accepts(p, s[0]) then 0 else 1 + Span(s[1..], p)
  }

  /** The length of the longest suffix of `s` whose characters `p` accepts. */
  function SpanBack(s: string, p: CharPattern): (k: nat)
    ensures k <= |s|
    ensures forall i :: |s| - k <= i < |s| ==> Accepts(p, s[i])
    ensures k < |s| ==> !Accepts(p, s[|s| - 1 - k])
    decreases |s|
  {
    if s == [] || !Accepts(p, s[|s| - 1]) then 0 else 1 + SpanBack(s[..|s| - 1], p)
  }

  /**
   * `str::trim_matches` with a character pattern: `s` without its leading and
   * trailing characters that `strip` accepts.
   */
  function TrimBy(s: string, strip: CharPattern): (r: string)
    ensures r == [] || (!Accepts(strip, r[0]) && !Accepts(strip, r[|r| - 1]))
    ensures r == [] <==> forall i :: 0 <= i < |s| ==> Accepts(strip, s[i])
  {
    var a := Span(s, strip);
    var t := s[a..];
    t[..|t| - SpanBack(t, strip)]
  }

  /** A string that neither starts nor ends with a stripped character is its own trim. */
  lemma TrimByUntouched(s: string, strip: CharPattern)
    requires s == [] || (!Accepts(strip, s[0]) && !Accepts(strip, s[|s| - 1]))
    ensures TrimBy(s, strip) == s
  {
    assert Span(s, strip) == 0 && s[0..] == s;
    assert s == [] || SpanBack(s, strip) == 0;
  }

  /** Stripping quotes from a double-quoted value without quotes at its ends gives the value. */
  lemma UnquoteDoubleQuoted(v: string)
    requires v != [] && !Accepts(Quote, v[0]) && !Accepts(Quote, v[|v| - 1])
    ensures TrimBy("\"" + v + "\"", Quote) == v
  {
    var s := "\"" + v + "\"";
    assert s[1..] == v + "\"";
    assert Span(s[1..], Quote) == 0;
    var t := s[1..];
    assert t[..|t| - 1] == v;
    assert SpanBack(t[..|t| - 1], Quote) == 0;
  }

  /**
   * What trimming keeps is the piece of the original between index `a` and
   * `a + |TrimBy(s, strip)|`, and what it drops on either side is made only of
   * characters `strip` accepts.
   */
  lemma TrimByInfix(s: string, strip: CharPattern) returns (a: nat)
    ensures a + |TrimBy(s, strip)| <= |s|
    ensures TrimBy(s, strip) == s[a..a + |TrimBy(s, strip)|]
    ensures forall i :: 0 <= i < a ==> Accepts(strip, s[i])
    ensures forall i :: a + |TrimBy(s, strip)| <= i < |s| ==> Accepts(strip, s[i])
  {
    a := Span(s, strip);
    var t := s[a..];
    var n := |t| - SpanBack(t, strip);
    assert TrimBy(s, strip) == t[..n];
    SuffixAccepted(s, a, n, strip);
  }

  /** The trailing run `SpanBack` finds in `s[a..]`, read back in `s`. */
  lemma SuffixAccepted(s: string, a: nat, n: nat, strip: CharPattern)
    requires a <= |s| && n == |s[a..]| - SpanBack(s[a..], strip)
    ensures s[a..][..n] == s[a..a + n]
    ensures forall i :: a + n <= i < |s| ==> Accepts(strip, s[i])
  {
    var t := s[a..];
    forall i | a + n <= i < |s|
      ensures Accepts(strip, s[i])
    {
      assert s[i] == t[i - a];
    }
  }

  /** Trimming keeps a word free of whitespace. */
  lemma NoWhitespaceTrimBy(s: string, strip: CharPattern)
    requires NoWhitespace(s)
    ensures NoWhitespace(TrimBy(s, strip))
  {
    var r := TrimBy(s, strip);
    var a := TrimByInfix(s, strip);
    assert forall j :: 0 <= j < |r| ==> r[j] == s[a + j];
  }

  /** `str::trim`. */
  function Trim(s: string): (r: string)
    ensures r == [] || (!IsWhitespace(r[0]) && !IsWhitespace(r[|r| - 1]))
    ensures r == [] <==> forall i :: 0 <= i < |s| ==> IsWhitespace(s[i])
  {
    TrimBy(s, Whitespace)
  }

  /** The index of the first `c` in `s`, or `|s|` when `c` does not occur. */
  function IndexOf(s: string, c: char): (k: nat)
    ensures k <= |s| && c !in s[..k]
    ensures k < |s| ==> s[k] == c
    decreases |s|
  {
    if s == [] || s[0] == c then 0
    else
      var k := 1 + IndexOf(s[1..], c);
      assert s[..k] == [s[0]] + s[1..][..k - 1];
      k
  }

  /** `IndexOf` is the only index with its two defining properties. */
  lemma IndexOfUnique(s: string, c: char, k: nat)
    requires k <= |s| && c !in s[..k]
    requires k < |s| ==> s[k] == c
    ensures IndexOf(s, c) == k
  {
  }

  /** `str::split_once`: the text before and after the first `c`, if any. */
  function SplitOnce(s: string, c: char): (r: Option<(string, string)>)
    ensures r.None? <==> c !in s
    ensures r.Some? ==> s == r.value.0 + [c] + r.value.1 && c !in r.value.0
  {
    var k := IndexOf(s, c);
    assert k == |s| ==> s[..k] == s;
    if k < |s| then
      assert s == s[..k] + [c] + s[k + 1..];
      Some((s[..k], s[k + 1..]))
    else None
  }

  /** The length of the first word of `s`: its longest prefix without whitespace. */
  function WordLength(s: string): (k: nat)
    ensures k <= |s| && NoWhitespace(s[..k])
    ensures k < |s| ==> IsWhitespace(s[k])
    decreases |s|
  {
    if s == [] || IsWhitespace(s[0]) then 0
    else
      var k := 1 + WordLength(s[1..]);
      assert s[..k] == [s[0]] + s[1..][..k - 1];
      k
  }

  /** A word that ends inside `a` is unaffected by what follows `a`; one that covers `a` continues into `b`. */
  lemma {:induction false} WordLengthAppend(a: string, b: string)
    ensures WordLength(a + b) == if WordLength(a) < |a| then WordLength(a) else |a| + WordLength(b)
    decreases |a|
  {
    if a == [] {
      assert a + b == b;
    } else if !IsWhitespace(a[0]) {
      assert (a + b)[1..] == a[1..] + b;
      WordLengthAppend(a[1..], b);
    }
  }

  /** `str::split_whitespace`: the maximal runs of non-whitespace characters, in order. */
  function SplitWhitespace(s: string): (parts: seq<string>)
    ensures forall i :: 0 <= i < |parts| ==> parts[i] != [] && NoWhitespace(parts[i])
    decreases |s|
  {
    if s == [] then []
    else if IsWhitespace(s[0]) then SplitWhitespace(s[1..])
    else
      var k := WordLength(s);
      [s[..k]] + SplitWhitespace(s[k..])
  }

  /** Leading whitespace does not change the split. */
  lemma {:induction false} SplitWhitespaceSkipsLeading(x: string, y: string)
    requires forall i :: 0 <= i < |x| ==> IsWhitespace(x[i])
    ensures SplitWhitespace(x + y) == SplitWhitespace(y)
    decreases |x|
  {
    if x == [] {
      assert x + y == y;
    } else {
      assert (x + y)[1..] == x[1..] + y;
      SplitWhitespaceSkipsLeading(x[1..], y);
    }
  }

  /** The first word of a word is all of it. */
  lemma {:induction false} WordLengthOfWord(w: string)
    requires NoWhitespace(w)
    ensures WordLength(w) == |w|
    decreases |w|
  {
    if w != [] {
      assert NoWhitespace(w[1..]) by {
        forall j | 0 <= j < |w| - 1 ensures !IsWhitespace(w[1..][j]) {
          assert w[1..][j] == w[j + 1];
        }
      }
      WordLengthOfWord(w[1..]);
    }
  }

  /** A single word splits to itself. */
  lemma {:induction false} SplitWhitespaceOfWord(w: string)
    requires w != [] && NoWhitespace(w)
    ensures SplitWhitespace(w) == [w]
  {
    WordLengthOfWord(w);
    assert w[..|w|] == w && w[|w|..] == [];
  }

  /** A word followed by a separator splits off as one part. */
  lemma WordBeforeSeparator(a: string, c: char, b: string)
    requires a != [] && IsWhitespace(c) && NoWhitespace(a)
    ensures SplitWhitespace(a + [c] + b) == [a] + SplitWhitespace(b)
  {
    var s := a + [c] + b;
    assert s == a + ([c] + b);
    WordLengthOfWord(a);
    WordLengthAppend(a, [c] + b);
    assert s[..|a|] == a;
    assert s[|a|..] == [c] + b && s[|a|..][1..] == b;
  }

  /** A word that ends before the separator splits off unchanged. */
  lemma WordBeforeRest(a: string, c: char, b: string)
    requires a != [] && !IsWhitespace(a[0]) && WordLength(a) < |a|
    ensures var k := WordLength(a);
      SplitWhitespace(a + [c] + b) == [a[..k]] + SplitWhitespace(a[k..] + [c] + b)
  {
    var s := a + [c] + b;
    var k := WordLength(a);
    assert s == a + ([c] + b);
    WordLengthAppend(a, [c] + b);
    assert s[..k] == a[..k] && s[k..] == a[k..] + [c] + b;
  }

  /** Leading whitespace is skipped both in `a` and in `a` followed by more text. */
  lemma SkipSpaceBeforeRest(a: string, c: char, b: string)
    requires a != [] && IsWhitespace(a[0])
    ensures SplitWhitespace(a + [c] + b) == SplitWhitespace(a[1..] + [c] + b)
    ensures SplitWhitespace(a) == SplitWhitespace(a[1..])
  {
    assert (a + [c] + b)[1..] == a[1..] + [c] + b;
  }

  /** Splitting distributes over a whitespace separator. */
  lemma {:induction false} SplitWhitespaceAppend(a: string, c: char, b: string)
    requires IsWhitespace(c)
    ensures SplitWhitespace(a + [c] + b) == SplitWhitespace(a) + SplitWhitespace(b)
    decreases |a|
  {
    var s := a + [c] + b;
    if a == [] {
      assert s == [c] + b && s[1..] == b;
    } else if IsWhitespace(a[0]) {
      SkipSpaceBeforeRest(a, c, b);
      SplitWhitespaceAppend(a[1..], c, b);
    } else if WordLength(a) < |a| {
      WordBeforeRest(a, c, b);
      SplitWhitespaceAppend(a[WordLength(a)..], c, b);
    } else {
      assert a[..|a|] == a;
      SplitWhitespaceOfWord(a);
      WordBeforeSeparator(a, c, b);
    }
  }

  /** `[T]::join`: the parts with `sep` between neighbours. */
  function Join(parts: seq<string>, sep: string): (r: string)
    ensures parts == [] ==> r == []
    ensures |parts| == 1 ==> r == parts[0]
    ensures parts != [] ==> |r| == Lengths(parts) + (|parts| - 1) * |sep|
  {
    if parts == [] then []
    else if |parts| == 1 then parts[0]
    else parts[0] + sep + Join(parts[1..], sep)
  }

  /** The sum of the lengths of `parts`. */
  function Lengths(parts: seq<string>): nat {
    if parts == [] then 0 else |parts[0]| + Lengths(parts[1..])
  }

  /** Joining one more part appends the separator and that part. */
  lemma {:induction false} JoinSnoc(parts: seq<string>, x: string, sep: string)
    requires parts != []
    ensures Join(parts + [x], sep) == Join(parts, sep) + sep + x
    decreases |parts|
  {
    if |parts| == 1 {
      assert parts + [x] == [parts[0], x];
    } else {
      assert (parts + [x])[1..] == parts[1..] + [x];
      JoinSnoc(parts[1..], x, sep);
    }
  }

  /** Words joined by single spaces split back into the same words. */
  lemma {:induction false} SplitJoinRoundTrip(words: seq<string>)
    requires forall i :: 0 <= i < |words| ==> words[i] != [] && NoWhitespace(words[i])
    ensures SplitWhitespace(Join(words, " ")) == words
    decreases |words|
  {
    if words == [] {
    } else if |words| == 1 {
      SplitWhitespaceOfWord(words[0]);
    } else {
      assert forall i :: 0 <= i < |words| - 1 ==> words[1..][i] == words[i + 1];
      SplitWhitespaceAppend(words[0], ' ', Join(words[1..], " "));
      assert Join(words, " ") == words[0] + [' '] + Join(words[1..], " ");
      SplitWhitespaceOfWord(words[0]);
      SplitJoinRoundTrip(words[1..]);
    }
  }

  /**
   * `HashMap::from_iter`: inserts the pairs in order, so a later pair
   * overwrites an earlier pair with the same key.
   */
  function ToMap(pairs: seq<(string, string)>): (r: map<string, string>)
    ensures |r| <= |pairs|
    ensures r == map[] <==> pairs == []
    decreases |pairs|
  {
    if pairs == [] then map[]
    else ToMap(pairs[..|pairs| - 1])[pairs[|pairs| - 1].0 := pairs[|pairs| - 1].1]
  }

  lemma ToMapSnoc(pairs: seq<(string, string)>, kv: (string, string))
    ensures ToMap(pairs + [kv]) == ToMap(pairs)[kv.0 := kv.1]
  {
    assert (pairs + [kv])[..|pairs|] == pairs;
  }

  /** A key is present exactly when some pair carries it. */
  lemma {:induction false} ToMapKeys(pairs: seq<(string, string)>, k: string)
    ensures k in ToMap(pairs) <==> exists i :: 0 <= i < |pairs| && pairs[i].0 == k
    decreases |pairs|
  {
    if pairs != [] {
      var init := pairs[..|pairs| - 1];
      ToMapKeys(init, k);
      assert forall i :: 0 <= i < |init| ==> init[i] == pairs[i];
    }
  }

  /** The value stored under a key is that of the last pair with that key. */
  lemma {:induction false} ToMapLastWins(pairs: seq<(string, string)>, i: nat)
    requires i < |pairs|
    requires forall j :: i < j < |pairs| ==> pairs[j].0 != pairs[i].0
    ensures pairs[i].0 in ToMap(pairs) && ToMap(pairs)[pairs[i].0] == pairs[i].1
    decreases |pairs|
  {
    if i < |pairs| - 1 {
      var init := pairs[..|pairs| - 1];
      assert init[i] == pairs[i];
      ToMapLastWins(init, i);
    }
  }
}
