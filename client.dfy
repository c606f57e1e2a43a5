/**
 * `parse_cookie`: the name and value of a cookie, read from the value of a
 * `Set-Cookie` response header. The header value arrives as bytes; only a
 * value made of visible ASCII is read as text.
 */
module Cookies {
  import opened Wrappers
  import opened Strings

  newtype byte = b: int | 0 <= b < 256

  /** The bytes `HeaderValue::to_str` accepts: tab and visible ASCII. */
  predicate IsVisible(b: byte) {
    b == 9 || 32 <= b < 127
  }

  /** `HeaderValue::to_str`: the value as text when every byte is visible, else an error. */
  function ToStr(value: seq<byte>): (r: Option<string>)
    ensures r.Some? <==> forall i :: 0 <= i < |value| ==> IsVisible(value[i])
    ensures r.Some? ==> |r.value| == |value| && forall i :: 0 <= i < |value| ==> r.value[i] == value[i] as int as char
  {
    if forall i :: 0 <= i < |value| ==> IsVisible(value[i])
    then Some(seq(|value|, i requires 0 <= i < |value| => value[i] as int as char))
    else None
  }

  /** `str::splitn(2, c)`: the text before and after the first `c`, or the whole text when there is none. */
  function SplitN2(s: string, c: char): (parts: seq<string>)
    ensures |parts| == 2 <==> c in s
    ensures |parts| == 1 <==> c !in s
  {
    match SplitOnce(s, c)
    case None => [s]
    case Some((before, after)) => [before, after]
  }

  /**
   * `split(c).next()`: the first piece, the text before the first `c`; a
   * split always has one. It is the longest prefix without `c`.
   */
  function SplitFirst(s: string, c: char): (r: Option<string>)
    ensures r.Some? && r.value <= s && c !in r.value
    ensures |r.value| < |s| ==> s[|r.value|] == c
  {
    Some(s[..IndexOf(s, c)])
  }

  /**
   * `parse_cookie`: nothing unless the header is text; then the cookie of
   * that text.
   */
  function ParseCookie(header: seq<byte>): (r: Option<(string, string)>)
    ensures r.None? <==> ToStr(header).None? || '=' !in ToStr(header).value
  {
    match ToStr(header)
    case None => None
    case Some(cookie) => CookieOfText(cookie)
  }

  /**
   * The cookie of a header's text: nothing unless it has an `=`; otherwise
   * the trimmed text before the first `=`, and the trimmed text after it up
   * to the first `;`.
   */
  function CookieOfText(cookie: string): (r: Option<(string, string)>)
    ensures r.None? <==> '=' !in cookie
  {
    var parts := SplitN2(cookie, '=');
    if |parts| == 2 then
      match SplitFirst(parts[1], ';')
      case None => None
      case Some(value) => Some((Trim(parts[0]), Trim(value)))
    else None
  }

  // ---------------------------------------------------------------------------
  // Properties
  // ---------------------------------------------------------------------------

  /**
   * The cookie of a text `name=value` followed by nothing or by
   * `;`-separated attributes: `name` is the text before the first `=` and
   * `value` the text after it up to the first `;`, each trimmed. `value` may
   * itself hold `=`, and whatever the attributes say is ignored.
   */
  lemma CookieFields(name: string, value: string, attributes: string)
    requires '=' !in name && ';' !in value
    requires attributes == [] || attributes[0] == ';'
    ensures CookieOfText(name + "=" + value + attributes) == Some((Trim(name), Trim(value)))
  {
    var cookie := name + "=" + value + attributes;
    var rest := value + attributes;
    assert cookie == name + ['='] + rest;
    IndexOfUnique(cookie, '=', |name|);
    assert cookie[..|name|] == name && cookie[|name| + 1..] == rest;
    assert rest[..|value|] == value;
    IndexOfUnique(rest, ';', |value|);
  }

  /** Every cookie found has a name without `=` and a value without `;`, both trimmed. */
  lemma CookieClean(header: seq<byte>)
    requires ParseCookie(header).Some?
    ensures var (name, value) := ParseCookie(header).value;
      '=' !in name && ';' !in value
      && Trim(name) == name && Trim(value) == value
  {
    var cookie := ToStr(header).value;
    var (before, after) := SplitOnce(cookie, '=').value;
    var piece := after[..IndexOf(after, ';')];
    assert ParseCookie(header).value == (Trim(before), Trim(piece));
    TrimKeepsOut(before, '=');
    TrimKeepsOut(piece, ';');
    TrimByUntouched(Trim(before), Whitespace);
    TrimByUntouched(Trim(piece), Whitespace);
  }

  /** A character absent from a text is absent from its trimmed text. */
  lemma TrimKeepsOut(s: string, c: char)
    requires c !in s
    ensures c !in Trim(s)
  {
    var a := TrimByInfix(s, Whitespace);
    var r := Trim(s);
    forall j | 0 <= j < |r|
      ensures r[j] != c
    {
      assert r[j] == s[a + j];
    }
  }

  /** Once the text before a `;` has its `=`, nothing after that `;` changes the cookie. */
  lemma AttributesIgnoredInText(cookie: string, attributes: string)
    requires '=' in cookie
    ensures CookieOfText(cookie + ";" + attributes) == CookieOfText(cookie + ";")
  {
    var name, value, tail := CookieLayout(cookie);
    Regroup(name, value, tail, ";" + attributes);
    Regroup(name, value, tail, ";");
    assert cookie + ";" + attributes == cookie + (";" + attributes);
    CookieFields(name, value, tail + (";" + attributes));
    CookieFields(name, value, tail + ";");
  }

  /** A text with an `=` is a name, the `=`, a value, and nothing or a `;` and more. */
  lemma CookieLayout(cookie: string) returns (name: string, value: string, tail: string)
    requires '=' in cookie
    ensures cookie == name + "=" + value + tail
    ensures '=' !in name && ';' !in value && (tail == [] || tail[0] == ';')
  {
    var k := IndexOf(cookie, '=');
    var rest := cookie[k + 1..];
    var j := IndexOf(rest, ';');
    name, value, tail := cookie[..k], rest[..j], rest[j..];
    SplitAround(cookie, k);
    SplitAt(rest, j);
    Regroup(name, value, tail, []);
  }

  /** A text is the part before index `k`, the character there, and the part after. */
  lemma SplitAround(s: string, k: nat)
    requires k < |s|
    ensures s == s[..k] + [s[k]] + s[k + 1..]
  {
  }

  /** A text is the part before index `k` and the part from it. */
  lemma SplitAt(s: string, k: nat)
    requires k <= |s|
    ensures s == s[..k] + s[k..]
  {
  }

  /** Moving the end of a cookie text into its tail. */
  lemma Regroup(name: string, value: string, tail: string, more: string)
    ensures name + "=" + value + tail + more == name + "=" + value + (tail + more)
    ensures name + "=" + (value + tail) == name + "=" + value + tail
    ensures tail + more == [] || (tail + more)[0] == ';' <== (tail == [] || tail[0] == ';') && (more == [] || more[0] == ';')
  {
  }

  /** The text of concatenated header bytes is the concatenation of their texts. */
  lemma ToStrAppend(a: seq<byte>, b: seq<byte>)
    requires ToStr(a).Some? && ToStr(b).Some?
    ensures ToStr(a + b) == Some(ToStr(a).value + ToStr(b).value)
  {
    assert forall i :: 0 <= i < |a + b| ==> IsVisible((a + b)[i]) by {
      forall i | 0 <= i < |a + b| ensures IsVisible((a + b)[i]) {
        if i >= |a| {
          assert (a + b)[i] == b[i - |a|];
        }
      }
    }
    var r, s := ToStr(a + b).value, ToStr(a).value + ToStr(b).value;
    forall i | 0 <= i < |r|
      ensures r[i] == s[i]
    {
      if i >= |a| {
        assert (a + b)[i] == b[i - |a|];
      }
    }
    assert r == s;
  }

  /** The same on header bytes: attributes after the first `;` that follows an `=` are ignored. */
  lemma AttributesIgnored(cookie: seq<byte>, attributes: seq<byte>)
    requires forall i :: 0 <= i < |attributes| ==> IsVisible(attributes[i])
    requires exists i :: 0 <= i < |cookie| && cookie[i] == 61
    ensures ParseCookie(cookie + [59] + attributes) == ParseCookie(cookie + [59])
  {
    var short: seq<byte> := cookie + [59];
    assert forall i :: 0 <= i < |cookie| ==> short[i] == cookie[i];
    if ToStr(short).Some? {
      var text := ToStr(short).value;
      var c := text[..|cookie|];
      assert text == c + ";";
      assert '=' in c by {
        var i :| 0 <= i < |cookie| && cookie[i] == 61;
        assert c[i] == '=';
      }
      ToStrAppend(short, attributes);
      assert ToStr(short + attributes).value == c + ";" + ToStr(attributes).value;
      AttributesIgnoredInText(c, ToStr(attributes).value);
    } else {
      var i :| 0 <= i < |short| && !IsVisible(short[i]);
      assert (short + attributes)[i] == short[i];
    }
  }

  // ---------------------------------------------------------------------------
  // Header bytes of a text
  // ---------------------------------------------------------------------------

  /** The bytes of a text whose characters are all below 256. */
  function Encode(s: string): (bytes: seq<byte>)
    requires forall i :: 0 <= i < |s| ==> s[i] as int < 256
    ensures |bytes| == |s| && forall i :: 0 <= i < |s| ==> bytes[i] == s[i] as int as byte
  {
    seq(|s|, i requires 0 <= i < |s| => s[i] as int as byte)
  }

  /** Text made of tab and visible ASCII reads back from its bytes unchanged. */
  lemma ToStrEncode(s: string)
    requires forall i :: 0 <= i < |s| ==> s[i] == '\t' || ' ' <= s[i] <= '~'
    ensures ToStr(Encode(s)) == Some(s)
  {
    var bytes := Encode(s);
    assert forall i :: 0 <= i < |bytes| ==> IsVisible(bytes[i]);
    var r := ToStr(bytes).value;
    assert forall i :: 0 <= i < |s| ==> r[i] == s[i];
    assert r == s;
  }

  /**
   * A header whose text is `name=value`, then nothing or `;` and attributes,
   * gives back that name and value when they are already trimmed, have no
   * `=` in the name and no `;` in the value.
   */
  lemma CookieRoundTrip(header: seq<byte>, name: string, value: string, attributes: string)
    requires ToStr(header) == Some(name + "=" + value + attributes)
    requires '=' !in name && ';' !in value && (attributes == [] || attributes[0] == ';')
    requires Trim(name) == name && Trim(value) == value
    ensures ParseCookie(header) == Some((name, value))
  {
    CookieFields(name, value, attributes);
  }

  /** `a=b=c; Path=/` is the cookie `a` with the value `b=c`. */
  lemma CookieWithEqualsInValue(header: seq<byte>)
    requires ToStr(header) == Some("a=b=c; Path=/")
    ensures ParseCookie(header) == Some(("a", "b=c"))
  {
    EqualsInValueLayout();
    EqualsInValueTrimmed();
    CookieRoundTrip(header, "a", "b=c", "; Path=/");
  }

  /** How the example header splits into name, value and attributes. */
  lemma EqualsInValueLayout()
    ensures "a=b=c; Path=/" == "a" + "=" + "b=c" + "; Path=/"
    ensures '=' !in "a" && ';' !in "b=c"
  {
  }

  /** The example's name and value have nothing to trim. */
  lemma EqualsInValueTrimmed()
    ensures Trim("a") == "a" && Trim("b=c") == "b=c"
  {
    TrimByUntouched("a", Whitespace);
    TrimByUntouched("b=c", Whitespace);
  }
}
