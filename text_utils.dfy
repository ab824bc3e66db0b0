/** `unescapeHtml`: decoding of the six character references the site's text
    helper recognises. Every other `&`-sequence is copied verbatim. */
module TextUtils {
  import opened Wrappers

  /** The recognised reference that `s` starts with: the character it stands
      for and its length. The six references are prefix-free, so at most one
      applies. */
  function DecodeReference(s: string): (r: Option<(char, nat)>)
    ensures r.Some? ==> 4 <= r.value.1 <= |s| && s[0] == '&'
  {
    if "&lt;" <= s then Some(('<', 4))
    else if "&gt;" <= s then Some(('>', 4))
    else if "&amp;" <= s then Some(('&', 5))
    else if "&quot;" <= s then Some(('"', 6))
    else if "&#39;" <= s then Some(('\'', 5))
    else if "&apos;" <= s then Some(('\'', 6))
    else None
  }

  /** One left-to-right pass: a recognised reference becomes its character,
      anything else is copied, and decoded output is never scanned again. */
  function Unescape(s: string): (r: string)
    ensures |r| <= |s|
  {
    if s == [] then []
    else match DecodeReference(s)
      case Some((c, n)) => [c] + Unescape(s[n..])
      case None => [s[0]] + Unescape(s[1..])
  }

  lemma NotPrefixAt(e: string, s: string, i: nat)
    requires i < |e| && (i >= |s| || e[i] != s[i])
    ensures !(e <= s)
  {
  }

  /** A recognised reference at the front decodes to its character; the rest is decoded on its own. */
  lemma UnescapeReference(e: string, c: char, rest: string)
    requires (e, c) in {("&lt;", '<'), ("&gt;", '>'), ("&amp;", '&'), ("&quot;", '"'), ("&#39;", '\''), ("&apos;", '\'')}
    ensures Unescape(e + rest) == [c] + Unescape(rest)
  {
    var s := e + rest;
    assert e <= s;
    assert s[|e|..] == rest;
    assert s[1] == e[1] && s[2] == e[2];
    if e != "&lt;" { NotPrefixAt("&lt;", s, 1); }
    if e != "&gt;" { NotPrefixAt("&gt;", s, 1); }
    if e != "&amp;" { NotPrefixAt("&amp;", s, if e == "&apos;" then 2 else 1); }
    if e != "&quot;" { NotPrefixAt("&quot;", s, 1); }
    if e != "&#39;" { NotPrefixAt("&#39;", s, 1); }
    assert DecodeReference(s) == Some((c, |e|));
  }

  /** Text without an `&` passes through unchanged, in front of whatever follows. */
  lemma {:induction false} UnescapePlain(p: string, rest: string)
    requires '&' !in p
    ensures Unescape(p + rest) == p + Unescape(rest)
  {
    if p != [] {
      var s := p + rest;
      assert s[0] == p[0] && p[0] in p;
      assert DecodeReference(s).None?;
      calc {
        Unescape(s);
        [p[0]] + Unescape(s[1..]);
        { assert s[1..] == p[1..] + rest; }
        [p[0]] + Unescape(p[1..] + rest);
        { UnescapePlain(p[1..], rest); }
        [p[0]] + (p[1..] + Unescape(rest));
        { assert [p[0]] + p[1..] == p; }
        p + Unescape(rest);
      }
    } else {
      assert p + rest == rest;
    }
  }

  /** A string without an `&` is left unchanged. */
  lemma UnescapeNoAmpersand(s: string)
    requires '&' !in s
    ensures Unescape(s) == s
  {
    UnescapePlain(s, "");
    assert s + "" == s;
  }

  /** An `&` not followed by `l`, `g`, `a`, `q` or `#` (the second characters of
      the recognised references) is copied as it is. */
  lemma UnescapeBareAmpersand(rest: string)
    requires rest != [] && rest[0] !in "lgaq#"
    ensures Unescape("&" + rest) == "&" + Unescape(rest)
  {
    var s := "&" + rest;
    assert s[1..] == rest;
    assert s[1] == rest[0];
    assert DecodeReference(s).None? by {
      NotPrefixAt("&lt;", s, 1);
      NotPrefixAt("&gt;", s, 1);
      NotPrefixAt("&amp;", s, 1);
      NotPrefixAt("&quot;", s, 1);
      NotPrefixAt("&#39;", s, 1);
      NotPrefixAt("&apos;", s, 1);
    }
  }

  /** A numeric reference other than `&#39;` (here: one whose first digit is not
      `3`) is copied as it is. */
  lemma UnescapeUnknownNumeric(rest: string)
    requires |rest| >= 2 && rest[0] == '#' && rest[1] != '3'
    ensures Unescape("&" + rest) == "&" + Unescape(rest)
  {
    var s := "&" + rest;
    assert s[1..] == rest;
    assert s[1] == rest[0] && s[2] == rest[1];
    assert DecodeReference(s).None? by {
      NotPrefixAt("&lt;", s, 1);
      NotPrefixAt("&gt;", s, 1);
      NotPrefixAt("&amp;", s, 1);
      NotPrefixAt("&quot;", s, 1);
      NotPrefixAt("&#39;", s, 2);
      NotPrefixAt("&apos;", s, 1);
    }
  }

  /** No recognised reference starts anywhere in `s`. */
  predicate HasNoReference(s: string)
  {
    forall i :: 0 <= i < |s| ==> DecodeReference(s[i..]).None?
  }

  /** A string in which no recognised reference starts anywhere is left unchanged. */
  lemma {:induction false} UnescapeNoReference(s: string)
    requires HasNoReference(s)
    ensures Unescape(s) == s
  {
    if s != [] {
      assert s[0..] == s;
      forall i | 0 <= i < |s| - 1 ensures DecodeReference(s[1..][i..]).None? {
        assert s[1..][i..] == s[i + 1..];
      }
      UnescapeNoReference(s[1..]);
    }
  }

  /** The helper's test cases for known references, one at a time. */
  lemma UnescapeEachReference()
    ensures Unescape("&lt;") == "<" && Unescape("&gt;") == ">" && Unescape("&amp;") == "&"
    ensures Unescape("&quot;") == "\"" && Unescape("&#39;") == "'" && Unescape("&apos;") == "'"
  {
    UnescapeReference("&lt;", '<', "");
    UnescapeReference("&gt;", '>', "");
    UnescapeReference("&amp;", '&', "");
    UnescapeReference("&quot;", '"', "");
    UnescapeReference("&#39;", '\'', "");
    UnescapeReference("&apos;", '\'', "");
    assert "&lt;" + "" == "&lt;" && "&gt;" + "" == "&gt;" && "&amp;" + "" == "&amp;";
    assert "&quot;" + "" == "&quot;" && "&#39;" + "" == "&#39;" && "&apos;" + "" == "&apos;";
  }
}
