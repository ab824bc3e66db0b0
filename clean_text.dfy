/** `cleanText`: reference decoding followed by the replacement of typographic
    punctuation with plain ASCII. */
module TextCleaning {
  import opened TextUtils

  /** The replacement table of `cleanText`, in its iteration order. */
  const Replacements: seq<(char, string)> := [
    ('\U{201C}', "\""),   // left double quotation mark
    ('\U{201D}', "\""),   // right double quotation mark
    ('\U{2018}', "'"),    // left single quotation mark
    ('\U{2019}', "'"),    // right single quotation mark
    ('\U{2013}', "-"),    // en dash
    ('\U{2014}', "-"),    // em dash
    ('\U{2026}', "..."),  // horizontal ellipsis
    ('\U{2022}', "*"),    // bullet
    ('\U{00A0}', " ")     // no-break space
  ]

  /** Keys are outside ASCII and pairwise distinct; replacement texts are ASCII,
      so no replacement text contains a key. */
  ghost predicate WellFormedTable(t: seq<(char, string)>)
  {
    && (forall j :: 0 <= j < |t| ==> t[j].0 >= '\U{0080}')
    && (forall j, c :: 0 <= j < |t| && c in t[j].1 ==> c < '\U{0080}')
    && (forall j, l :: 0 <= j < l < |t| ==> t[j].0 != t[l].0)
  }

  lemma ReplacementsWellFormed()
    ensures WellFormedTable(Replacements)
  {
    ReplacementKeysAreNotAscii();
    ReplacementTextsAreAscii();
    ReplacementKeysAreDistinct();
  }

  lemma ReplacementKeysAreNotAscii()
    ensures forall j :: 0 <= j < |Replacements| ==> Replacements[j].0 >= '\U{0080}'
  {
  }

  lemma ReplacementTextsAreAscii()
    ensures forall j, c :: 0 <= j < |Replacements| && c in Replacements[j].1 ==> c < '\U{0080}'
  {
  }

  lemma ReplacementKeysAreDistinct()
    ensures forall j, l :: 0 <= j < l < |Replacements| ==> Replacements[j].0 != Replacements[l].0
  {
  }

  /** `text.replace(new RegExp(key, 'g'), value)` for a one-character key:
      every character of the result comes from `value` or is a character of
      `s` other than `key`, and text without `key` is left alone. */
  function ReplaceAll(s: string, key: char, value: string): (r: string)
    ensures forall x :: x in r ==> x in value || (x in s && x != key)
    ensures key !in s ==> r == s
  {
    if s == [] then []
    else (if s[0] == key then value else [s[0]]) + ReplaceAll(s[1..], key, value)
  }

  /** What the table turns one character into: the text of the last entry
      for it, and the character itself when it is no key. */
  function Substitute(t: seq<(char, string)>, c: char): (r: string)
    ensures (forall j :: 0 <= j < |t| ==> t[j].0 != c) ==> r == [c]
  {
    if t == [] then [c]
    else if t[|t| - 1].0 == c then t[|t| - 1].1
    else
      var p := t[..|t| - 1];
      assert forall j :: 0 <= j < |p| ==> p[j] == t[j];
      Substitute(p, c)
  }

  /** Every character replaced by what the table says, in one pass; a text
      that holds no key is left alone. */
  function NormalizeWith(t: seq<(char, string)>, s: string): (r: string)
    ensures (forall i, j :: 0 <= i < |s| && 0 <= j < |t| ==> s[i] != t[j].0) ==> r == s
  {
    if s == [] then []
    else
      assert forall i :: 0 <= i < |s| - 1 ==> s[1..][i] == s[i + 1];
      assert [s[0]] + s[1..] == s;
      Substitute(t, s[0]) + NormalizeWith(t, s[1..])
  }

  /** Reference specification of `cleanText`: the decoded text with every
      typographic character replaced, so none of the nine is left. */
  function Clean(text: string): (r: string)
    ensures forall i, j :: 0 <= i < |r| && 0 <= j < |Replacements| ==> r[i] != Replacements[j].0
  {
    ReplacementsWellFormed();
    NormalizeRemovesKeys(Replacements, Unescape(text));
    NormalizeWith(Replacements, Unescape(text))
  }

  /** `cleanText`: the table is applied entry by entry, each entry as one global replace. */
  method CleanText(text: string) returns (r: string)
    ensures r == Clean(text)
  {
    ReplacementsWellFormed();
    r := Unescape(text);
    ghost var u := r;
    NormalizeEmptyTable(u);
    for i := 0 to |Replacements|
      invariant r == NormalizeWith(Replacements[..i], u)
    {
      var (key, value) := Replacements[i];
      ReplaceStep(Replacements, i, u);
      r := ReplaceAll(r, key, value);
    }
    assert Replacements[..|Replacements|] == Replacements;
  }

  lemma {:induction false} NormalizeEmptyTable(s: string)
    ensures NormalizeWith([], s) == s
  {
    if s != [] {
      NormalizeEmptyTable(s[1..]);
      assert [s[0]] + s[1..] == s;
    }
  }

  lemma {:induction false} ReplaceAllConcat(a: string, b: string, key: char, value: string)
    ensures ReplaceAll(a + b, key, value) == ReplaceAll(a, key, value) + ReplaceAll(b, key, value)
  {
    if a == [] {
      assert a + b == b;
    } else {
      assert (a + b)[1..] == a[1..] + b;
      ReplaceAllConcat(a[1..], b, key, value);
    }
  }

  /** Unless `c` is itself `key`, what a table without `key` in its values makes of `c` has no `key`. */
  lemma {:induction false} SubstituteAvoids(t: seq<(char, string)>, c: char, key: char)
    requires c != key
    requires forall j :: 0 <= j < |t| ==> key !in t[j].1
    ensures key !in Substitute(t, c)
  {
    if t != [] && t[|t| - 1].0 != c {
      SubstituteAvoids(t[..|t| - 1], c, key);
    }
  }

  /** One more global replace turns the output for the first `i` entries into
      the output for the first `i + 1` entries. */
  lemma {:induction false} ReplaceStep(t: seq<(char, string)>, i: nat, s: string)
    requires WellFormedTable(t) && i < |t|
    ensures ReplaceAll(NormalizeWith(t[..i], s), t[i].0, t[i].1) == NormalizeWith(t[..i + 1], s)
  {
    if s != [] {
      var p, q := t[..i], t[..i + 1];
      ReplaceAllConcat(Substitute(p, s[0]), NormalizeWith(p, s[1..]), t[i].0, t[i].1);
      ReplaceStep(t, i, s[1..]);
      ReplaceHead(t, i, s[0]);
      assert NormalizeWith(p, s) == Substitute(p, s[0]) + NormalizeWith(p, s[1..]);
      assert NormalizeWith(q, s) == Substitute(q, s[0]) + NormalizeWith(q, s[1..]);
    }
  }

  /** One more global replace turns what the first `i` entries make of one
      character into what the first `i + 1` entries make of it. */
  lemma ReplaceHead(t: seq<(char, string)>, i: nat, c: char)
    requires WellFormedTable(t) && i < |t|
    ensures ReplaceAll(Substitute(t[..i], c), t[i].0, t[i].1) == Substitute(t[..i + 1], c)
  {
    var (key, value) := t[i];
    var p, q := t[..i], t[..i + 1];
    assert q[..|q| - 1] == p && q[|q| - 1] == t[i];
    if c == key {
      assert forall j :: 0 <= j < |p| ==> p[j].0 != c;
      assert ReplaceAll([c], key, value) == value + ReplaceAll([], key, value);
    } else {
      SubstituteAvoids(p, c, key);
    }
  }

  /** Each character of what a table makes of `c` is either `c` itself, when `c`
      is no key of the table, or a character of a replacement text. */
  lemma {:induction false} SubstituteShape(t: seq<(char, string)>, c: char)
    ensures forall x :: x in Substitute(t, c) ==>
      (x == c && forall j :: 0 <= j < |t| ==> t[j].0 != c) || exists j :: 0 <= j < |t| && x in t[j].1
  {
    if t != [] && t[|t| - 1].0 != c {
      var p := t[..|t| - 1];
      SubstituteShape(p, c);
      forall x | x in Substitute(t, c)
        ensures (x == c && forall j :: 0 <= j < |t| ==> t[j].0 != c) || exists j :: 0 <= j < |t| && x in t[j].1
      {
        if exists j :: 0 <= j < |p| && x in p[j].1 {
          var j :| 0 <= j < |p| && x in p[j].1;
          assert p[j] == t[j];
        } else {
          assert forall j :: 0 <= j < |p| ==> p[j] == t[j];
        }
      }
    } else if t != [] {
      assert t[|t| - 1].1 == Substitute(t, c);
    }
  }

  /** A key of a table with distinct keys is replaced by its own replacement text. */
  lemma {:induction false} SubstituteKey(t: seq<(char, string)>, j: nat)
    requires WellFormedTable(t) && j < |t|
    ensures Substitute(t, t[j].0) == t[j].1
  {
    if j < |t| - 1 {
      assert t[..|t| - 1][j] == t[j];
      SubstituteKey(t[..|t| - 1], j);
    }
  }

  lemma {:induction false} NormalizeConcat(t: seq<(char, string)>, a: string, b: string)
    ensures NormalizeWith(t, a + b) == NormalizeWith(t, a) + NormalizeWith(t, b)
  {
    if a == [] {
      assert a + b == b;
    } else {
      var c, rest := a[0], a[1..];
      assert (a + b)[0] == c && (a + b)[1..] == rest + b;
      NormalizeConcat(t, rest, b);
      assert NormalizeWith(t, a + b) == Substitute(t, c) + NormalizeWith(t, rest + b);
      assert NormalizeWith(t, a) == Substitute(t, c) + NormalizeWith(t, rest);
    }
  }

  /** No key of the table survives normalisation. */
  lemma {:induction false} NormalizeRemovesKeys(t: seq<(char, string)>, s: string)
    requires WellFormedTable(t)
    ensures forall i, j :: 0 <= i < |NormalizeWith(t, s)| && 0 <= j < |t| ==> NormalizeWith(t, s)[i] != t[j].0
  {
    if s != [] {
      NormalizeRemovesKeys(t, s[1..]);
      SubstituteShape(t, s[0]);
      var head, tail := Substitute(t, s[0]), NormalizeWith(t, s[1..]);
      forall i, j | 0 <= i < |head + tail| && 0 <= j < |t| ensures (head + tail)[i] != t[j].0 {
        if i < |head| {
          assert head[i] in head;
        } else {
          assert (head + tail)[i] == tail[i - |head|];
        }
      }
    }
  }

  /** Normalising twice is normalising once. */
  lemma NormalizeIdempotent(t: seq<(char, string)>, s: string)
    requires WellFormedTable(t)
    ensures NormalizeWith(t, NormalizeWith(t, s)) == NormalizeWith(t, s)
  {
    NormalizeRemovesKeys(t, s);
  }

  /** Each typographic character becomes its ASCII replacement; the cleaned
      text of a concatenation is the concatenation of the cleaned parts. */
  lemma NormalizeReplacesEach(j: nat, a: string, b: string)
    requires j < |Replacements|
    ensures NormalizeWith(Replacements, a + [Replacements[j].0] + b)
         == NormalizeWith(Replacements, a) + Replacements[j].1 + NormalizeWith(Replacements, b)
  {
    var k := [Replacements[j].0];
    assert NormalizeWith(Replacements, k) == Replacements[j].1 by {
      ReplacementsWellFormed();
      SubstituteKey(Replacements, j);
      assert k[1..] == [];
    }
    NormalizeConcat(Replacements, a + k, b);
    NormalizeConcat(Replacements, a, k);
  }

  /** The replacement texts contain no `&`, so normalising never creates one. */
  lemma {:induction false} NormalizeKeepsNoAmpersand(s: string)
    requires '&' !in s
    ensures '&' !in NormalizeWith(Replacements, s)
  {
    if s != [] {
      assert s[0] in s;
      SubstituteShape(Replacements, s[0]);
      assert forall j :: 0 <= j < |Replacements| ==> '&' !in Replacements[j].1;
      NormalizeKeepsNoAmpersand(s[1..]);
    }
  }

  /** The characters that follow `&` in a recognised reference. */
  predicate ReferenceChar(c: char)
  {
    c == '#' || c == ';' || 'a' <= c <= 'z' || '0' <= c <= '9'
  }

  /** Every replacement text is non-empty, starts with a character that cannot
      continue a reference, and holds no `&`. */
  lemma ReplacementTextsCannotContinueReference()
    ensures forall j :: 0 <= j < |Replacements| ==>
      Replacements[j].1 != [] && !ReferenceChar(Replacements[j].1[0]) && '&' !in Replacements[j].1
  {
  }

  /** What the table makes of a character is the character itself or a text
      that cannot continue a reference. */
  lemma SubstituteHead(c: char)
    ensures var h := Substitute(Replacements, c);
      h == [c] || (h != [] && !ReferenceChar(h[0]))
  {
    ReplacementsWellFormed();
    ReplacementTextsCannotContinueReference();
    if j :| 0 <= j < |Replacements| && Replacements[j].0 == c {
      SubstituteKey(Replacements, j);
    }
  }

  /** A run of reference characters at the front of a normalised text was
      already at the front of the text before normalisation. */
  lemma {:induction false} NormalizePrefix(w: string, s: string)
    requires forall k :: 0 <= k < |w| ==> ReferenceChar(w[k])
    requires w <= NormalizeWith(Replacements, s)
    ensures w <= s
  {
    if w != [] {
      var n := NormalizeWith(Replacements, s);
      assert s != [];
      var h, m := Substitute(Replacements, s[0]), NormalizeWith(Replacements, s[1..]);
      assert n == h + m;
      SubstituteHead(s[0]);
      assert ReferenceChar(w[0]) && w[0] == n[0];
      assert h != [] ==> n[0] == h[0];
      if h == [s[0]] {
        assert w[1..] <= m;
        NormalizePrefix(w[1..], s[1..]);
      } else {
        assert false;
      }
    }
  }

  /** A recognised reference `e` at the front of `[s[0]] + NormalizeWith(s[1..])`
      was at the front of `s`. */
  lemma ReferenceBeforeNormalize(e: string, s: string)
    requires e in ["&lt;", "&gt;", "&amp;", "&quot;", "&#39;", "&apos;"]
    requires s != [] && s[0] == '&'
    requires e <= [s[0]] + NormalizeWith(Replacements, s[1..])
    ensures e <= s
  {
    var x := [s[0]] + NormalizeWith(Replacements, s[1..]);
    assert e[1..] <= x[1..];
    NormalizePrefix(e[1..], s[1..]);
  }

  /** An `&` that starts no recognised reference in `s` starts none once the
      characters after it are normalised. */
  lemma NoReferenceAfterAmpersand(s: string)
    requires s != [] && s[0] == '&' && DecodeReference(s).None?
    ensures DecodeReference([s[0]] + NormalizeWith(Replacements, s[1..])).None?
  {
    var x := [s[0]] + NormalizeWith(Replacements, s[1..]);
    if "&lt;" <= x { ReferenceBeforeNormalize("&lt;", s); }
    if "&gt;" <= x { ReferenceBeforeNormalize("&gt;", s); }
    if "&amp;" <= x { ReferenceBeforeNormalize("&amp;", s); }
    if "&quot;" <= x { ReferenceBeforeNormalize("&quot;", s); }
    if "&#39;" <= x { ReferenceBeforeNormalize("&#39;", s); }
    if "&apos;" <= x { ReferenceBeforeNormalize("&apos;", s); }
  }

  /** Normalisation creates no recognised reference: the replacement texts hold
      no `&` and cannot continue one. */
  lemma {:induction false} NormalizeCreatesNoReference(s: string)
    requires HasNoReference(s)
    ensures HasNoReference(NormalizeWith(Replacements, s))
  {
    if s != [] {
      ReplacementsWellFormed();
      ReplacementTextsCannotContinueReference();
      forall i | 0 <= i < |s| - 1 ensures DecodeReference(s[1..][i..]).None? {
        assert s[1..][i..] == s[i + 1..];
      }
      NormalizeCreatesNoReference(s[1..]);
      var h, t := Substitute(Replacements, s[0]), NormalizeWith(Replacements, s[1..]);
      var n := h + t;
      forall i | 0 <= i < |n| ensures DecodeReference(n[i..]).None? {
        if i >= |h| {
          assert n[i..] == t[i - |h|..];
        } else if j :| 0 <= j < |Replacements| && Replacements[j].0 == s[0] {
          SubstituteKey(Replacements, j);
          assert n[i..][0] == h[i] && h[i] in h;
        } else {
          assert n[i..] == [s[0]] + t;
          assert s[0..] == s;
          if s[0] == '&' {
            NoReferenceAfterAmpersand(s);
          }
        }
      }
    }
  }

  /** Cleaning is idempotent once decoding leaves no recognised reference
      behind; a reference that decoding itself produces (see
      `CleanNotIdempotent`) is decoded again by a second pass. */
  lemma CleanIdempotent(text: string)
    requires HasNoReference(Unescape(text))
    ensures Clean(Clean(text)) == Clean(text)
  {
    ReplacementsWellFormed();
    var u := Unescape(text);
    NormalizeCreatesNoReference(u);
    UnescapeNoReference(Clean(text));
    NormalizeIdempotent(Replacements, u);
  }

  /** `&amp;lt;` cleans to `&lt;`, which cleans to `<`, and `&amp;amp;`
      cleans to `&amp;`, which cleans to `&`: cleaning is not idempotent in
      general. */
  lemma CleanNotIdempotent()
    ensures Clean("&amp;lt;") == "&lt;"
    ensures Clean("&lt;") == "<"
    ensures Clean("&amp;amp;") == "&amp;"
    ensures Clean("&amp;") == "&"
  {
    CleanAmpLt();
    CleanLt();
    CleanAmpAmp();
    CleanAmp();
  }

  lemma CleanAmpAmp()
    ensures Clean("&amp;amp;") == "&amp;"
  {
    var u := "&amp;";
    assert forall i :: 0 <= i < |u| ==> u[i] < '\U{0080}' by {
      assert u == ['&', 'a', 'm', 'p', ';'];
    }
    UnescapeAmpAmp();
    CleanToAscii("&amp;amp;", u);
  }

  lemma UnescapeAmpAmp()
    ensures Unescape("&amp;amp;") == "&amp;"
  {
    UnescapeReference("&amp;", '&', "amp;");
    assert "&amp;" + "amp;" == "&amp;amp;";
    UnescapeNoAmpersand("amp;");
    assert ['&'] + "amp;" == "&amp;";
  }

  lemma CleanAmp()
    ensures Clean("&amp;") == "&"
  {
    UnescapeAmp();
    CleanToAscii("&amp;", "&");
  }

  lemma UnescapeAmp()
    ensures Unescape("&amp;") == "&"
  {
    UnescapeReference("&amp;", '&', "");
    assert "&amp;" + "" == "&amp;";
    UnescapeNoAmpersand("");
  }

  lemma CleanAmpLt()
    ensures Clean("&amp;lt;") == "&lt;"
  {
    var u := "&lt;";
    assert forall i :: 0 <= i < |u| ==> u[i] < '\U{0080}' by {
      assert u == ['&', 'l', 't', ';'];
    }
    UnescapeAmpLt();
    CleanToAscii("&amp;lt;", u);
  }

  /** Text that decodes to ASCII is cleaned to what it decodes to. */
  lemma CleanToAscii(text: string, u: string)
    requires Unescape(text) == u
    requires forall i :: 0 <= i < |u| ==> u[i] < '\U{0080}'
    ensures Clean(text) == u
  {
    NormalizeAscii(u);
  }

  lemma UnescapeAmpLt()
    ensures Unescape("&amp;lt;") == "&lt;"
  {
    UnescapeReference("&amp;", '&', "lt;");
    assert "&amp;" + "lt;" == "&amp;lt;";
    UnescapeNoAmpersand("lt;");
    assert ['&'] + "lt;" == "&lt;";
  }

  /** ASCII text holds no key, so the table leaves it alone. */
  lemma NormalizeAscii(s: string)
    requires forall i :: 0 <= i < |s| ==> s[i] < '\U{0080}'
    ensures NormalizeWith(Replacements, s) == s
  {
    ReplacementKeysAreNotAscii();
  }

  lemma CleanLt()
    ensures Clean("&lt;") == "<"
  {
    ReplacementKeysAreNotAscii();
    UnescapeReference("&lt;", '<', "");
    assert "&lt;" + "" == "&lt;";
    UnescapeNoAmpersand("");
  }
}
