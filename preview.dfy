/** The plain-text preview of `convertPreviewDocx`: every run of whitespace in
    the cleaned text becomes one blank, and the result is trimmed. */
module PreviewText {
  import opened Strings

  /** `text.replace(/\s+/g, ' ')`: each maximal run of whitespace becomes a
      single blank; every other character is kept. */
  function Collapse(s: string): (r: string)
    ensures (r == []) == (s == [])
    ensures r != [] ==> (IsSpace(s[0]) <==> r[0] == ' ')
    decreases |s|
  {
    if s == [] then []
    else if IsSpace(s[0]) then
      var rest := TrimStart(s[1..]);
      " " + Collapse(rest)
    else [s[0]] + Collapse(s[1..])
  }

  /** The preview text: `.replace(/\s+/g, ' ').trim()`. It has no whitespace
      but single blanks between words, and none at either end. */
  function Preview(s: string): (r: string)
    ensures SingleSpaced(r)
    ensures r == [] || Trimmed(r)
  {
    CollapseIsSingleSpaced(s);
    TrimSingleSpaced(Collapse(s));
    Trim(Collapse(s))
  }

  /** The only whitespace character left is the blank. */
  predicate OnlyBlanks(r: string)
  {
    forall i :: 0 <= i < |r| ==> IsSpace(r[i]) ==> r[i] == ' '
  }

  /** No two blanks in a row. */
  predicate NoDoubleBlanks(r: string)
  {
    forall i :: 0 <= i < |r| - 1 ==> r[i] == ' ' ==> r[i + 1] != ' '
  }

  predicate SingleSpaced(r: string)
  {
    OnlyBlanks(r) && NoDoubleBlanks(r)
  }

  /** The characters of `s` that are not whitespace, in order. */
  function NonBlank(s: string): (r: string)
    ensures |r| <= |s|
  {
    if s == [] then []
    else (if IsSpace(s[0]) then [] else [s[0]]) + NonBlank(s[1..])
  }

  /** Prefixing one character to a single-spaced string keeps it single-spaced
      when the character is not whitespace, or is a blank not followed by one. */
  lemma ConsSingleSpaced(c: char, r: string)
    requires SingleSpaced(r)
    requires IsSpace(c) ==> c == ' ' && (r == [] || r[0] != ' ')
    ensures SingleSpaced([c] + r)
  {
    var t := [c] + r;
    forall i | 0 <= i < |t| ensures IsSpace(t[i]) ==> t[i] == ' ' {
      if i > 0 {
        assert t[i] == r[i - 1];
      }
    }
    forall i | 0 <= i < |t| - 1 ensures t[i] == ' ' ==> t[i + 1] != ' ' {
      assert t[i + 1] == r[i];
      if i > 0 {
        assert t[i] == r[i - 1];
      }
    }
  }

  /** The collapsed text is single-spaced. */
  lemma {:induction false} CollapseIsSingleSpaced(s: string)
    ensures SingleSpaced(Collapse(s))
    decreases |s|
  {
    if s != [] {
      if IsSpace(s[0]) {
        var rest := TrimStart(s[1..]);
        CollapseIsSingleSpaced(rest);
        ConsSingleSpaced(' ', Collapse(rest));
      } else {
        CollapseIsSingleSpaced(s[1..]);
        ConsSingleSpaced(s[0], Collapse(s[1..]));
      }
    }
  }

  /** Every slice of a single-spaced string is single-spaced. */
  lemma SliceSingleSpaced(r: string, a: nat, b: nat)
    requires SingleSpaced(r) && a <= b <= |r|
    ensures SingleSpaced(r[a..b])
  {
    var t := r[a..b];
    forall i | 0 <= i < |t| ensures IsSpace(t[i]) ==> t[i] == ' ' {
      assert t[i] == r[a + i];
    }
    forall i | 0 <= i < |t| - 1 ensures t[i] == ' ' ==> t[i + 1] != ' ' {
      assert t[i] == r[a + i] && t[i + 1] == r[a + i + 1];
    }
  }

  /** Trimming keeps a string single-spaced. */
  lemma TrimSingleSpaced(r: string)
    requires SingleSpaced(r)
    ensures SingleSpaced(Trim(r))
  {
    var t := TrimStart(r);
    SliceSingleSpaced(r, |r| - |t|, |r|);
    TrimStartSuffix(r);
    assert r[|r| - |t|..|r|] == t;
    var u := TrimEnd(t);
    SliceSingleSpaced(t, 0, |u|);
    assert t[0..|u|] == u;
  }

  lemma {:induction false} NonBlankAppend(a: string, b: string)
    ensures NonBlank(a + b) == NonBlank(a) + NonBlank(b)
    decreases |a|
  {
    if a == [] {
      assert a + b == b;
    } else {
      var h := if IsSpace(a[0]) then [] else [a[0]];
      calc {
        NonBlank(a + b);
        { AppendHeadTail(a, b); }
        h + NonBlank(a[1..] + b);
        { NonBlankAppend(a[1..], b); }
        h + (NonBlank(a[1..]) + NonBlank(b));
        NonBlank(a) + NonBlank(b);
      }
    }
  }

  /** `trimStart` drops only whitespace. */
  lemma {:induction false} NonBlankTrimStart(s: string)
    ensures NonBlank(TrimStart(s)) == NonBlank(s)
    decreases |s|
  {
    if s != [] && IsSpace(s[0]) {
      NonBlankTrimStart(s[1..]);
    }
  }

  /** `trimEnd` drops only whitespace. */
  lemma {:induction false} NonBlankTrimEnd(s: string)
    ensures NonBlank(TrimEnd(s)) == NonBlank(s)
    decreases |s|
  {
    if s != [] && IsSpace(s[|s| - 1]) {
      var init, last := s[..|s| - 1], [s[|s| - 1]];
      NonBlankTrimEnd(init);
      assert s == init + last;
      NonBlankAppend(init, last);
      assert NonBlank(last) == [];
    }
  }

  /** Collapsing drops and inserts only whitespace. */
  lemma {:induction false} NonBlankCollapse(s: string)
    ensures NonBlank(Collapse(s)) == NonBlank(s)
    decreases |s|
  {
    if s != [] {
      if IsSpace(s[0]) {
        var rest := TrimStart(s[1..]);
        var c := Collapse(s);
        assert c[1..] == Collapse(rest);
        NonBlankCollapse(rest);
        NonBlankTrimStart(s[1..]);
      } else {
        var c := Collapse(s);
        assert c[1..] == Collapse(s[1..]);
        NonBlankCollapse(s[1..]);
      }
    }
  }

  /** The preview keeps every character that is not whitespace, in order, and
      adds none. */
  lemma PreviewKeepsText(s: string)
    ensures NonBlank(Preview(s)) == NonBlank(s)
  {
    NonBlankTrimStart(Collapse(s));
    NonBlankTrimEnd(TrimStart(Collapse(s)));
    NonBlankCollapse(s);
  }

  /** The second character of a single-spaced string that starts with whitespace. */
  lemma SingleSpacedAfterBlank(r: string)
    requires SingleSpaced(r) && r != [] && IsSpace(r[0])
    ensures r[0] == ' ' && (r[1..] == [] || !IsSpace(r[1..][0]))
  {
    if |r| > 1 {
      assert r[1..][0] == r[1];
    }
  }

  /** Text that is already single-spaced is left alone by the collapse. */
  lemma {:induction false} CollapseSingleSpacedText(r: string)
    requires SingleSpaced(r)
    ensures Collapse(r) == r
    decreases |r|
  {
    if r != [] {
      var t := r[1..];
      SliceSingleSpaced(r, 1, |r|);
      assert r[1..|r|] == t;
      CollapseSingleSpacedText(t);
      if IsSpace(r[0]) {
        SingleSpacedAfterBlank(r);
        calc {
          Collapse(r);
          " " + Collapse(TrimStart(t));
          " " + Collapse(t);
          " " + t;
          [r[0]] + t;
        }
      } else {
        calc {
          Collapse(r);
          [r[0]] + Collapse(t);
          [r[0]] + t;
        }
      }
      assert [r[0]] + t == r;
    }
  }

  /** `trim` leaves a trimmed string alone. */
  lemma TrimTrimmed(r: string)
    requires r == [] || Trimmed(r)
    ensures Trim(r) == r
  {
  }

  /** Building the preview of a preview changes nothing. */
  lemma PreviewIdempotent(s: string)
    ensures Preview(Preview(s)) == Preview(s)
  {
    var p := Preview(s);
    CollapseSingleSpacedText(p);
    TrimTrimmed(p);
  }
}
