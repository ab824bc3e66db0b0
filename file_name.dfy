/** `generateFileName`: the URL-friendly file name of an article, built from
    the first two words of its title that are not common words. */
module FileName {
  import opened Strings

  /** The words dropped from a title before the first two are taken. */
  const CommonWords: seq<string> := ["a", "the", "of", "in", "on", "at", "to", "for", "and", "or"]

  /** `replace(/[^\w\s]/g, '')`: drops every character that is neither a word
      character nor whitespace. */
  function KeepWordsAndSpaces(s: string): (r: string)
    ensures |r| <= |s|
  {
    if s == [] then []
    else (if IsWordChar(s[0]) || IsSpace(s[0]) then [s[0]] else []) + KeepWordsAndSpaces(s[1..])
  }

  /** `split(/\s+/)`: the pieces between maximal runs of whitespace. A leading
      or trailing run gives an empty first or last piece, and the empty string
      gives one empty piece. */
  function SplitOnSpaces(s: string): (ws: seq<string>)
    ensures |ws| >= 1
    decreases |s|
  {
    if s == [] then [[]]
    else if IsSpace(s[0]) then [[]] + SplitOnSpaces(TrimStart(s[1..]))
    else
      var ws := SplitOnSpaces(s[1..]);
      [[s[0]] + ws[0]] + ws[1..]
  }

  /** `filter(word => !commonWords.includes(word))`. */
  function DropCommonWords(ws: seq<string>): (r: seq<string>)
    ensures |r| <= |ws|
  {
    if ws == [] then []
    else (if ws[0] in CommonWords then [] else [ws[0]]) + DropCommonWords(ws[1..])
  }

  /** `slice(0, 2)`. */
  function FirstTwo(ws: seq<string>): (r: seq<string>)
    ensures |r| <= 2 && r <= ws
    ensures |r| == if |ws| < 2 then |ws| else 2
  {
    if |ws| <= 2 then ws else ws[..2]
  }

  /** The title lower-cased, stripped of punctuation and trimmed: only
      `[a-z0-9_]` and whitespace are left, and no whitespace at either end. */
  function CleanTitle(title: string): (r: string)
    ensures LowerWordText(r)
    ensures r == [] || Trimmed(r)
  {
    TrimKeptIsClean(Lower(title));
    Trim(KeepWordsAndSpaces(Lower(title)))
  }

  /** The name without its `.html` extension. For a title with a blank it is
      made of `[a-z0-9_-]` only and holds at most one `-`. */
  function Stem(title: string): (r: string)
    ensures ' ' in title ==> (forall i :: 0 <= i < |r| ==> SafeChar(r[i])) && AtMostOneDash(r)
  {
    if ' ' !in title then Lower(title)
    else
      var ws := FirstTwo(DropCommonWords(SplitOnSpaces(CleanTitle(title))));
      ChosenWordsAreClean(CleanTitle(title));
      JoinIsSafe(ws);
      JoinTwoHasOneDash(ws);
      Join(ws, "-")
  }

  /** `generateFileName`: the stem and the `.html` extension. The name always
      ends in `.html`; for a title with a blank, what comes before it is made
      of `[a-z0-9_-]` only and holds at most one `-`. */
  function GenerateFileName(title: string): (r: string)
    ensures |r| >= 5 && r[|r| - 5..] == ".html"
    ensures ' ' in title ==>
      (forall i :: 0 <= i < |r| - 5 ==> SafeChar(r[i])) && AtMostOneDash(r[..|r| - 5])
  {
    var stem := Stem(title);
    assert (stem + ".html")[..|stem|] == stem;
    stem + ".html"
  }

  /** The characters a name built from a title with a blank is made of. */
  predicate SafeChar(c: char)
  {
    LowerWordChar(c) || c == '-'
  }

  /** A word character after ASCII lower-casing: `[a-z0-9_]`. */
  predicate LowerWordChar(c: char)
  {
    ('a' <= c <= 'z') || ('0' <= c <= '9') || c == '_'
  }

  /** Lower-case word characters and whitespace only. */
  predicate LowerWordText(s: string)
  {
    forall i :: 0 <= i < |s| ==> LowerWordChar(s[i]) || IsSpace(s[i])
  }

  /** Lower-case word characters only. */
  predicate CleanWord(w: string)
  {
    forall i :: 0 <= i < |w| ==> LowerWordChar(w[i])
  }

  lemma SliceLowerWordText(s: string, a: nat, b: nat)
    requires LowerWordText(s) && a <= b <= |s|
    ensures LowerWordText(s[a..b])
  {
    var t := s[a..b];
    forall i | 0 <= i < |t| ensures LowerWordChar(t[i]) || IsSpace(t[i]) {
      assert t[i] == s[a + i];
    }
  }

  /** The punctuation filter leaves only word characters and whitespace. */
  lemma {:induction false} KeptChars(s: string)
    requires forall i :: 0 <= i < |s| ==> !('A' <= s[i] <= 'Z')
    ensures LowerWordText(KeepWordsAndSpaces(s))
    decreases |s|
  {
    if s != [] {
      var t := s[1..];
      assert forall i :: 0 <= i < |t| ==> t[i] == s[i + 1];
      KeptChars(t);
      var h := if IsWordChar(s[0]) || IsSpace(s[0]) then [s[0]] else [];
      var r := KeepWordsAndSpaces(s);
      assert r == h + KeepWordsAndSpaces(t);
      forall i | 0 <= i < |r| ensures LowerWordChar(r[i]) || IsSpace(r[i]) {
        if i >= |h| {
          assert r[i] == KeepWordsAndSpaces(t)[i - |h|];
        }
      }
    }
  }

  /** Lower-cased text stripped of punctuation and trimmed is made of
      lower-case word characters and whitespace. */
  lemma TrimKeptIsClean(l: string)
    requires forall i :: 0 <= i < |l| ==> !('A' <= l[i] <= 'Z')
    ensures LowerWordText(Trim(KeepWordsAndSpaces(l)))
  {
    KeptChars(l);
    TrimLowerWordText(KeepWordsAndSpaces(l));
  }

  /** Trimming text made of lower-case word characters and whitespace keeps it so. */
  lemma TrimLowerWordText(k: string)
    requires LowerWordText(k)
    ensures LowerWordText(Trim(k))
  {
    var t := TrimStart(k);
    TrimStartSuffix(k);
    SliceLowerWordText(k, |k| - |t|, |k|);
    assert k[|k| - |t|..|k|] == t;
    var r := TrimEnd(t);
    SliceLowerWordText(t, 0, |r|);
    assert t[0..|r|] == r;
  }

  /** Prefixing a lower-case word character to a clean word. */
  lemma ConsCleanWord(c: char, w: string)
    requires LowerWordChar(c) && CleanWord(w)
    ensures CleanWord([c] + w)
  {
    var v := [c] + w;
    forall i | 0 < i < |v| ensures LowerWordChar(v[i]) {
      assert v[i] == w[i - 1];
    }
  }

  /** Every word of `ws` is clean. */
  predicate CleanWords(ws: seq<string>)
  {
    forall k :: 0 <= k < |ws| ==> CleanWord(ws[k])
  }

  lemma CleanWordsCons(w: string, ws: seq<string>)
    requires CleanWord(w) && CleanWords(ws)
    ensures CleanWords([w] + ws)
  {
    var vs := [w] + ws;
    forall k | 0 < k < |vs| ensures CleanWord(vs[k]) {
      assert vs[k] == ws[k - 1];
    }
  }

  lemma CleanWordsTail(ws: seq<string>)
    requires CleanWords(ws) && ws != []
    ensures CleanWord(ws[0]) && CleanWords(ws[1..])
  {
    var vs := ws[1..];
    forall k | 0 <= k < |vs| ensures CleanWord(vs[k]) {
      assert vs[k] == ws[k + 1];
    }
  }

  /** The tail and the whitespace-trimmed text of clean text are clean. */
  lemma LowerWordTextTails(s: string)
    requires LowerWordText(s) && s != []
    ensures LowerWordText(s[1..]) && LowerWordText(TrimStart(s[1..]))
  {
    var u := s[1..];
    SliceLowerWordText(s, 1, |s|);
    assert s[1..|s|] == u;
    var t := TrimStart(u);
    SliceLowerWordText(u, |u| - |t|, |u|);
    TrimStartSuffix(u);
    assert u[|u| - |t|..|u|] == t;
  }

  /** Splitting clean text at its whitespace gives clean words. */
  lemma {:induction false} SplitOnSpacesWords(s: string)
    requires LowerWordText(s)
    ensures CleanWords(SplitOnSpaces(s))
    decreases |s|
  {
    if s != [] {
      LowerWordTextTails(s);
      var u := s[1..];
      if IsSpace(s[0]) {
        SplitOnSpacesWords(TrimStart(u));
        CleanWordsCons([], SplitOnSpaces(TrimStart(u)));
      } else {
        var vs := SplitOnSpaces(u);
        SplitOnSpacesWords(u);
        CleanWordsTail(vs);
        ConsCleanWord(s[0], vs[0]);
        CleanWordsCons([s[0]] + vs[0], vs[1..]);
      }
    }
  }

  /** What is kept are words of the input that are not common words. */
  lemma {:induction false} DropCommonWordsKeeps(ws: seq<string>)
    ensures forall k :: 0 <= k < |DropCommonWords(ws)| ==> DropCommonWords(ws)[k] in ws && DropCommonWords(ws)[k] !in CommonWords
  {
    if ws != [] {
      DropCommonWordsKeeps(ws[1..]);
      var h := if ws[0] in CommonWords then [] else [ws[0]];
      var t := DropCommonWords(ws[1..]);
      var r := DropCommonWords(ws);
      assert r == h + t;
      forall k | 0 <= k < |r| ensures r[k] in ws && r[k] !in CommonWords {
        if k < |h| {
          assert r[k] == ws[0];
        } else {
          assert r[k] == t[k - |h|];
          assert t[k - |h|] in ws[1..];
        }
      }
    }
  }

  /** Every word of the input that is not a common word is kept. */
  lemma {:induction false} DropCommonWordsCompleteness(ws: seq<string>, k: nat)
    requires k < |ws| && ws[k] !in CommonWords
    ensures ws[k] in DropCommonWords(ws)
  {
    if k > 0 {
      DropCommonWordsCompleteness(ws[1..], k - 1);
    }
  }

  /** Filtering keeps the order of the words: it distributes over concatenation. */
  lemma {:induction false} DropCommonWordsAppend(a: seq<string>, b: seq<string>)
    ensures DropCommonWords(a + b) == DropCommonWords(a) + DropCommonWords(b)
    decreases |a|
  {
    if a == [] {
      assert a + b == b;
    } else {
      var h := if a[0] in CommonWords then [] else [a[0]];
      calc {
        DropCommonWords(a + b);
        { AppendHeadTail(a, b); }
        h + DropCommonWords(a[1..] + b);
        { DropCommonWordsAppend(a[1..], b); }
        h + (DropCommonWords(a[1..]) + DropCommonWords(b));
        DropCommonWords(a) + DropCommonWords(b);
      }
    }
  }

  /** Joining clean words with `-` uses safe characters only. */
  lemma {:induction false} JoinIsSafe(parts: seq<string>)
    requires forall k :: 0 <= k < |parts| ==> CleanWord(parts[k])
    ensures forall i :: 0 <= i < |Join(parts, "-")| ==> SafeChar(Join(parts, "-")[i])
    decreases |parts|
  {
    if |parts| > 1 {
      var rest := Join(parts[1..], "-");
      assert forall k :: 0 <= k < |parts[1..]| ==> parts[1..][k] == parts[k + 1];
      JoinIsSafe(parts[1..]);
      var r := Join(parts, "-");
      var h := parts[0] + "-";
      assert r == h + rest;
      forall i | 0 <= i < |r| ensures SafeChar(r[i]) {
        if i < |parts[0]| {
          assert r[i] == parts[0][i];
        } else if i >= |h| {
          assert r[i] == rest[i - |h|];
        }
      }
    }
  }

  /** The words picked from clean text are at most two words that are not
      common words, each of `[a-z0-9_]` only. */
  lemma ChosenWordsAreClean(cleaned: string)
    requires LowerWordText(cleaned)
    ensures var ws := FirstTwo(DropCommonWords(SplitOnSpaces(cleaned)));
      |ws| <= 2 && forall k :: 0 <= k < |ws| ==> ws[k] !in CommonWords && CleanWord(ws[k])
  {
    var all := SplitOnSpaces(cleaned);
    var kept := DropCommonWords(all);
    var ws := FirstTwo(kept);
    SplitOnSpacesWords(cleaned);
    DropCommonWordsKeeps(all);
    forall k | 0 <= k < |ws| ensures ws[k] !in CommonWords && CleanWord(ws[k]) {
      assert ws[k] == kept[k] && kept[k] in all;
    }
  }

  /** A title with a blank becomes at most two words that are not common
      words, joined by `-`, each a run of lower-case letters, digits and `_`. */
  lemma NameOfTitleWithBlank(title: string)
    requires ' ' in title
    ensures exists ws: seq<string> ::
      |ws| <= 2 && Stem(title) == Join(ws, "-")
      && (forall k :: 0 <= k < |ws| ==> ws[k] !in CommonWords && CleanWord(ws[k]))
  {
    var ws := FirstTwo(DropCommonWords(SplitOnSpaces(CleanTitle(title))));
    ChosenWordsAreClean(CleanTitle(title));
    assert Stem(title) == Join(ws, "-");
  }

  /** A title without a blank is only lower-cased, punctuation and all. */
  lemma NameOfSingleWord(title: string)
    requires ' ' !in title
    ensures GenerateFileName(title) == Lower(title) + ".html"
  {
  }

  /** Leading blanks of a title that has a blank do not change its name. */
  lemma LeadingBlankIgnored(title: string)
    requires ' ' in title
    ensures GenerateFileName(" " + title) == GenerateFileName(title)
  {
    var l := Lower(title);
    LowerConcat(" ", title);
    assert Lower(" ") == " ";
    var k := KeepWordsAndSpaces(l);
    assert (" " + l)[1..] == l;
    assert KeepWordsAndSpaces(" " + l) == " " + k;
    assert (" " + k)[1..] == k;
    assert TrimStart(" " + k) == TrimStart(k);
    assert ' ' in " " + title;
  }

  /** At most one position of `r` holds a `-`. */
  predicate AtMostOneDash(r: string)
  {
    forall i, j :: 0 <= i < |r| && 0 <= j < |r| && r[i] == '-' && r[j] == '-' ==> i == j
  }

  /** In two clean words joined by `-`, the joining `-` is the only one. */
  lemma DashBetween(a: string, b: string)
    requires CleanWord(a) && CleanWord(b)
    ensures AtMostOneDash(a + "-" + b)
  {
    var r := a + "-" + b;
    forall i | 0 <= i < |r| && i != |a| ensures r[i] != '-' {
      if i < |a| {
        assert r[i] == a[i];
      } else {
        assert r[i] == b[i - |a| - 1];
      }
    }
  }

  /** Joining at most two clean words with `-` gives at most one `-`. */
  lemma JoinTwoHasOneDash(ws: seq<string>)
    requires |ws| <= 2 && forall k :: 0 <= k < |ws| ==> CleanWord(ws[k])
    ensures AtMostOneDash(Join(ws, "-"))
  {
    if |ws| == 2 {
      assert ws[1..] == [ws[1]];
      DashBetween(ws[0], ws[1]);
    } else if |ws| == 1 {
      assert CleanWord(ws[0]);
    }
  }

  lemma {:induction false} DropAllCommonWords(ws: seq<string>)
    requires forall k :: 0 <= k < |ws| ==> ws[k] in CommonWords
    ensures DropCommonWords(ws) == []
  {
    if ws != [] {
      assert forall k :: 0 <= k < |ws[1..]| ==> ws[1..][k] == ws[k + 1];
      DropAllCommonWords(ws[1..]);
    }
  }

  /** A title with a blank whose words are all common words gets the name `.html`. */
  lemma OnlyCommonWords(title: string)
    requires ' ' in title
    requires forall k :: 0 <= k < |SplitOnSpaces(CleanTitle(title))| ==> SplitOnSpaces(CleanTitle(title))[k] in CommonWords
    ensures GenerateFileName(title) == ".html"
  {
    DropAllCommonWords(SplitOnSpaces(CleanTitle(title)));
  }

  lemma {:induction false} KeepAppend(a: string, b: string)
    ensures KeepWordsAndSpaces(a + b) == KeepWordsAndSpaces(a) + KeepWordsAndSpaces(b)
    decreases |a|
  {
    if a == [] {
      assert a + b == b;
    } else {
      var h := if IsWordChar(a[0]) || IsSpace(a[0]) then [a[0]] else [];
      calc {
        KeepWordsAndSpaces(a + b);
        { AppendHeadTail(a, b); }
        h + KeepWordsAndSpaces(a[1..] + b);
        { KeepAppend(a[1..], b); }
        h + (KeepWordsAndSpaces(a[1..]) + KeepWordsAndSpaces(b));
        KeepWordsAndSpaces(a) + KeepWordsAndSpaces(b);
      }
    }
  }

  /** `trimEnd` drops one trailing whitespace character. */
  lemma TrimEndSpace(t: string, c: char)
    requires IsSpace(c)
    ensures TrimEnd(t + [c]) == TrimEnd(t)
  {
    assert (t + [c])[..|t|] == t;
  }

  /** Trailing whitespace does not survive `trim`. */
  lemma TrimSpaceAfter(y: string, c: char)
    requires IsSpace(c)
    ensures Trim(y + [c]) == Trim(y)
  {
    TrimStartAppend(y, [c]);
    if TrimStart(y) == [] {
      assert [c][1..] == [];
    } else {
      TrimEndSpace(TrimStart(y), c);
    }
  }

  /** Trailing blanks of a title that has a blank do not change its name. */
  lemma TrailingBlankIgnored(title: string)
    requires ' ' in title
    ensures GenerateFileName(title + " ") == GenerateFileName(title)
  {
    var l := Lower(title);
    LowerConcat(title, " ");
    assert Lower(" ") == " ";
    KeepAppend(l, " ");
    assert KeepWordsAndSpaces(" ") == " ";
    TrimSpaceAfter(KeepWordsAndSpaces(l), ' ');
    assert ' ' in title + " ";
  }

  /** `trimStart` of a concatenation. */
  lemma {:induction false} TrimStartAppend(v: string, x: string)
    ensures TrimStart(v) == [] ==> TrimStart(v + x) == TrimStart(x)
    ensures TrimStart(v) != [] ==> TrimStart(v + x) == TrimStart(v) + x
    decreases |v|
  {
    if v == [] {
      assert v + x == x;
    } else {
      AppendHeadTail(v, x);
      if IsSpace(v[0]) {
        TrimStartAppend(v[1..], x);
      }
    }
  }

  /** Splitting text that starts with whitespace. */
  lemma SplitBlankHead(w: string, x: string)
    requires w != [] && IsSpace(w[0])
    ensures SplitOnSpaces(w + x) == [[]] + SplitOnSpaces(TrimStart(w[1..] + x))
  {
    AppendHeadTail(w, x);
  }

  /** Splitting text that starts with a character other than whitespace. */
  lemma SplitWordHead(w: string, x: string)
    requires w != [] && !IsSpace(w[0])
    ensures var ws := SplitOnSpaces(w[1..] + x);
      SplitOnSpaces(w + x) == [[w[0]] + ws[0]] + ws[1..]
  {
    AppendHeadTail(w, x);
  }

  /** Two tails that both start with whitespace and agree after it split alike
      behind any common text. */
  lemma {:induction false} SplitAfterBlank(w: string, u: string, v: string)
    requires u != [] && IsSpace(u[0]) && v != [] && IsSpace(v[0])
    requires TrimStart(u) == TrimStart(v)
    ensures SplitOnSpaces(w + u) == SplitOnSpaces(w + v)
    decreases |w|, 1
  {
    if w == [] {
      assert w + u == u && w + v == v;
    } else if IsSpace(w[0]) {
      SplitAfterBlankHead(w, u, v);
    } else {
      SplitWordHead(w, u);
      SplitWordHead(w, v);
      SplitAfterBlank(w[1..], u, v);
    }
  }

  /** `SplitAfterBlank` when the common text starts with whitespace. */
  lemma {:induction false} SplitAfterBlankHead(w: string, u: string, v: string)
    requires w != [] && IsSpace(w[0])
    requires u != [] && IsSpace(u[0]) && v != [] && IsSpace(v[0])
    requires TrimStart(u) == TrimStart(v)
    ensures SplitOnSpaces(w + u) == SplitOnSpaces(w + v)
    decreases |w|, 0
  {
    var t := w[1..];
    SplitBlankHead(w, u);
    SplitBlankHead(w, v);
    TrimStartAppend(t, u);
    TrimStartAppend(t, v);
    if TrimStart(t) != [] {
      SplitAfterBlank(TrimStart(t), u, v);
    }
  }

  lemma TrimStartBlank(c: char, s: string)
    requires IsSpace(c)
    ensures TrimStart([c] + s) == TrimStart(s)
  {
    assert ([c] + s)[1..] == s;
  }

  /** A run of whitespace separates words like a single whitespace character:
      one more in front of a whitespace character changes no word. */
  lemma SplitOnSpacesRun(w: string, c: char, s: string)
    requires IsSpace(c) && s != [] && IsSpace(s[0])
    ensures SplitOnSpaces(w + [c] + s) == SplitOnSpaces(w + s)
  {
    TrimStartBlank(c, s);
    SplitAfterBlank(w, [c] + s, s);
    assert w + [c] + s == w + ([c] + s);
  }

  /** `trimEnd` of a concatenation. */
  lemma {:induction false} TrimEndAppend(x: string, y: string)
    ensures TrimEnd(y) == [] ==> TrimEnd(x + y) == TrimEnd(x)
    ensures TrimEnd(y) != [] ==> TrimEnd(x + y) == x + TrimEnd(y)
    decreases |y|
  {
    if y == [] {
      assert x + y == x;
    } else {
      var z := x + y;
      assert z[..|z| - 1] == x + y[..|y| - 1];
      if IsSpace(y[|y| - 1]) {
        TrimEndAppend(x, y[..|y| - 1]);
      }
    }
  }

  /** `trim` of two texts around a run of one or two blanks: the run vanishes
      when either side is blank, and is kept as it is otherwise. */
  lemma TrimAroundBlanks(a: string, sep: string, b: string)
    requires sep == " " || sep == "  "
    ensures TrimStart(a) == [] ==> Trim(a + sep + b) == Trim(b)
    ensures TrimStart(a) != [] && TrimEnd(b) == [] ==> Trim(a + sep + b) == TrimEnd(TrimStart(a))
    ensures TrimStart(a) != [] && TrimEnd(b) != [] ==> Trim(a + sep + b) == TrimStart(a) + sep + TrimEnd(b)
  {
    assert TrimStart(sep) == [] && TrimEnd(sep) == [];
    assert a + sep + b == a + (sep + b);
    TrimStartAppend(a, sep + b);
    TrimStartAppend(sep, b);
    var t := TrimStart(a);
    if t != [] {
      assert t + (sep + b) == (t + sep) + b;
      TrimEndAppend(t + sep, b);
      TrimEndAppend(t, sep);
    }
  }

  /** The cleaned text of two title parts around one or two blanks. */
  lemma CleanTitleAround(a: string, sep: string, b: string)
    requires sep == " " || sep == "  "
    ensures CleanTitle(a + sep + b)
         == Trim(KeepWordsAndSpaces(Lower(a)) + sep + KeepWordsAndSpaces(Lower(b)))
  {
    var la := Lower(a);
    assert Lower(sep) == sep;
    LowerConcat(a + sep, b);
    LowerConcat(a, sep);
    assert KeepWordsAndSpaces(sep) == sep;
    KeepAppend(la + sep, Lower(b));
    KeepAppend(la, sep);
  }

  /** After trimming, two blanks between two texts split like one. */
  lemma SplitTrimAround(x: string, y: string)
    ensures SplitOnSpaces(Trim(x + "  " + y)) == SplitOnSpaces(Trim(x + " " + y))
  {
    TrimAroundBlanks(x, " ", y);
    TrimAroundBlanks(x, "  ", y);
    var t, e := TrimStart(x), TrimEnd(y);
    if t != [] && e != [] {
      assert t + "  " + e == t + [' '] + (" " + e);
      assert t + " " + e == t + (" " + e);
      SplitOnSpacesRun(t, ' ', " " + e);
    }
  }

  /** Two blanks inside a title name it like one: a run of blanks separates
      words like a single blank. */
  lemma InnerBlankIgnored(a: string, b: string)
    ensures GenerateFileName(a + "  " + b) == GenerateFileName(a + " " + b)
  {
    var one, two := a + " " + b, a + "  " + b;
    assert one[|a|] == ' ' && two[|a|] == ' ';
    CleanTitleAround(a, " ", b);
    CleanTitleAround(a, "  ", b);
    SplitTrimAround(KeepWordsAndSpaces(Lower(a)), KeepWordsAndSpaces(Lower(b)));
    var ws := SplitOnSpaces(CleanTitle(one));
    NameOfSplit(one, ws);
    NameOfSplit(two, ws);
  }

  /** No whitespace character. */
  predicate NoSpace(w: string)
  {
    forall i :: 0 <= i < |w| ==> !IsSpace(w[i])
  }

  /** A non-empty list of non-empty words without whitespace. */
  predicate Words(ws: seq<string>)
  {
    ws != [] && forall k :: 0 <= k < |ws| ==> ws[k] != [] && NoSpace(ws[k])
  }

  /** Word characters and whitespace pass the punctuation filter unchanged. */
  lemma {:induction false} KeepWordsAndSpacesKeeps(s: string)
    requires forall i :: 0 <= i < |s| ==> IsWordChar(s[i]) || IsSpace(s[i])
    ensures KeepWordsAndSpaces(s) == s
    decreases |s|
  {
    if s != [] {
      assert forall i :: 0 <= i < |s[1..]| ==> s[1..][i] == s[i + 1];
      KeepWordsAndSpacesKeeps(s[1..]);
    }
  }

  /** The punctuation filter drops a lone character that is neither a word
      character nor whitespace. */
  lemma KeepOne(c: char)
    requires !IsWordChar(c) && !IsSpace(c)
    ensures KeepWordsAndSpaces([c]) == []
  {
    assert [c][1..] == [];
  }

  /** The punctuation filter drops a character that is neither a word
      character nor whitespace and keeps clean text on either side. */
  lemma KeepDrop(a: string, c: char, b: string)
    requires forall i :: 0 <= i < |a| ==> IsWordChar(a[i]) || IsSpace(a[i])
    requires forall i :: 0 <= i < |b| ==> IsWordChar(b[i]) || IsSpace(b[i])
    requires !IsWordChar(c) && !IsSpace(c)
    ensures KeepWordsAndSpaces(a + [c] + b) == a + b
  {
    KeepAppend(a + [c], b);
    KeepAppend(a, [c]);
    KeepOne(c);
    KeepWordsAndSpacesKeeps(a);
    KeepWordsAndSpacesKeeps(b);
    assert a + [] == a;
  }

  /** The punctuation filter drops two characters that are neither word
      characters nor whitespace, one inside and one at the end. */
  lemma KeepDropTwo(a: string, c: char, b: string, d: char)
    requires forall i :: 0 <= i < |a| ==> IsWordChar(a[i]) || IsSpace(a[i])
    requires forall i :: 0 <= i < |b| ==> IsWordChar(b[i]) || IsSpace(b[i])
    requires !IsWordChar(c) && !IsSpace(c) && !IsWordChar(d) && !IsSpace(d)
    ensures KeepWordsAndSpaces(a + [c] + b + [d]) == a + b
  {
    KeepDrop(a, c, b);
    KeepAppend(a + [c] + b, [d]);
    KeepOne(d);
    assert a + b + [] == a + b;
  }

  /** Text without whitespace in front of `x` joins the first word of `x`. */
  lemma {:induction false} SplitNoSpacePrefix(w: string, x: string)
    requires NoSpace(w)
    ensures var xs := SplitOnSpaces(x); SplitOnSpaces(w + x) == [w + xs[0]] + xs[1..]
    decreases |w|
  {
    var xs := SplitOnSpaces(x);
    if w == [] {
      assert w + x == x && w + xs[0] == xs[0];
      assert xs == [xs[0]] + xs[1..];
    } else {
      SplitWordHead(w, x);
      assert forall i :: 0 <= i < |w[1..]| ==> w[1..][i] == w[i + 1];
      SplitNoSpacePrefix(w[1..], x);
      var ws := SplitOnSpaces(w[1..] + x);
      assert ws[0] == w[1..] + xs[0] && ws[1..] == xs[1..];
      assert [w[0]] + (w[1..] + xs[0]) == w + xs[0];
    }
  }

  lemma JoinHead(ws: seq<string>, sep: string)
    requires ws != [] && ws[0] != []
    ensures Join(ws, sep) != [] && Join(ws, sep)[0] == ws[0][0]
  {
  }

  /** Splitting undoes joining with single blanks: the words come back. */
  lemma {:induction false} SplitJoin(ws: seq<string>)
    requires Words(ws)
    ensures SplitOnSpaces(Join(ws, " ")) == ws
    decreases |ws|
  {
    if |ws| == 1 {
      SplitNoSpacePrefix(ws[0], []);
      assert ws[0] + [] == ws[0];
      assert SplitOnSpaces([]) == [[]];
    } else {
      var rest := ws[1..];
      assert Words(rest) by {
        assert forall k :: 0 <= k < |rest| ==> rest[k] == ws[k + 1];
      }
      SplitJoin(rest);
      var j := Join(rest, " ");
      var xs := SplitOnSpaces(" " + j);
      assert xs == [[]] + rest by {
        JoinHead(rest, " ");
        assert TrimStart(j) == j;
        SplitBlankHead(" ", j);
        assert " "[1..] + j == j;
      }
      assert Join(ws, " ") == ws[0] + (" " + j);
      SplitNoSpacePrefix(ws[0], " " + j);
      assert xs[0] == [] && xs[1..] == rest;
      assert ws[0] + xs[0] == ws[0];
      assert ws == [ws[0]] + rest;
    }
  }

  /** A word followed by whitespace is the first piece; the split continues
      after the run of whitespace. */
  lemma SplitWordBlank(w: string, x: string)
    requires NoSpace(w) && x != [] && IsSpace(x[0])
    ensures SplitOnSpaces(w + x) == [w] + SplitOnSpaces(TrimStart(x[1..]))
  {
    SplitNoSpacePrefix(w, x);
    var xs := SplitOnSpaces(x);
    assert xs == [[]] + SplitOnSpaces(TrimStart(x[1..]));
    assert w + xs[0] == w;
  }

  /** A title with a blank whose cleaned text splits into `ws` is named after
      the first two of `ws` that are not common words. */
  lemma NameOfSplit(title: string, ws: seq<string>)
    requires ' ' in title && SplitOnSpaces(CleanTitle(title)) == ws
    ensures GenerateFileName(title) == Join(FirstTwo(DropCommonWords(ws)), "-") + ".html"
  {
  }

  /** A title with a blank whose cleaned text is `ws` joined by single blanks
      is named after the first two of `ws` that are not common words. */
  lemma NameOfWords(title: string, ws: seq<string>)
    requires ' ' in title && Words(ws)
    requires CleanTitle(title) == Join(ws, " ")
    ensures GenerateFileName(title) == Join(FirstTwo(DropCommonWords(ws)), "-") + ".html"
  {
    SplitJoin(ws);
    NameOfSplit(title, ws);
  }
}
