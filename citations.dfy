/** The citation builder of `convertCitationsDocx`: the cleaned HTML is cut at
    every `<p>` and `</p>`, blank pieces are dropped, the others are trimmed,
    and each becomes a numbered citation block that links back to its marker. */
module Citations {
  import opened Wrappers
  import opened Strings
  import opened Footnotes

  /** A `<p>` starts at position `j` of `s`. */
  predicate OpenAt(s: string, j: nat)
  {
    j + 3 <= |s| && s[j] == '<' && s[j + 1] == 'p' && s[j + 2] == '>'
  }

  /** A `</p>` starts at position `j` of `s`. */
  predicate CloseAt(s: string, j: nat)
  {
    j + 4 <= |s| && s[j] == '<' && s[j + 1] == '/' && s[j + 2] == 'p' && s[j + 3] == '>'
  }

  /** The separator `/<\/?p>/` matches at position `j`. */
  predicate TagAt(s: string, j: nat)
  {
    OpenAt(s, j) || CloseAt(s, j)
  }

  /** The length of the separator that matches at `j`. */
  function TagLength(s: string, j: nat): (l: nat)
    requires TagAt(s, j)
    ensures 3 <= l && j + l <= |s|
  {
    if OpenAt(s, j) then 3 else 4
  }

  /** The position of the leftmost separator of `s` at or after `from`, if there is one. */
  function FindTagFrom(s: string, from: nat): (m: Option<nat>)
    requires from <= |s|
    ensures m.Some? ==> from <= m.value && TagAt(s, m.value)
    decreases |s| - from
  {
    if |s| < from + 3 then None
    else if TagAt(s, from) then Some(from)
    else FindTagFrom(s, from + 1)
  }

  /** The separator found is the leftmost one: there is none between `from`
      and it, and none at all when nothing is found. */
  lemma {:induction false} FindTagFromIsFirst(s: string, from: nat)
    requires from <= |s|
    ensures FindTagFrom(s, from).Some? ==> forall j :: from <= j < FindTagFrom(s, from).value ==> !TagAt(s, j)
    ensures FindTagFrom(s, from).None? ==> forall j :: from <= j <= |s| ==> !TagAt(s, j)
    decreases |s| - from
  {
    if |s| >= from + 3 && !TagAt(s, from) {
      FindTagFromIsFirst(s, from + 1);
    }
  }

  /** A separator at `i` with none between `from` and `i` is the one found. */
  lemma {:induction false} FindTagFromFinds(s: string, from: nat, i: nat)
    requires from <= i <= |s| && TagAt(s, i)
    requires forall j :: from <= j < i ==> !TagAt(s, j)
    ensures FindTagFrom(s, from) == Some(i)
    decreases i - from
  {
    if from < i {
      FindTagFromFinds(s, from + 1, i);
    }
  }

  /** The pieces of `s[from..]`, cut at every separator. */
  function SplitFrom(s: string, from: nat): (ps: seq<string>)
    requires from <= |s|
    ensures |ps| >= 1
    decreases |s| - from
  {
    match FindTagFrom(s, from)
    case None => [s[from..]]
    case Some(i) => [s[from..i]] + SplitFrom(s, i + TagLength(s, i))
  }

  /** The separators cut out of `s[from..]`, in order. */
  function SeparatorsFrom(s: string, from: nat): (ts: seq<string>)
    requires from <= |s|
    ensures |ts| == |SplitFrom(s, from)| - 1
    decreases |s| - from
  {
    match FindTagFrom(s, from)
    case None => []
    case Some(i) => [s[i..i + TagLength(s, i)]] + SeparatorsFrom(s, i + TagLength(s, i))
  }

  /** `html.split(/<\/?p>/)`: the pieces between consecutive separators, the
      piece before the first and the piece after the last included, even when
      empty. The empty string splits into one empty piece. */
  function Split(s: string): (ps: seq<string>)
    ensures |ps| >= 1
  {
    match FindTagFrom(s, 0)
    case None => [s]
    case Some(i) => [s[..i]] + SplitFrom(s, i + TagLength(s, i))
  }

  /** The separators that `Split` cut out, in order. */
  function Separators(s: string): (ts: seq<string>)
    ensures |ts| == |Split(s)| - 1
  {
    match FindTagFrom(s, 0)
    case None => []
    case Some(i) => [s[i..i + TagLength(s, i)]] + SeparatorsFrom(s, i + TagLength(s, i))
  }

  /** Pieces and separators, alternated. */
  function Interleave(ps: seq<string>, ts: seq<string>): string
    requires |ps| == |ts| + 1
  {
    if ts == [] then ps[0] else ps[0] + ts[0] + Interleave(ps[1..], ts[1..])
  }

  /** Every piece trimmed. */
  function TrimAll(ps: seq<string>): seq<string>
  {
    seq(|ps|, k requires 0 <= k < |ps| => Trim(ps[k]))
  }

  /** The non-empty strings of `ps`, in order. */
  function DropEmpty(ps: seq<string>): (r: seq<string>)
    ensures |r| <= |ps|
  {
    if ps == [] then []
    else (if ps[0] == [] then [] else [ps[0]]) + DropEmpty(ps[1..])
  }

  /** The citation paragraphs of the cleaned HTML:
      `.filter(p => p.trim().length > 0).map(p => p.trim())` keeps exactly the
      pieces whose trimmed text is non-empty, trimmed, which is trimming every
      piece and then dropping the empty results. */
  function Paragraphs(html: string): (r: seq<string>)
    ensures forall k :: 0 <= k < |r| ==>
      Trimmed(r[k]) && exists j :: 0 <= j < |Split(html)| && r[k] == Trim(Split(html)[j])
  {
    KeptAreTrimmed(Split(html));
    DropEmpty(TrimAll(Split(html)))
  }

  const BlockOpen: string := "<p class='text footnote' id='"
  const BlockMiddle: string := "' onclick=\"goToElementWithHighlightModern('"
  const BlockClose: string := "')\">"
  const BlockEnd: string := "</p>\n"

  /** Citation `n`: its id is the one footnote marker `n` scrolls to, and its
      click handler scrolls back to marker `n`. */
  function Block(n: nat, paragraph: string): string
  {
    BlockOpen + TargetId(n) + BlockMiddle + LinkId(n) + BlockClose + paragraph + BlockEnd
  }

  /** The paragraphs as citation blocks, the k-th numbered `n + k`. */
  function BlockList(ps: seq<string>, n: nat): seq<string>
  {
    seq(|ps|, k requires 0 <= k < |ps| => Block(n + k, ps[k]))
  }

  /** The strings of `xs`, one after the other: as long as they are together. */
  function Concat(xs: seq<string>): (r: string)
    ensures |r| == TotalLength(xs)
  {
    if xs == [] then [] else xs[0] + Concat(xs[1..])
  }

  /** The citation blocks of the paragraphs, numbered from `n`: empty exactly
      when there are no paragraphs. */
  function Blocks(ps: seq<string>, n: nat): (r: string)
    ensures (r == []) == (ps == [])
  {
    Concat(BlockList(ps, n))
  }

  /** The `forEach` of `convertCitationsDocx`: one block per paragraph,
      appended in order, numbered from 1. */
  method BuildCitations(paragraphs: seq<string>) returns (r: string)
    ensures r == Blocks(paragraphs, 1)
    ensures paragraphs == [] ==> r == []
  {
    r := "";
    for index := 0 to |paragraphs|
      invariant r == Concat(BlockList(paragraphs[..index], 1))
    {
      var footnoteNumber := index + 1;
      BlockListSnoc(paragraphs, index, 1);
      ConcatSnoc(BlockList(paragraphs[..index], 1), Block(footnoteNumber, paragraphs[index]));
      r := r + Block(footnoteNumber, paragraphs[index]);
    }
    assert paragraphs[..|paragraphs|] == paragraphs;
  }

  /** One more paragraph, one more block at the end, numbered by its position. */
  lemma BlockListSnoc(ps: seq<string>, i: nat, n: nat)
    requires i < |ps|
    ensures BlockList(ps[..i + 1], n) == BlockList(ps[..i], n) + [Block(n + i, ps[i])]
  {
  }

  lemma {:induction false} ConcatSnoc(xs: seq<string>, x: string)
    ensures Concat(xs + [x]) == Concat(xs) + x
  {
    if xs == [] {
      assert [] + [x] == [x];
      assert [x][1..] == [];
    } else {
      assert (xs + [x])[1..] == xs[1..] + [x];
      ConcatSnoc(xs[1..], x);
    }
  }

  lemma {:induction false} ConcatAppend(xs: seq<string>, ys: seq<string>)
    ensures Concat(xs + ys) == Concat(xs) + Concat(ys)
  {
    if xs == [] {
      assert xs + ys == ys;
    } else {
      assert (xs + ys)[1..] == xs[1..] + ys;
      ConcatAppend(xs[1..], ys);
    }
  }

  /** The blocks of two runs of paragraphs: the second run continues the numbering. */
  lemma BlocksAppend(a: seq<string>, b: seq<string>, n: nat)
    ensures Blocks(a + b, n) == Blocks(a, n) + Blocks(b, n + |a|)
  {
    assert BlockList(a + b, n) == BlockList(a, n) + BlockList(b, n + |a|);
    ConcatAppend(BlockList(a, n), BlockList(b, n + |a|));
  }

  /** The first cut of `s[from..]`, at the separator found at `i`. */
  lemma FirstCut(s: string, from: nat, i: nat)
    requires from <= |s| && FindTagFrom(s, from) == Some(i)
    ensures SplitFrom(s, from) == [s[from..i]] + SplitFrom(s, i + TagLength(s, i))
    ensures SeparatorsFrom(s, from) == [s[i..i + TagLength(s, i)]] + SeparatorsFrom(s, i + TagLength(s, i))
  {
  }

  /** Interleaving a first piece and separator in front of the rest. */
  lemma InterleaveCons(p: string, t: string, ps: seq<string>, ts: seq<string>)
    requires |ps| == |ts| + 1
    ensures Interleave([p] + ps, [t] + ts) == p + t + Interleave(ps, ts)
  {
    assert ([p] + ps)[1..] == ps && ([t] + ts)[1..] == ts;
  }

  /** Pieces joined back with the separators between them are the text they came from. */
  lemma {:induction false} SplitFromInterleave(s: string, from: nat)
    requires from <= |s|
    ensures Interleave(SplitFrom(s, from), SeparatorsFrom(s, from)) == s[from..]
    decreases |s| - from
  {
    match FindTagFrom(s, from)
    case None =>
    case Some(i) =>
      var l := TagLength(s, i);
      var ps, ts := SplitFrom(s, i + l), SeparatorsFrom(s, i + l);
      assert Interleave(ps, ts) == s[i + l..] by {
        SplitFromInterleave(s, i + l);
      }
      assert SplitFrom(s, from) == [s[from..i]] + ps && SeparatorsFrom(s, from) == [s[i..i + l]] + ts by {
        FirstCut(s, from, i);
      }
      InterleaveCons(s[from..i], s[i..i + l], ps, ts);
      SuffixSplit(s, from, i, i + l);
  }

  /** Pieces joined back with the separators between them are the original HTML. */
  lemma SplitInterleave(s: string)
    ensures Interleave(Split(s), Separators(s)) == s
  {
    match FindTagFrom(s, 0)
    case None =>
    case Some(i) =>
      var l := TagLength(s, i);
      var ps, ts := Split(s), Separators(s);
      assert ps[0] == s[..i] && ps[1..] == SplitFrom(s, i + l);
      assert ts[0] == s[i..i + l] && ts[1..] == SeparatorsFrom(s, i + l);
      SplitFromInterleave(s, i + l);
      SliceSplit(s, i, i + l);
  }

  /** A separator inside a slice is a separator of the whole text, at the shifted position. */
  lemma TagAtSlice(s: string, a: nat, b: nat, j: nat)
    requires a <= b <= |s| && TagAt(s[a..b], j)
    ensures TagAt(s, a + j) && a + j + 3 <= b
  {
    var t := s[a..b];
    assert t[j] == s[a + j] && t[j + 1] == s[a + j + 1] && t[j + 2] == s[a + j + 2];
    if CloseAt(t, j) {
      assert t[j + 3] == s[a + j + 3];
    }
  }

  /** No piece holds a `<p>` or a `</p>`. */
  lemma {:induction false} SplitFromPiecesHaveNoTag(s: string, from: nat)
    requires from <= |s|
    ensures forall k, j :: 0 <= k < |SplitFrom(s, from)| && 0 <= j <= |SplitFrom(s, from)[k]| ==> !TagAt(SplitFrom(s, from)[k], j)
    decreases |s| - from
  {
    var ps := SplitFrom(s, from);
    FindTagFromIsFirst(s, from);
    match FindTagFrom(s, from)
    case None =>
      forall j | 0 <= j <= |ps[0]| ensures !TagAt(ps[0], j) {
        if TagAt(s[from..|s|], j) {
          TagAtSlice(s, from, |s|, j);
        }
      }
    case Some(i) =>
      var l := TagLength(s, i);
      assert ps[0] == s[from..i] && ps[1..] == SplitFrom(s, i + l);
      SplitFromPiecesHaveNoTag(s, i + l);
      forall k, j | 0 <= k < |ps| && 0 <= j <= |ps[k]| ensures !TagAt(ps[k], j) {
        if k == 0 {
          if TagAt(s[from..i], j) {
            TagAtSlice(s, from, i, j);
          }
        } else {
          assert ps[k] == SplitFrom(s, i + l)[k - 1];
        }
      }
  }

  /** A separator inside a prefix is a separator of the whole text. */
  lemma TagAtPrefix(s: string, b: nat, j: nat)
    requires b <= |s| && TagAt(s[..b], j)
    ensures TagAt(s, j) && j + 3 <= b
  {
    var t := s[..b];
    assert t[j] == s[j] && t[j + 1] == s[j + 1] && t[j + 2] == s[j + 2];
    if CloseAt(t, j) {
      assert t[j + 3] == s[j + 3];
    }
  }

  /** No piece of the HTML holds a `<p>` or a `</p>`. */
  lemma SplitPiecesHaveNoTag(s: string)
    ensures forall k, j :: 0 <= k < |Split(s)| && 0 <= j <= |Split(s)[k]| ==> !TagAt(Split(s)[k], j)
  {
    var ps := Split(s);
    FindTagFromIsFirst(s, 0);
    match FindTagFrom(s, 0)
    case None =>
    case Some(i) =>
      var l := TagLength(s, i);
      assert ps[0] == s[..i] && ps[1..] == SplitFrom(s, i + l);
      SplitFromPiecesHaveNoTag(s, i + l);
      forall k, j | 0 <= k < |ps| && 0 <= j <= |ps[k]| ensures !TagAt(ps[k], j) {
        if k == 0 {
          if TagAt(s[..i], j) {
            TagAtPrefix(s, i, j);
          }
        } else {
          assert ps[k] == SplitFrom(s, i + l)[k - 1];
        }
      }
  }

  /** The text a separator match covers is `<p>` or `</p>`. */
  lemma TagText(s: string, i: nat)
    requires TagAt(s, i)
    ensures s[i..i + TagLength(s, i)] in {"<p>", "</p>"}
  {
    var t := s[i..i + TagLength(s, i)];
    if OpenAt(s, i) {
      assert t == "<p>" by {
        assert |t| == 3 && t[0] == '<' && t[1] == 'p' && t[2] == '>';
      }
    } else {
      assert t == "</p>" by {
        assert |t| == 4 && t[0] == '<' && t[1] == '/' && t[2] == 'p' && t[3] == '>';
      }
    }
  }

  /** Every separator is `<p>` or `</p>`. */
  lemma {:induction false} SeparatorsFromAreTags(s: string, from: nat)
    requires from <= |s|
    ensures forall k :: 0 <= k < |SeparatorsFrom(s, from)| ==> SeparatorsFrom(s, from)[k] in {"<p>", "</p>"}
    decreases |s| - from
  {
    match FindTagFrom(s, from)
    case None =>
    case Some(i) =>
      var l := TagLength(s, i);
      var ts := SeparatorsFrom(s, from);
      assert ts[0] == s[i..i + l] && ts[1..] == SeparatorsFrom(s, i + l);
      SeparatorsFromAreTags(s, i + l);
      TagText(s, i);
      forall k | 0 <= k < |ts| ensures ts[k] in {"<p>", "</p>"} {
        if k > 0 {
          assert ts[k] == SeparatorsFrom(s, i + l)[k - 1];
        }
      }
  }

  /** Every separator of the HTML is `<p>` or `</p>`. */
  lemma SeparatorsAreTags(s: string)
    ensures forall k :: 0 <= k < |Separators(s)| ==> Separators(s)[k] in {"<p>", "</p>"}
  {
    match FindTagFrom(s, 0)
    case None =>
    case Some(i) =>
      var l := TagLength(s, i);
      var ts := Separators(s);
      assert ts[0] == s[i..i + l] && ts[1..] == SeparatorsFrom(s, i + l);
      SeparatorsFromAreTags(s, i + l);
      TagText(s, i);
      forall k | 0 <= k < |ts| ensures ts[k] in {"<p>", "</p>"} {
        if k > 0 {
          assert ts[k] == SeparatorsFrom(s, i + l)[k - 1];
        }
      }
  }

  /** Text without `<` is a single piece. */
  lemma SplitPlain(a: string)
    requires '<' !in a
    ensures Split(a) == [a]
  {
    forall j | 0 <= j <= |a| ensures !TagAt(a, j) {
      if j < |a| {
        assert a[j] in a;
      }
    }
    assert FindTagFrom(a, 0).None?;
  }

  lemma {:induction false} DropEmptyAppend(a: seq<string>, b: seq<string>)
    ensures DropEmpty(a + b) == DropEmpty(a) + DropEmpty(b)
    decreases |a|
  {
    if a == [] {
      assert a + b == b;
    } else {
      var h := if a[0] == [] then [] else [a[0]];
      calc {
        DropEmpty(a + b);
        { AppendHeadTail(a, b); }
        h + DropEmpty(a[1..] + b);
        { DropEmptyAppend(a[1..], b); }
        h + (DropEmpty(a[1..]) + DropEmpty(b));
        DropEmpty(a) + DropEmpty(b);
      }
    }
  }

  /** What is kept is non-empty, and comes from the input. */
  lemma {:induction false} DropEmptyKeeps(ps: seq<string>)
    ensures forall k :: 0 <= k < |DropEmpty(ps)| ==> DropEmpty(ps)[k] != [] && DropEmpty(ps)[k] in ps
  {
    if ps != [] {
      DropEmptyKeeps(ps[1..]);
      var h := if ps[0] == [] then [] else [ps[0]];
      var t := DropEmpty(ps[1..]);
      var r := DropEmpty(ps);
      assert r == h + t;
      forall k | 0 <= k < |r| ensures r[k] != [] && r[k] in ps {
        if k < |h| {
          assert r[k] == ps[0];
        } else {
          assert r[k] == t[k - |h|];
          assert t[k - |h|] in ps[1..];
        }
      }
    }
  }

  /** Every non-empty string of `ps` is kept. */
  lemma {:induction false} DropEmptyCompleteness(ps: seq<string>, k: nat)
    requires k < |ps| && ps[k] != []
    ensures ps[k] in DropEmpty(ps)
  {
    if k > 0 {
      DropEmptyCompleteness(ps[1..], k - 1);
    }
  }

  /** Each piece kept after trimming and dropping the empty ones is non-empty
      and trimmed, and is the trimmed text of one of the pieces. */
  lemma KeptAreTrimmed(ps: seq<string>)
    ensures forall k :: 0 <= k < |DropEmpty(TrimAll(ps))| ==>
      Trimmed(DropEmpty(TrimAll(ps))[k]) && exists j :: 0 <= j < |ps| && DropEmpty(TrimAll(ps))[k] == Trim(ps[j])
  {
    var t := TrimAll(ps);
    var r := DropEmpty(t);
    DropEmptyKeeps(t);
    forall k | 0 <= k < |r|
      ensures Trimmed(r[k]) && exists j :: 0 <= j < |ps| && r[k] == Trim(ps[j])
    {
      var j :| 0 <= j < |t| && t[j] == r[k];
    }
  }

  /** Every piece whose trimmed text is non-empty is a paragraph. */
  lemma ParagraphsAreComplete(html: string, j: nat)
    requires j < |Split(html)| && Trim(Split(html)[j]) != []
    ensures Trim(Split(html)[j]) in Paragraphs(html)
  {
    DropEmptyCompleteness(TrimAll(Split(html)), j);
  }

  /** Empty HTML has no paragraphs, so no citations. */
  lemma ParagraphsOfEmpty()
    ensures Paragraphs("") == []
  {
    SplitPlain("");
  }
}
