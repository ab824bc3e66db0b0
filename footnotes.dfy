/** The footnote linker of `convertArticleDocx`: every literal `<sup>` of the
    cleaned article HTML becomes a numbered, clickable footnote marker. */
module Footnotes {
  import opened Wrappers
  import opened Strings

  const Sup: string := "<sup>"

  /** A literal `<sup>` starts at position `j` of `s`. */
  predicate SupAt(s: string, j: nat)
  {
    j + 5 <= |s| && s[j] == '<' && s[j + 1] == 's' && s[j + 2] == 'u' && s[j + 3] == 'p' && s[j + 4] == '>'
  }

  /** Occurrences in `p + z` from position `|p|` on are the occurrences in `z`. */
  lemma SupAtShift(p: string, z: string)
    ensures forall j :: 0 <= j <= |z| ==> SupAt(p + z, |p| + j) == SupAt(z, j)
  {
  }

  /** Occurrences in `s` after its first character are the occurrences in `s[1..]`. */
  lemma SupAtTail(s: string)
    requires s != []
    ensures forall j :: 1 <= j <= |s| ==> SupAt(s, j) == SupAt(s[1..], j - 1)
  {
  }

  /** The position of the first literal `<sup>` of `s`, if there is one. */
  function Find(s: string): (m: Option<nat>)
    ensures m.Some? ==> SupAt(s, m.value) && forall j :: 0 <= j < m.value ==> !SupAt(s, j)
    ensures m.None? ==> forall j :: 0 <= j <= |s| ==> !SupAt(s, j)
  {
    if |s| < 5 then None
    else if SupAt(s, 0) then Some(0)
    else
      var m := Find(s[1..]);
      SupAtTail(s);
      match m
      case None => None
      case Some(j) => Some(j + 1)
  }

  /** `(html.match(/<sup>/g) || []).length`: the number of literal `<sup>` tags. */
  function Count(s: string): (k: nat)
    decreases |s|
  {
    match Find(s)
    case None => 0
    case Some(i) => 1 + Count(s[i + 5..])
  }

  /** The id of the n-th footnote marker in the article body: `fl` and digits. */
  function LinkId(n: nat): (r: string)
    ensures |r| >= 3 && r[0] == 'f' && r[1] == 'l'
    ensures forall k :: 2 <= k < |r| ==> IsDigit(r[k])
  {
    "fl" + NatToString(n)
  }

  /** The id of the n-th citation block: `f` and digits. */
  function TargetId(n: nat): (r: string)
    ensures |r| >= 2 && r[0] == 'f'
    ensures forall k :: 1 <= k < |r| ==> IsDigit(r[k])
  {
    "f" + NatToString(n)
  }

  const TagOpen: string := "<sup class='footnoteLink' id='"
  const TagMiddle: string := "' onclick=\"goToElementWithHighlightModern('"
  const TagClose: string := "')\">"

  /** The opening tag that replaces the n-th `<sup>`; its click handler
      scrolls to citation n. It starts with `<sup ` and holds no other `<`, so
      no literal `<sup>` starts inside it. */
  function Tag(n: nat): (r: string)
    ensures |r| >= 5
    ensures r[0] == '<' && r[1] == 's' && r[2] == 'u' && r[3] == 'p' && r[4] == ' '
    ensures forall k :: 1 <= k < |r| ==> r[k] != '<'
  {
    TagTextShape(LinkId(n), TargetId(n));
    TagOpen + LinkId(n) + TagMiddle + TargetId(n) + TagClose
  }

  /** `s.replace('<sup>', t)`: only the first literal occurrence is replaced. */
  function ReplaceFirst(s: string, t: string): (r: string)
  {
    match Find(s)
    case None => s
    case Some(i) => s[..i] + t + s[i + 5..]
  }

  /** The first `b` literal `<sup>` tags of `s` replaced, in order, by the tags
      numbered `n`, `n + 1`, ...; everything after them unchanged. */
  function Link(s: string, n: nat, b: nat): (r: string)
    decreases b
  {
    if b == 0 then s
    else match Find(s)
      case None => s
      case Some(i) => s[..i] + Tag(n) + Link(s[i + 5..], n + 1, b - 1)
  }

  /** The footnote loop of `convertArticleDocx`: the tags are counted once,
      then the first remaining `<sup>` is rewritten once per footnote number. */
  method LinkFootnotes(html: string) returns (r: string)
    ensures r == Link(html, 1, Count(html))
    ensures Count(html) == 0 ==> r == html
  {
    var footnoteCount := Count(html);
    r := html;
    for i := 1 to footnoteCount + 1
      invariant r == Link(html, 1, i - 1)
    {
      LinkStep(html, 1, i - 1);
      r := ReplaceFirst(r, Tag(i));
    }
  }

  /** The fixed parts of the tag: it opens with `<sup ` and has no other `<`. */
  lemma TagPiecesHaveNoOpenBracket()
    ensures TagOpen[0] == '<' && TagOpen[1] == 's' && TagOpen[2] == 'u' && TagOpen[3] == 'p' && TagOpen[4] == ' '
    ensures forall k :: 1 <= k < |TagOpen| ==> TagOpen[k] != '<'
    ensures forall k :: 0 <= k < |TagMiddle| ==> TagMiddle[k] != '<'
    ensures forall k :: 0 <= k < |TagClose| ==> TagClose[k] != '<'
  {
    TagOpenShape();
    TagMiddleShape();
  }

  lemma TagOpenShape()
    ensures TagOpen[0] == '<' && TagOpen[1] == 's' && TagOpen[2] == 'u' && TagOpen[3] == 'p' && TagOpen[4] == ' '
    ensures forall k :: 1 <= k < |TagOpen| ==> TagOpen[k] != '<'
  {
  }

  lemma TagMiddleShape()
    ensures forall k :: 0 <= k < |TagMiddle| ==> TagMiddle[k] != '<'
  {
  }

  /** The tag text around two ids without `<` starts with `<sup ` and holds
      no other `<`. */
  lemma TagTextShape(l: string, f: string)
    requires forall k :: 0 <= k < |l| ==> l[k] != '<'
    requires forall k :: 0 <= k < |f| ==> f[k] != '<'
    ensures var t := TagOpen + l + TagMiddle + f + TagClose;
      |t| >= 5 && t[0] == '<' && t[1] == 's' && t[2] == 'u' && t[3] == 'p' && t[4] == ' '
      && forall k :: 1 <= k < |t| ==> t[k] != '<'
  {
    TagPiecesHaveNoOpenBracket();
    var t := TagOpen + l + TagMiddle + f + TagClose;
    var o, m := |TagOpen|, |TagMiddle|;
    forall k | 1 <= k < |t| ensures t[k] != '<' {
      if k < o {
        assert t[k] == TagOpen[k];
      } else if k < o + |l| {
        assert t[k] == l[k - o];
      } else if k < o + |l| + m {
        assert t[k] == TagMiddle[k - o - |l|];
      } else if k < o + |l| + m + |f| {
        assert t[k] == f[k - o - |l| - m];
      } else {
        assert t[k] == TagClose[k - o - |l| - m - |f|];
      }
    }
  }

  /** A prefix in which no `<sup>` starts shifts the search by its own length. */
  lemma FindSkip(p: string, z: string)
    requires forall j :: 0 <= j < |p| ==> !SupAt(p + z, j)
    ensures Find(p + z) == match Find(z) case None => None case Some(k) => Some(|p| + k)
  {
    var x := p + z;
    SupAtShift(p, z);
    match Find(z)
    case None =>
      forall j | |p| <= j <= |x| ensures !SupAt(x, j) {
        assert !SupAt(z, j - |p|);
      }
    case Some(k) =>
      assert SupAt(x, |p| + k);
      forall j | |p| <= j < |p| + k ensures !SupAt(x, j) {
        assert !SupAt(z, j - |p|);
      }
  }

  /** No `<sup>` starts inside a freshly inserted tag. */
  lemma NoSupInTag(a: string, n: nat, z: string)
    ensures forall j :: |a| <= j < |a| + |Tag(n)| ==> !SupAt(a + Tag(n) + z, j)
  {
    var t := Tag(n);
    var x := a + t + z;
    forall j | |a| <= j < |a| + |t| ensures !SupAt(x, j) {
      if j == |a| {
        assert x[j + 4] == t[4] == ' ';
      } else {
        assert x[j] == t[j - |a|] != '<';
      }
    }
  }

  /** No `<sup>` starts inside the text up to and including a freshly inserted
      tag when the original had none before it. */
  lemma NoSupBeforeTag(s: string, i: nat, n: nat, z: string)
    requires i <= |s| && forall j :: 0 <= j < i ==> !SupAt(s, j)
    ensures forall j :: 0 <= j < i + |Tag(n)| ==> !SupAt(s[..i] + Tag(n) + z, j)
  {
    var t := Tag(n);
    var x := s[..i] + t + z;
    NoSupInTag(s[..i], n, z);
    forall j | 0 <= j < i ensures !SupAt(x, j) {
      if j + 5 <= i {
        assert !SupAt(s, j);
      } else {
        assert x[i] == t[0] == '<';
      }
    }
  }

  /** A prefix in which no `<sup>` starts adds nothing to the count. */
  lemma CountSkip(p: string, z: string)
    requires forall j :: 0 <= j < |p| ==> !SupAt(p + z, j)
    ensures Count(p + z) == Count(z)
  {
    FindSkip(p, z);
    match Find(z)
    case None =>
    case Some(k) =>
      assert (p + z)[|p| + k + 5..] == z[k + 5..];
  }

  /** One `replace('<sup>', tag)` call with a numbered marker leaves one bare
      `<sup>` fewer. */
  lemma ReplaceFirstCount(s: string, n: nat)
    requires Find(s).Some?
    ensures Count(ReplaceFirst(s, Tag(n))) == Count(s) - 1
  {
    var i := Find(s).value;
    var z := s[i + 5..];
    NoSupBeforeTag(s, i, n, z);
    CountSkip(s[..i] + Tag(n), z);
  }

  /** Linking `b` footnotes leaves `b` bare `<sup>` tags fewer, and none once
      `b` reaches their number. */
  lemma {:induction false} LinkCount(s: string, n: nat, b: nat)
    ensures Count(Link(s, n, b)) == if b <= Count(s) then Count(s) - b else 0
    decreases b
  {
    match Find(s)
    case None =>
      assert Link(s, n, b) == s && Count(s) == 0;
    case Some(i) =>
      if b > 0 {
        LinkCount(s[i + 5..], n + 1, b - 1);
        LinkCountAt(s, n, b, i);
      }
  }

  /** The step of `LinkCount` for a text whose first `<sup>` is at `i`. */
  lemma LinkCountAt(s: string, n: nat, b: nat, i: nat)
    requires b > 0 && Find(s) == Some(i)
    requires var c := Count(s[i + 5..]);
      Count(Link(s[i + 5..], n + 1, b - 1)) == if b - 1 <= c then c - (b - 1) else 0
    ensures Count(Link(s, n, b)) == if b <= Count(s) then Count(s) - b else 0
  {
    var l := Link(s[i + 5..], n + 1, b - 1);
    NoSupBeforeTag(s, i, n, l);
    CountSkip(s[..i] + Tag(n), l);
  }

  /** Cutting `p + z` around a window of `z` is cutting `z` around it. */
  lemma SliceAround(p: string, z: string, k: nat, t: string)
    requires k + 5 <= |z|
    ensures (p + z)[..|p| + k] + t + (p + z)[|p| + k + 5..] == p + (z[..k] + t + z[k + 5..])
  {
    var x := p + z;
    assert x[..|p| + k] == p + z[..k];
    assert x[|p| + k + 5..] == z[k + 5..];
  }

  /** Replacing the first `<sup>` leaves a prefix alone when none starts in it. */
  lemma ReplaceFirstSkip(p: string, z: string, t: string)
    requires forall j :: 0 <= j < |p| ==> !SupAt(p + z, j)
    ensures ReplaceFirst(p + z, t) == p + ReplaceFirst(z, t)
  {
    FindSkip(p, z);
    ReplaceFirstShift(p, z, t);
  }

  /** Replacing the first `<sup>` leaves a prefix alone when the first `<sup>`
      of the whole text is the first one after the prefix. */
  lemma ReplaceFirstShift(p: string, z: string, t: string)
    requires Find(p + z) == match Find(z) case None => None case Some(k) => Some(|p| + k)
    ensures ReplaceFirst(p + z, t) == p + ReplaceFirst(z, t)
  {
    match Find(z)
    case None =>
    case Some(k) =>
      assert ReplaceFirst(z, t) == z[..k] + t + z[k + 5..];
      assert ReplaceFirst(p + z, t) == (p + z)[..|p| + k] + t + (p + z)[|p| + k + 5..];
      SliceAround(p, z, k, t);
  }

  /** The first `replace` call links the first footnote. */
  lemma LinkFirst(s: string, n: nat)
    requires Find(s).Some?
    ensures ReplaceFirst(s, Tag(n)) == Link(s, n, 1)
  {
    var i := Find(s).value;
    assert Link(s[i + 5..], n + 1, 0) == s[i + 5..];
  }

  /** The step of `LinkStep` for a text whose first `<sup>` is at `i`: what holds
      for the text after it holds for the whole text. */
  lemma LinkStepAt(s: string, n: nat, b: nat, i: nat)
    requires Find(s) == Some(i)
    requires b > 0 ==> ReplaceFirst(Link(s[i + 5..], n + 1, b - 1), Tag(n + b)) == Link(s[i + 5..], n + 1, b)
    ensures ReplaceFirst(Link(s, n, b), Tag(n + b)) == Link(s, n, b + 1)
  {
    if b == 0 {
      LinkFirst(s, n);
      return;
    }
    var rest := s[i + 5..];
    var p, l, t := s[..i] + Tag(n), Link(rest, n + 1, b - 1), Tag(n + b);
    calc {
      ReplaceFirst(Link(s, n, b), t);
      ReplaceFirst(p + l, t);
      { NoSupBeforeTag(s, i, n, l);
        ReplaceFirstSkip(p, l, t); }
      p + ReplaceFirst(l, t);
      p + Link(rest, n + 1, b);
      Link(s, n, b + 1);
    }
  }

  /** The count is zero exactly when there is no `<sup>`; the tags it counts
      never overlap, so there are at most a fifth as many as characters. */
  lemma {:induction false} CountBounds(s: string)
    ensures (Count(s) == 0) == Find(s).None?
    ensures 5 * Count(s) <= |s|
    decreases |s|
  {
    match Find(s)
    case None =>
    case Some(i) =>
      CountBounds(s[i + 5..]);
  }

  /** A text with a footnote has a first `<sup>`, and one footnote fewer after it. */
  lemma CountPositive(s: string)
    requires Count(s) > 0
    ensures Find(s).Some? && Count(s[Find(s).value + 5..]) == Count(s) - 1
  {
  }

  /** One more `replace` call turns `b` linked footnotes into `b + 1`. */
  lemma {:induction false} LinkStep(s: string, n: nat, b: nat)
    requires b < Count(s)
    ensures ReplaceFirst(Link(s, n, b), Tag(n + b)) == Link(s, n, b + 1)
    decreases b
  {
    CountPositive(s);
    var i := Find(s).value;
    if b > 0 {
      LinkStep(s[i + 5..], n + 1, b - 1);
    }
    LinkStepAt(s, n, b, i);
  }

  /** The text between consecutive literal `<sup>` tags: the pieces that
      `html.split('<sup>')` would give. */
  function Pieces(s: string): (ps: seq<string>)
    ensures |ps| == Count(s) + 1
    decreases |s|
  {
    match Find(s)
    case None => [s]
    case Some(i) => [s[..i]] + Pieces(s[i + 5..])
  }

  /** The pieces, joined by numbered tags starting at `n`. */
  function Numbered(ps: seq<string>, n: nat): string
    decreases |ps|
  {
    if ps == [] then []
    else if |ps| == 1 then ps[0]
    else ps[0] + Tag(n) + Numbered(ps[1..], n + 1)
  }

  /** `Link` on a text whose first `<sup>` is at `i`. */
  lemma LinkCons(s: string, n: nat, b: nat, i: nat)
    requires b > 0 && Find(s) == Some(i)
    ensures Link(s, n, b) == s[..i] + Tag(n) + Link(s[i + 5..], n + 1, b - 1)
  {
  }

  /** The pieces, joined back by `<sup>`, are the original text. */
  lemma {:induction false} PiecesJoin(s: string)
    ensures Join(Pieces(s), Sup) == s
    decreases |s|
  {
    match Find(s)
    case None =>
    case Some(i) =>
      var rest := s[i + 5..];
      PiecesJoin(rest);
      assert Pieces(s)[1..] == Pieces(rest);
      assert s == s[..i] + Sup + rest by {
        assert s[i..i + 5] == Sup;
      }
  }

  /** The text before the first `<sup>` holds none. */
  lemma PrefixHasNoSup(s: string, i: nat)
    requires Find(s) == Some(i)
    ensures forall j :: 0 <= j <= i ==> !SupAt(s[..i], j)
  {
    forall j | 0 <= j <= i ensures !SupAt(s[..i], j) {
      if j < i {
        assert !SupAt(s, j);
      }
    }
  }

  /** No piece contains a literal `<sup>`. */
  lemma {:induction false} PiecesHaveNoSup(s: string)
    ensures forall k, j :: 0 <= k < |Pieces(s)| && 0 <= j <= |Pieces(s)[k]| ==> !SupAt(Pieces(s)[k], j)
    decreases |s|
  {
    match Find(s)
    case None =>
    case Some(i) =>
      var rest, ps := s[i + 5..], Pieces(s);
      assert ps == [s[..i]] + Pieces(rest);
      PiecesHaveNoSup(rest);
      PrefixHasNoSup(s, i);
      forall k, j | 0 <= k < |ps| && 0 <= j <= |ps[k]| ensures !SupAt(ps[k], j) {
        if k > 0 {
          assert ps[k] == Pieces(rest)[k - 1];
        }
      }
  }

  /** Linking every footnote keeps each piece as it was and puts the tags
      numbered `n`, `n + 1`, ... between them, in order. */
  lemma {:induction false} LinkAllIsNumbered(s: string, n: nat)
    ensures Link(s, n, Count(s)) == Numbered(Pieces(s), n)
    decreases |s|
  {
    match Find(s)
    case None =>
    case Some(i) =>
      var rest, ps := s[i + 5..], Pieces(s);
      assert ps == [s[..i]] + Pieces(rest);
      assert ps[0] == s[..i] && ps[1..] == Pieces(rest) && |ps| >= 2;
      var b := Count(s);
      assert b - 1 == Count(rest);
      calc {
        Link(s, n, b);
        { LinkCons(s, n, b, i); }
        s[..i] + Tag(n) + Link(rest, n + 1, b - 1);
        { LinkAllIsNumbered(rest, n + 1); }
        s[..i] + Tag(n) + Numbered(Pieces(rest), n + 1);
        Numbered(ps, n);
      }
  }

  /** After the loop no literal `<sup>` is left: every marker was rewritten. */
  lemma LinkAllLeavesNoSup(s: string, n: nat)
    ensures Find(Link(s, n, Count(s))).None?
  {
    LinkCount(s, n, Count(s));
    CountBounds(Link(s, n, Count(s)));
  }

  /** Marker ids tell footnotes apart. */
  lemma LinkIdInjective(a: nat, b: nat)
    requires LinkId(a) == LinkId(b)
    ensures a == b
  {
    assert NatToString(a) == LinkId(a)[2..];
    NatToStringInjective(a, b);
  }

  /** Citation ids tell footnotes apart. */
  lemma TargetIdInjective(a: nat, b: nat)
    requires TargetId(a) == TargetId(b)
    ensures a == b
  {
    assert NatToString(a) == TargetId(a)[1..];
    NatToStringInjective(a, b);
  }

  /** No marker id is also a citation id, so each click handler names a citation. */
  lemma LinkIdIsNotTargetId(a: nat, b: nat)
    ensures LinkId(a) != TargetId(b)
  {
  }
}
