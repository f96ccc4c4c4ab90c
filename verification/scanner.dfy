/** Hand-written scanners for the three reference regular expressions of
    the program, together with the meaning `re.findall` gives them: take
    the leftmost match, continue right after it, and where no match starts
    try the next position.

    - `WikiLink`:     `\[\[([^\]\]]+)\]\]` (the class is just "not `]`")
    - `MarkdownLink`: `\[[^\]]+\]\(([^\)]+)\)`, capturing the target
    - `IdLink`:       `\[\[(\w{12})\]\]` of the older ID-based variant

    Each pattern can match in at most one way at a given position: a
    greedy run of "not `]`" (or "not `)`") that backtracked would leave a
    character that is not the required closing bracket, so the match is
    the one that runs to the first closing bracket. */
module Scanner {
  import opened Basics

  datatype Syntax = WikiLink | MarkdownLink | IdLink

  /** One match: `s[start..stop]` is the whole match, `token` the group. */
  datatype Hit = Hit(start: nat, stop: nat, token: string)

  /** `\w`, approximated by the ASCII word characters `[A-Za-z0-9_]`. */
  predicate IsWordChar(c: char) {
    ('a' <= c <= 'z') || ('A' <= c <= 'Z') || ('0' <= c <= '9') || c == '_'
  }

  predicate AllWordChars(t: string) {
    forall k :: 0 <= k < |t| ==> IsWordChar(t[k])
  }

  /** What the capturing group of each pattern admits. */
  predicate TokenShape(syn: Syntax, t: string) {
    match syn
    case WikiLink => |t| > 0 && ']' !in t
    case MarkdownLink => |t| > 0 && ')' !in t
    case IdLink => |t| == 12 && AllWordChars(t)
  }

  /** The pattern of `syn` matches `s[i..e]` and captures `tok`. */
  ghost predicate IsMatch(syn: Syntax, s: string, i: nat, e: nat, tok: string) {
    && i <= e <= |s|
    && TokenShape(syn, tok)
    && match syn
       case WikiLink => s[i..e] == "[[" + tok + "]]"
       case IdLink => s[i..e] == "[[" + tok + "]]"
       case MarkdownLink => exists caption :: IsCaption(caption) && s[i..e] == "[" + caption + "](" + tok + ")"
  }

  /** The link text of a markdown link: `[^\]]+`. */
  predicate IsCaption(caption: string) {
    |caption| > 0 && ']' !in caption
  }

  ghost predicate NoMatchAt(syn: Syntax, s: string, i: nat) {
    forall e: nat, tok :: !IsMatch(syn, s, i, e, tok)
  }

  /** Index of the first `c` in `s` at or after `from`, or `|s|` if none. */
  function IndexFrom(s: string, from: nat, c: char): (r: nat)
    requires from <= |s|
    ensures from <= r <= |s|
    ensures forall k :: from <= k < r ==> s[k] != c
    ensures r < |s| ==> s[r] == c
    decreases |s| - from
  {
    if from == |s| || s[from] == c then from else IndexFrom(s, from + 1, c)
  }

  /** A run `s[a..b]` free of `c` followed by `c` at `b` ends where the
      scan for `c` from `a` stops. */
  lemma IndexFromStopsAt(s: string, a: nat, b: nat, c: char)
    requires a <= b < |s| && s[b] == c
    requires c !in s[a..b]
    ensures IndexFrom(s, a, c) == b
  {
  }

  lemma SliceOfSlice(s: string, i: nat, e: nat, a: nat, b: nat)
    requires i <= e <= |s| && a <= b <= e - i
    ensures s[i..e][a..b] == s[i + a..i + b]
  {
    assert |s[i..e][a..b]| == |s[i + a..i + b]|;
    forall m | 0 <= m < b - a
      ensures s[i..e][a..b][m] == s[i + a..i + b][m]
    {
    }
  }

  // ---- `[[token]]` and `[[<12 word characters>]]` ----

  lemma DoubleBracketFrame(syn: Syntax, s: string, i: nat, e: nat, tok: string)
    requires syn == WikiLink || syn == IdLink
    requires IsMatch(syn, s, i, e, tok)
    ensures e == i + |tok| + 4
    ensures s[i] == '[' && s[i + 1] == '['
    ensures s[i + 2..e - 2] == tok
    ensures s[e - 2] == ']' && s[e - 1] == ']'
  {
    var w := "[[" + tok + "]]";
    assert s[i..e] == w;
    assert |w| == |tok| + 4;
    assert s[i] == w[0] && s[i + 1] == w[1];
    assert s[e - 2] == w[|tok| + 2] && s[e - 1] == w[|tok| + 3];
    SliceOfSlice(s, i, e, 2, |tok| + 2);
    assert w[2..|tok| + 2] == tok;
  }

  lemma DoubleBracketBuild(s: string, i: nat, j: nat)
    requires i + 2 <= j && j + 2 <= |s|
    requires s[i] == '[' && s[i + 1] == '[' && s[j] == ']' && s[j + 1] == ']'
    ensures s[i..j + 2] == "[[" + s[i + 2..j] + "]]"
  {
    var w := "[[" + s[i + 2..j] + "]]";
    assert |w| == j + 2 - i;
    forall k | 0 <= k < |w|
      ensures s[i..j + 2][k] == w[k]
    {
      if 2 <= k < j - i {
        assert w[k] == s[i + 2..j][k - 2];
      }
    }
  }

  /** The `[[...]]` pattern tried at position `i` only. */
  function WikiAt(s: string, i: nat): (r: Option<Hit>)
    ensures r.Some? ==> r.value.start == i && i < r.value.stop && IsMatch(WikiLink, s, i, r.value.stop, r.value.token)
    ensures forall e: nat, tok :: IsMatch(WikiLink, s, i, e, tok) ==> r == Some(Hit(i, e, tok))
  {
    WikiAtComplete(s, i);
    if i + 2 <= |s| && s[i] == '[' && s[i + 1] == '[' then
      var j := IndexFrom(s, i + 2, ']');
      if i + 2 < j && j + 1 < |s| && s[j + 1] == ']' then
        DoubleBracketBuild(s, i, j);
        assert ']' !in s[i + 2..j];
        Some(Hit(i, j + 2, s[i + 2..j]))
      else None
    else None
  }

  lemma WikiAtComplete(s: string, i: nat)
    ensures forall e: nat, tok :: IsMatch(WikiLink, s, i, e, tok) ==>
      && i + 2 <= |s| && s[i] == '[' && s[i + 1] == '['
      && IndexFrom(s, i + 2, ']') == e - 2
      && e - 2 + 1 < |s| && s[e - 1] == ']' && i + 2 < e - 2
      && tok == s[i + 2..e - 2]
  {
    forall e: nat, tok | IsMatch(WikiLink, s, i, e, tok)
      ensures IndexFrom(s, i + 2, ']') == e - 2
    {
      DoubleBracketFrame(WikiLink, s, i, e, tok);
      IndexFromStopsAt(s, i + 2, e - 2, ']');
    }
    forall e: nat, tok | IsMatch(WikiLink, s, i, e, tok)
      ensures s[i] == '[' && s[i + 1] == '[' && s[e - 1] == ']' && tok == s[i + 2..e - 2]
    {
      DoubleBracketFrame(WikiLink, s, i, e, tok);
    }
  }

  /** The `[[<12 word characters>]]` pattern tried at position `i` only. */
  function IdAt(s: string, i: nat): (r: Option<Hit>)
    ensures r.Some? ==> r.value.start == i && i < r.value.stop && IsMatch(IdLink, s, i, r.value.stop, r.value.token)
    ensures forall e: nat, tok :: IsMatch(IdLink, s, i, e, tok) ==> r == Some(Hit(i, e, tok))
  {
    IdAtComplete(s, i);
    if i + 16 <= |s| && s[i] == '[' && s[i + 1] == '[' && AllWordChars(s[i + 2..i + 14])
       && s[i + 14] == ']' && s[i + 15] == ']'
    then
      DoubleBracketBuild(s, i, i + 14);
      Some(Hit(i, i + 16, s[i + 2..i + 14]))
    else None
  }

  lemma IdAtComplete(s: string, i: nat)
    ensures forall e: nat, tok :: IsMatch(IdLink, s, i, e, tok) ==>
      && e == i + 16 && e <= |s| && s[i] == '[' && s[i + 1] == '['
      && s[i + 14] == ']' && s[i + 15] == ']'
      && tok == s[i + 2..i + 14] && AllWordChars(tok)
  {
    forall e: nat, tok | IsMatch(IdLink, s, i, e, tok)
      ensures e == i + 16 && s[i] == '[' && s[i + 1] == '[' && s[i + 14] == ']' && s[i + 15] == ']'
      ensures tok == s[i + 2..i + 14]
    {
      DoubleBracketFrame(IdLink, s, i, e, tok);
    }
  }

  // ---- `[caption](target)` ----

  lemma MarkdownFrame(s: string, i: nat, e: nat, tok: string, caption: string)
    requires i <= e <= |s| && IsCaption(caption) && |tok| > 0 && ')' !in tok
    requires s[i..e] == "[" + caption + "](" + tok + ")"
    ensures s[i] == '['
    ensures IndexFrom(s, i + 1, ']') == i + 1 + |caption|
    ensures s[i + 1 + |caption| + 1] == '('
    ensures IndexFrom(s, i + |caption| + 3, ')') == e - 1
    ensures i + |caption| + 3 < e - 1
    ensures tok == s[i + |caption| + 3..e - 1]
  {
    var w := "[" + caption + "](" + tok + ")";
    var j := i + 1 + |caption|;
    assert |w| == e - i == |caption| + |tok| + 4;
    assert s[i] == w[0];
    assert s[j] == w[|caption| + 1] == ']';
    assert s[j + 1] == w[|caption| + 2] == '(';
    assert s[e - 1] == w[|w| - 1] == ')';
    assert s[i + 1..j] == caption by {
      SliceOfSlice(s, i, e, 1, |caption| + 1);
      assert w[1..|caption| + 1] == caption;
    }
    assert s[j + 2..e - 1] == tok by {
      SliceOfSlice(s, i, e, |caption| + 3, |w| - 1);
      assert w[|caption| + 3..|w| - 1] == tok;
    }
    IndexFromStopsAt(s, i + 1, j, ']');
    IndexFromStopsAt(s, j + 2, e - 1, ')');
  }

  lemma MarkdownBuild(s: string, i: nat, j: nat, k: nat)
    requires i + 1 <= j && j + 2 <= k < |s|
    requires s[i] == '[' && s[j] == ']' && s[j + 1] == '(' && s[k] == ')'
    ensures s[i..k + 1] == "[" + s[i + 1..j] + "](" + s[j + 2..k] + ")"
  {
    var w := "[" + s[i + 1..j] + "](" + s[j + 2..k] + ")";
    assert |w| == k + 1 - i;
    forall m | 0 <= m < |w|
      ensures s[i..k + 1][m] == w[m]
    {
      if 1 <= m < j - i {
        assert w[m] == s[i + 1..j][m - 1];
      } else if j - i + 2 <= m < k - i {
        assert w[m] == s[j + 2..k][m - (j - i + 2)];
      }
    }
  }

  /** The markdown-link pattern tried at position `i` only. */
  function MarkdownAt(s: string, i: nat): (r: Option<Hit>)
    ensures r.Some? ==> r.value.start == i && i < r.value.stop && IsMatch(MarkdownLink, s, i, r.value.stop, r.value.token)
    ensures forall e: nat, tok :: IsMatch(MarkdownLink, s, i, e, tok) ==> r == Some(Hit(i, e, tok))
  {
    MarkdownAtComplete(s, i);
    if i < |s| && s[i] == '[' then
      var j := IndexFrom(s, i + 1, ']');
      if i + 1 < j && j + 1 < |s| && s[j + 1] == '(' then
        var k := IndexFrom(s, j + 2, ')');
        if j + 2 < k < |s| then
          MarkdownBuild(s, i, j, k);
          assert IsCaption(s[i + 1..j]);
          assert ')' !in s[j + 2..k];
          Some(Hit(i, k + 1, s[j + 2..k]))
        else None
      else None
    else None
  }

  lemma MarkdownAtComplete(s: string, i: nat)
    ensures forall e: nat, tok :: IsMatch(MarkdownLink, s, i, e, tok) ==>
      && i < |s| && s[i] == '['
      && var j := IndexFrom(s, i + 1, ']');
      && i + 1 < j && j + 1 < |s| && s[j + 1] == '('
      && IndexFrom(s, j + 2, ')') == e - 1
      && j + 2 < e - 1
      && tok == s[j + 2..e - 1]
  {
    forall e: nat, tok | IsMatch(MarkdownLink, s, i, e, tok)
      ensures i < |s| && s[i] == '['
      ensures var j := IndexFrom(s, i + 1, ']');
        && i + 1 < j && j + 1 < |s| && s[j + 1] == '('
        && IndexFrom(s, j + 2, ')') == e - 1
        && j + 2 < e - 1
        && tok == s[j + 2..e - 1]
    {
      var caption :| IsCaption(caption) && s[i..e] == "[" + caption + "](" + tok + ")";
      MarkdownFrame(s, i, e, tok, caption);
    }
  }

  // ---- findall ----

  /** The pattern of `syn` tried at position `i` only: the match that
      starts there, if any. */
  function MatchAt(syn: Syntax, s: string, i: nat): (r: Option<Hit>)
    ensures r.Some? ==> r.value.start == i && i < r.value.stop && IsMatch(syn, s, i, r.value.stop, r.value.token)
    ensures forall e: nat, tok :: IsMatch(syn, s, i, e, tok) ==> r == Some(Hit(i, e, tok))
  {
    match syn
    case WikiLink => WikiAt(s, i)
    case MarkdownLink => MarkdownAt(s, i)
    case IdLink => IdAt(s, i)
  }

  ghost predicate NoMatchIn(syn: Syntax, s: string, a: nat, b: nat) {
    forall p: nat :: a <= p < b ==> NoMatchAt(syn, s, p)
  }

  /** `hits` is what `re.findall` reports for `syn` on `s[from..]`: with
      no hits, no match starts anywhere from `from` on; otherwise no match
      starts before the first hit, the first hit is a match, and the other
      hits are the answer from where it ends. */
  ghost predicate IsFindAll(syn: Syntax, s: string, from: nat, hits: seq<Hit>)
    decreases |hits|
  {
    if |hits| == 0 then NoMatchIn(syn, s, from, |s|)
    else
      && from <= hits[0].start
      && NoMatchIn(syn, s, from, hits[0].start)
      && IsMatch(syn, s, hits[0].start, hits[0].stop, hits[0].token)
      && IsFindAll(syn, s, hits[0].stop, hits[1..])
  }

  lemma FindAllCons(syn: Syntax, s: string, from: nat, h: Hit, rest: seq<Hit>)
    requires from <= h.start && NoMatchIn(syn, s, from, h.start)
    requires IsMatch(syn, s, h.start, h.stop, h.token)
    requires IsFindAll(syn, s, h.stop, rest)
    ensures IsFindAll(syn, s, from, [h] + rest)
  {
    assert ([h] + rest)[1..] == rest;
  }

  lemma FindAllSkip(syn: Syntax, s: string, from: nat, hits: seq<Hit>)
    requires NoMatchAt(syn, s, from)
    requires IsFindAll(syn, s, from + 1, hits)
    ensures IsFindAll(syn, s, from, hits)
  {
    if |hits| > 0 {
      assert NoMatchIn(syn, s, from, hits[0].start);
    } else {
      assert NoMatchIn(syn, s, from, |s|);
    }
  }

  /** Every match ends after it starts. */
  lemma MatchAdvances(syn: Syntax, s: string, i: nat, e: nat, tok: string)
    requires IsMatch(syn, s, i, e, tok)
    ensures i < e
  {
    var r := MatchAt(syn, s, i);
    assert r == Some(Hit(i, e, tok));
  }

  /** The findall scan of `s` from position `from`. */
  function ScanFrom(syn: Syntax, s: string, from: nat): seq<Hit>
    requires from <= |s|
    decreases |s| - from
  {
    if from == |s| then []
    else
      match MatchAt(syn, s, from)
      case Some(h) => [h] + ScanFrom(syn, s, h.stop)
      case None => ScanFrom(syn, s, from + 1)
  }

  /** The scanner meets findall's definition from every start position. */
  lemma {:induction false} ScanFromSpec(syn: Syntax, s: string, from: nat)
    requires from <= |s|
    ensures IsFindAll(syn, s, from, ScanFrom(syn, s, from))
    decreases |s| - from
  {
    if from == |s| {
      assert NoMatchIn(syn, s, from, |s|);
    } else {
      match MatchAt(syn, s, from)
      case Some(h) =>
        ScanFromSpec(syn, s, h.stop);
        FindAllCons(syn, s, from, h, ScanFrom(syn, s, h.stop));
      case None =>
        ScanFromSpec(syn, s, from + 1);
        FindAllSkip(syn, s, from, ScanFrom(syn, s, from + 1));
    }
  }

  /** A match that some findall answer skips over cannot exist. */
  lemma FindAllFirstHit(syn: Syntax, s: string, from: nat, hits: seq<Hit>, p: nat, e: nat, tok: string)
    requires IsFindAll(syn, s, from, hits)
    requires from <= p && IsMatch(syn, s, p, e, tok)
    ensures |hits| > 0 && hits[0].start <= p
  {
    MatchAdvances(syn, s, p, e, tok);
    assert !NoMatchAt(syn, s, p);
  }

  lemma FindAllSameHead(syn: Syntax, s: string, from: nat, h1: seq<Hit>, h2: seq<Hit>)
    requires IsFindAll(syn, s, from, h1) && IsFindAll(syn, s, from, h2)
    requires |h1| > 0
    ensures |h2| > 0 && h1[0] == h2[0]
  {
    var a := h1[0];
    FindAllFirstHit(syn, s, from, h2, a.start, a.stop, a.token);
    var b := h2[0];
    FindAllFirstHit(syn, s, from, h1, b.start, b.stop, b.token);
    MatchUnique(syn, s, a.start, a.stop, a.token, b.stop, b.token);
  }

  /** At a given position a pattern matches in at most one way. */
  lemma MatchUnique(syn: Syntax, s: string, i: nat, e1: nat, t1: string, e2: nat, t2: string)
    requires IsMatch(syn, s, i, e1, t1) && IsMatch(syn, s, i, e2, t2)
    ensures e1 == e2 && t1 == t2
  {
    var r := MatchAt(syn, s, i);
    assert r == Some(Hit(i, e1, t1)) && r == Some(Hit(i, e2, t2));
  }

  /** findall has only one answer: two hit lists that both meet its
      definition are the same list. */
  lemma {:induction false} FindAllUnique(syn: Syntax, s: string, from: nat, h1: seq<Hit>, h2: seq<Hit>)
    requires IsFindAll(syn, s, from, h1) && IsFindAll(syn, s, from, h2)
    ensures h1 == h2
    decreases |h1|
  {
    if |h1| > 0 {
      FindAllSameHead(syn, s, from, h1, h2);
      FindAllUnique(syn, s, h1[0].stop, h1[1..], h2[1..]);
      assert h1 == [h1[0]] + h1[1..] && h2 == [h2[0]] + h2[1..];
    } else if |h2| > 0 {
      FindAllSameHead(syn, s, from, h2, h1);
    }
  }

  function TokensOf(hits: seq<Hit>): seq<string> {
    seq(|hits|, k requires 0 <= k < |hits| => hits[k].token)
  }

  /** `re.findall(pattern, s)`: the captured groups of the leftmost,
      non-overlapping matches, in text order. */
  function FindAll(syn: Syntax, s: string): seq<string> {
    TokensOf(ScanFrom(syn, s, 0))
  }

  /** The tokens `FindAll` returns are the groups of a hit list that meets
      findall's definition, and each has the shape its group admits. */
  lemma FindAllSpec(syn: Syntax, s: string)
    ensures exists hits :: IsFindAll(syn, s, 0, hits) && FindAll(syn, s) == TokensOf(hits)
    ensures forall k :: 0 <= k < |FindAll(syn, s)| ==> TokenShape(syn, FindAll(syn, s)[k])
  {
    var hits := ScanFrom(syn, s, 0);
    ScanFromSpec(syn, s, 0);
    FindAllOrdered(syn, s, 0, hits);
    forall k | 0 <= k < |hits|
      ensures TokenShape(syn, hits[k].token)
    {
      assert IsMatch(syn, s, hits[k].start, hits[k].stop, hits[k].token);
    }
  }

  /** The hits of a findall answer are matches, in text order and without
      overlap: each starts at or after the end of the one before. */
  lemma {:induction false} FindAllOrdered(syn: Syntax, s: string, from: nat, hits: seq<Hit>)
    requires IsFindAll(syn, s, from, hits)
    ensures forall k :: 0 <= k < |hits| ==> IsMatch(syn, s, hits[k].start, hits[k].stop, hits[k].token)
    ensures forall k :: 0 <= k < |hits| ==> from <= hits[k].start < hits[k].stop <= |s|
    ensures forall k :: 0 < k < |hits| ==> hits[k - 1].stop <= hits[k].start
    decreases |hits|
  {
    if |hits| > 0 {
      var rest := hits[1..];
      FindAllOrdered(syn, s, hits[0].stop, rest);
      MatchAdvances(syn, s, hits[0].start, hits[0].stop, hits[0].token);
      forall k | 0 < k < |hits|
        ensures IsMatch(syn, s, hits[k].start, hits[k].stop, hits[k].token)
        ensures hits[0].stop <= hits[k].start < hits[k].stop <= |s|
        ensures hits[k - 1].stop <= hits[k].start
      {
        assert hits[k] == rest[k - 1];
        if k > 1 {
          assert hits[k - 1] == rest[k - 2];
        }
      }
    }
  }

  /** The scanner's answer is the one findall's definition determines. */
  lemma FindAllIsDetermined(syn: Syntax, s: string, hits: seq<Hit>)
    requires IsFindAll(syn, s, 0, hits)
    ensures FindAll(syn, s) == TokensOf(hits)
  {
    ScanFromSpec(syn, s, 0);
    FindAllUnique(syn, s, 0, hits, ScanFrom(syn, s, 0));
  }
}
