/** The string helpers of `vizel/cli.py`: the node caption made from a file
    name (`_get_short_description`) and the removal of a trailing `.pdf`
    from the output name of `graph_pdf`. Both are built from Python's
    `str.replace` and `str.rpartition`, modelled here together with
    `str.split` and `str.join`, which give `replace` an independent
    definition. */
module Labels {
  import opened Basics

  /** `s.find(pat, from)`: the first occurrence of `pat` at or after `from`. */
  function Find(s: string, pat: string, from: nat): (r: Option<nat>)
    ensures r.Some? ==> from <= r.value && OccursAt(s, pat, r.value)
    ensures r.Some? ==> forall j: nat :: from <= j < r.value ==> !OccursAt(s, pat, j)
    ensures r.None? ==> forall j: nat :: from <= j ==> !OccursAt(s, pat, j)
    decreases |s| - from
  {
    if from + |pat| > |s| then None
    else if OccursAt(s, pat, from) then Some(from)
    else Find(s, pat, from + 1)
  }

  lemma OccursAtTail(s: string, pat: string, j: nat)
    requires |s| > 0
    ensures OccursAt(s, pat, j + 1) <==> OccursAt(s[1..], pat, j)
  {
    if j + 1 + |pat| <= |s| {
      assert s[j + 1..j + 1 + |pat|] == s[1..][j..j + |pat|];
    }
  }

  /** Searching `s` from `from + 1` is searching its tail from `from`. */
  lemma {:induction false} FindTail(s: string, pat: string, from: nat)
    requires |s| > 0
    ensures Find(s, pat, from + 1) == (match Find(s[1..], pat, from)
                                         case None => None
                                         case Some(i) => Some(i + 1))
    decreases |s| - from
  {
    OccursAtTail(s, pat, from);
    if from + 1 + |pat| <= |s| && !OccursAt(s, pat, from + 1) {
      FindTail(s, pat, from + 1);
    }
  }

  /** `s.split(sep)`: the pieces between the occurrences of `sep`, found
      from the left. */
  function Split(s: string, sep: string): (parts: seq<string>)
    requires |sep| > 0
    ensures |parts| > 0
    decreases |s|
  {
    match Find(s, sep, 0)
    case None => [s]
    case Some(i) => [s[..i]] + Split(s[i + |sep|..], sep)
  }

  /** `sep.join(parts)`. */
  function Join(parts: seq<string>, sep: string): string
    decreases |parts|
  {
    if |parts| == 0 then ""
    else if |parts| == 1 then parts[0]
    else parts[0] + sep + Join(parts[1..], sep)
  }

  /** `s.replace(pat, rep)`: one pass from the left; each occurrence that
      does not overlap an earlier replaced one is replaced. */
  function ReplaceAll(s: string, pat: string, rep: string): string
    requires |pat| > 0
    decreases |s|
  {
    if |s| == 0 then ""
    else if OccursAt(s, pat, 0) then rep + ReplaceAll(s[|pat|..], pat, rep)
    else [s[0]] + ReplaceAll(s[1..], pat, rep)
  }

  /** When `s` does not start with `sep`, its first piece grows by `s[0]`
      and the other pieces are those of `s[1..]`. */
  lemma SplitSkip(s: string, sep: string)
    requires |sep| > 0 && |s| > 0 && !OccursAt(s, sep, 0)
    ensures Split(s, sep) == [[s[0]] + Split(s[1..], sep)[0]] + Split(s[1..], sep)[1..]
  {
    FindTail(s, sep, 0);
    assert Find(s, sep, 0) == Find(s, sep, 1);
    match Find(s[1..], sep, 0)
    case None =>
      SplitSkipWhole(s, sep);
    case Some(i) =>
      SplitSkipAt(s, sep, i);
  }

  lemma SplitSkipWhole(s: string, sep: string)
    requires |sep| > 0 && |s| > 0
    requires Find(s, sep, 0).None? && Find(s[1..], sep, 0).None?
    ensures Split(s, sep) == [[s[0]] + Split(s[1..], sep)[0]] + Split(s[1..], sep)[1..]
  {
    SplitWhole(s, sep);
    SplitWhole(s[1..], sep);
    assert s == [s[0]] + s[1..];
  }

  lemma SplitSkipAt(s: string, sep: string, i: nat)
    requires |sep| > 0 && |s| > 0
    requires Find(s, sep, 0) == Some(i + 1) && Find(s[1..], sep, 0) == Some(i)
    ensures Split(s, sep) == [[s[0]] + Split(s[1..], sep)[0]] + Split(s[1..], sep)[1..]
  {
    var t := s[1..];
    SplitAt(s, sep, i + 1);
    SplitAt(t, sep, i);
    SplitSkipPieces(s, sep, i);
    GrowFirst(Split(s, sep), Split(t, sep), s[..i + 1], t[..i], s[0], Split(t[i + |sep|..], sep));
  }

  lemma GrowFirst(a: seq<string>, b: seq<string>, x: string, y: string, c: char, rest: seq<string>)
    requires a == [x] + rest && b == [y] + rest && x == [c] + y
    ensures a == [[c] + b[0]] + b[1..]
  {
    assert b[1..] == rest;
  }

  lemma SplitWhole(s: string, sep: string)
    requires |sep| > 0 && Find(s, sep, 0).None?
    ensures Split(s, sep) == [s]
  {
  }

  lemma SplitSkipPieces(s: string, sep: string, i: nat)
    requires |s| > 0 && i + 1 + |sep| <= |s|
    ensures s[..i + 1] == [s[0]] + s[1..][..i]
    ensures s[i + 1 + |sep|..] == s[1..][i + |sep|..]
  {
  }

  lemma SplitAt(s: string, sep: string, i: nat)
    requires |sep| > 0 && Find(s, sep, 0) == Some(i)
    ensures i + |sep| <= |s|
    ensures Split(s, sep) == [s[..i]] + Split(s[i + |sep|..], sep)
  {
  }

  lemma JoinGrowHead(c: char, parts: seq<string>, sep: string)
    requires |parts| > 0
    ensures Join([[c] + parts[0]] + parts[1..], sep) == [c] + Join(parts, sep)
  {
    var q := [[c] + parts[0]] + parts[1..];
    if |parts| > 1 {
      assert q[1..] == parts[1..];
    }
  }

  /** `s.replace(pat, rep) == rep.join(s.split(pat))`. */
  lemma {:induction false} ReplaceIsSplitJoin(s: string, pat: string, rep: string)
    requires |pat| > 0
    ensures ReplaceAll(s, pat, rep) == Join(Split(s, pat), rep)
    decreases |s|
  {
    if |s| > 0 {
      if OccursAt(s, pat, 0) {
        ReplaceIsSplitJoin(s[|pat|..], pat, rep);
        assert Split(s, pat) == [""] + Split(s[|pat|..], pat);
      } else {
        ReplaceIsSplitJoin(s[1..], pat, rep);
        SplitSkip(s, pat);
        JoinGrowHead(s[0], Split(s[1..], pat), rep);
      }
    }
  }

  /** Replacing a pattern by itself changes nothing. */
  lemma {:induction false} ReplaceSelf(s: string, pat: string)
    requires |pat| > 0
    ensures ReplaceAll(s, pat, pat) == s
    decreases |s|
  {
    if |s| > 0 {
      if OccursAt(s, pat, 0) {
        ReplaceSelf(s[|pat|..], pat);
        assert s == pat + s[|pat|..];
      } else {
        ReplaceSelf(s[1..], pat);
        assert s == [s[0]] + s[1..];
      }
    }
  }

  /** Joining the pieces with the separator gives back the string. */
  lemma SplitJoinRoundTrip(s: string, sep: string)
    requires |sep| > 0
    ensures Join(Split(s, sep), sep) == s
  {
    ReplaceIsSplitJoin(s, sep, sep);
    ReplaceSelf(s, sep);
  }

  /** No piece of a split contains the separator. */
  lemma {:induction false} SplitPartsAreFree(s: string, sep: string)
    requires |sep| > 0
    ensures forall k, j: nat :: 0 <= k < |Split(s, sep)| ==> !OccursAt(Split(s, sep)[k], sep, j)
    decreases |s|
  {
    match Find(s, sep, 0)
    case None =>
    case Some(i) =>
      var rest := s[i + |sep|..];
      SplitPartsAreFree(rest, sep);
      forall j: nat
        ensures !OccursAt(s[..i], sep, j)
      {
        if j + |sep| <= i {
          assert !OccursAt(s, sep, j);
          assert s[..i][j..j + |sep|] == s[j..j + |sep|];
        }
      }
      assert Split(s, sep) == [s[..i]] + Split(rest, sep);
  }

  /** A pattern that does not occur is not replaced. */
  lemma {:induction false} ReplaceAbsent(s: string, pat: string, rep: string)
    requires |pat| > 0 && forall j: nat :: !OccursAt(s, pat, j)
    ensures ReplaceAll(s, pat, rep) == s
    decreases |s|
  {
    if |s| > 0 {
      forall j: nat
        ensures !OccursAt(s[1..], pat, j)
      {
        OccursAtTail(s, pat, j);
      }
      ReplaceAbsent(s[1..], pat, rep);
      assert s == [s[0]] + s[1..];
    }
  }

  /** Replacing one character by another works position by position. */
  lemma {:induction false} ReplaceChar(s: string, c: char, d: char)
    ensures |ReplaceAll(s, [c], [d])| == |s|
    ensures forall i :: 0 <= i < |s| ==> ReplaceAll(s, [c], [d])[i] == if s[i] == c then d else s[i]
    decreases |s|
  {
    if |s| > 0 {
      ReplaceChar(s[1..], c, d);
      var r := ReplaceAll(s, [c], [d]);
      var r' := ReplaceAll(s[1..], [c], [d]);
      assert OccursAt(s, [c], 0) <==> s[0] == c;
      assert r == [if s[0] == c then d else s[0]] + r';
    }
  }

  /** A character that does not occur is not replaced. */
  lemma ReplaceCharAbsent(s: string, c: char, d: char)
    requires c !in s
    ensures ReplaceAll(s, [c], [d]) == s
  {
    ReplaceChar(s, c, d);
  }

  /** `a` is `s` with some characters deleted: every character of `a`
      stands in `s`, in the same order. */
  ghost predicate IsSubsequence(a: string, s: string)
    decreases |s|
  {
    if |s| == 0 then |a| == 0
    else IsSubsequence(a, s[1..]) || (|a| > 0 && a[0] == s[0] && IsSubsequence(a[1..], s[1..]))
  }

  /** Deleting more characters in front keeps a subsequence one. */
  lemma {:induction false} SubsequenceDropFront(a: string, s: string, k: nat)
    requires k <= |s| && IsSubsequence(a, s[k..])
    ensures IsSubsequence(a, s)
    decreases k
  {
    if k > 0 {
      assert s[1..][k - 1..] == s[k..];
      SubsequenceDropFront(a, s[1..], k - 1);
    }
  }

  lemma {:induction false} SubsequenceBounds(a: string, s: string)
    requires IsSubsequence(a, s)
    ensures |a| <= |s|
    ensures forall x :: x in a ==> x in s
    decreases |s|
  {
    if |s| > 0 {
      if IsSubsequence(a, s[1..]) {
        SubsequenceBounds(a, s[1..]);
      } else {
        SubsequenceBounds(a[1..], s[1..]);
        assert a == [a[0]] + a[1..];
      }
    }
  }

  /** Removing a pattern only deletes characters: the result is the input
      with some characters left out, in their original order. */
  lemma {:induction false} RemoveShrinks(s: string, pat: string)
    requires |pat| > 0
    ensures IsSubsequence(ReplaceAll(s, pat, ""), s)
    ensures |ReplaceAll(s, pat, "")| <= |s|
    ensures forall x :: x in ReplaceAll(s, pat, "") ==> x in s
    decreases |s|
  {
    var r := ReplaceAll(s, pat, "");
    if |s| > 0 {
      if OccursAt(s, pat, 0) {
        RemoveShrinks(s[|pat|..], pat);
        assert r == ReplaceAll(s[|pat|..], pat, "");
        SubsequenceDropFront(r, s, |pat|);
      } else {
        RemoveShrinks(s[1..], pat);
        var rest := ReplaceAll(s[1..], pat, "");
        assert r == [s[0]] + rest;
        assert r[1..] == rest;
      }
    }
    SubsequenceBounds(r, s);
  }

  /** `_get_short_description`: underscores and hyphens become spaces, then
      `.md` and `.txt` are removed, each in one `replace` pass. */
  function ShortDescription(name: string): string {
    var spaced := ReplaceAll(ReplaceAll(name, "_", " "), "-", " ");
    ReplaceAll(ReplaceAll(spaced, ".md", ""), ".txt", "")
  }

  /** The caption holds no underscore or hyphen, is no longer than the file
      name, and keeps only the name's characters and spaces; a name with
      none of the four patterns is its own caption. */
  lemma ShortDescriptionSpec(name: string)
    ensures '_' !in ShortDescription(name) && '-' !in ShortDescription(name)
    ensures |ShortDescription(name)| <= |name|
    ensures forall x :: x in ShortDescription(name) ==> x == ' ' || x in name
    ensures ('_' !in name && '-' !in name
             && (forall j: nat :: !OccursAt(name, ".md", j))
             && (forall j: nat :: !OccursAt(name, ".txt", j)))
        ==> ShortDescription(name) == name
  {
    var a := ReplaceAll(name, "_", " ");
    var b := ReplaceAll(a, "-", " ");
    var c := ReplaceAll(b, ".md", "");
    var r := ReplaceAll(c, ".txt", "");
    ReplaceChar(name, '_', ' ');
    ReplaceChar(a, '-', ' ');
    RemoveShrinks(b, ".md");
    RemoveShrinks(c, ".txt");
    forall x | x in b
      ensures x != '_' && x != '-' && (x == ' ' || x in name)
    {
      var i :| 0 <= i < |b| && b[i] == x;
      assert b[i] == if a[i] == '-' then ' ' else a[i];
      assert a[i] == if name[i] == '_' then ' ' else name[i];
    }
    if '_' !in name && '-' !in name {
      ReplaceCharAbsent(name, '_', ' ');
      ReplaceCharAbsent(name, '-', ' ');
      if forall j: nat :: !OccursAt(name, ".md", j) {
        ReplaceAbsent(name, ".md", "");
        if forall j: nat :: !OccursAt(name, ".txt", j) {
          ReplaceAbsent(name, ".txt", "");
        }
      }
    }
  }

  /** One pass can leave an extension behind: removing `.md` from `..mdmd`
      joins the rest into a new `.md`. */
  lemma ExtensionCanSurvive()
    ensures ShortDescription("..mdmd") == ".md"
    ensures OccursAt(ShortDescription("..mdmd"), ".md", 0)
  {
    ReplaceCharAbsent("..mdmd", '_', ' ');
    ReplaceCharAbsent("..mdmd", '-', ' ');
    ReplaceAbsent("md", ".md", "");
    assert ".mdmd"[3..] == "md";
    assert ReplaceAll(".mdmd", ".md", "") == "md";
    assert "..mdmd"[1..] == ".mdmd";
    assert ReplaceAll("..mdmd", ".md", "") == ".md";
    ReplaceAbsent(".md", ".txt", "");
  }

  /** The last occurrence of `pat` that starts below `k`. */
  function LastBelow(s: string, pat: string, k: nat): (r: Option<nat>)
    ensures r.Some? ==> r.value < k && OccursAt(s, pat, r.value)
    ensures r.Some? ==> forall j: nat :: r.value < j < k ==> !OccursAt(s, pat, j)
    ensures r.None? ==> forall j: nat :: j < k ==> !OccursAt(s, pat, j)
    decreases k
  {
    if k == 0 then None
    else if OccursAt(s, pat, k - 1) then Some(k - 1)
    else LastBelow(s, pat, k - 1)
  }

  /** `s.rpartition(sep)[0]`: what precedes the last occurrence of `sep`,
      or the empty string when there is none. */
  function RPartitionHead(s: string, sep: string): (r: string)
    requires |sep| > 0
    ensures StartsWith(s, r)
    ensures (forall j: nat :: !OccursAt(s, sep, j)) ==> r == ""
    ensures (exists j: nat :: OccursAt(s, sep, j)) ==>
      OccursAt(s, sep, |r|) && forall j: nat :: OccursAt(s, sep, j) ==> j <= |r|
  {
    match LastBelow(s, sep, |s| + 1)
    case None => ""
    case Some(i) => s[..i]
  }

  /** The output name of `graph_pdf`: a trailing `.pdf` is removed, as the
      renderer appends one itself. */
  function PdfRenderName(name: string): (r: string)
    ensures EndsWith(name, ".pdf") ==> r + ".pdf" == name
    ensures !EndsWith(name, ".pdf") ==> r == name
  {
    if EndsWith(name, ".pdf") then
      assert OccursAt(name, ".pdf", |name| - 4);
      RPartitionHead(name, ".pdf")
    else name
  }
}
