/** Reference resolution of `vizel/cli.py`: every token the scanners find
    is matched by prefix against the sorted list of file names in the
    note directory. One match is a reference; none or several are
    reported as diagnostics, which the program echoes to standard error
    and this model returns as data. */
module Resolver {
  import opened Basics
  import opened Scanner

  /** The file names that start with `token`, in listing order. */
  function Candidates(token: string, names: seq<string>): (r: seq<string>)
    ensures forall f :: f in r <==> f in names && StartsWith(f, token)
    ensures |r| <= |names|
    decreases |names|
  {
    if |names| == 0 then []
    else (if StartsWith(names[0], token) then [names[0]] else []) + Candidates(token, names[1..])
  }

  /** Filtering keeps the listing's order: candidates from a listing without
      repetition repeat nothing, and from an ascending listing ascend. */
  lemma {:induction false} CandidatesOrder(token: string, names: seq<string>)
    ensures Distinct(names) ==> Distinct(Candidates(token, names))
    ensures StrictlySorted(names) ==> StrictlySorted(Candidates(token, names))
    decreases |names|
  {
    if |names| > 0 {
      var rest := Candidates(token, names[1..]);
      CandidatesOrder(token, names[1..]);
      assert Distinct(names) ==> Distinct(names[1..]);
      assert StrictlySorted(names) ==> StrictlySorted(names[1..]);
      forall j | 0 <= j < |rest|
        ensures exists m :: 1 <= m < |names| && names[m] == rest[j]
      {
        assert rest[j] in names[1..];
        var m :| 0 <= m < |names[1..]| && names[1..][m] == rest[j];
        assert names[m + 1] == rest[j];
      }
    }
  }

  /** `f` is the one and only listed file name that starts with `token`. */
  ghost predicate UniquelyMatches(token: string, names: seq<string>, f: string) {
    && f in names
    && StartsWith(f, token)
    && forall g :: g in names && StartsWith(g, token) ==> g == f
  }

  datatype Resolution =
    | Resolved(target: string)
    | Unresolved
    | Ambiguous(candidates: seq<string>)

  /** The outcome of one token against the listing (lines 38-55). */
  function Resolve(token: string, names: seq<string>): Resolution {
    var c := Candidates(token, names);
    if |c| == 1 then Resolved(c[0])
    else if |c| == 0 then Unresolved
    else Ambiguous(c)
  }

  /** One match resolves to exactly that file name, and with distinct file
      names every unique match resolves; no match is unresolved; two or
      more matches are ambiguous and keep all of them, ascending when the
      listing is. */
  lemma ResolveSpec(token: string, names: seq<string>)
    ensures var r := Resolve(token, names);
      && (r.Resolved? ==> UniquelyMatches(token, names, r.target))
      && (Distinct(names) ==> forall f :: UniquelyMatches(token, names, f) ==> r == Resolved(f))
      && (r.Unresolved? <==> forall f :: f in names ==> !StartsWith(f, token))
      && (r.Ambiguous? ==> 2 <= |r.candidates| && forall f :: f in r.candidates <==> f in names && StartsWith(f, token))
      && (r.Ambiguous? && StrictlySorted(names) ==> StrictlySorted(r.candidates))
  {
    var c := Candidates(token, names);
    CandidatesOrder(token, names);
    if |c| == 1 {
      assert c[0] in c;
    } else if |c| >= 2 {
      assert c[0] in c && c[1] in c;
    }
  }

  /** The messages of `vizel/cli.py`, as data. `source` is the file name of
      the note the message is about. */
  datatype Diagnostic =
    | NoMatchingZettel(token: string, source: string)
    | NonUniqueReference(token: string, source: string, candidates: seq<string>)
    | SkippingUndecodable(source: string, detail: string)

  /** `d` is a report the resolver may make about `token`: no file name
      starts with it, or the two or more that do are all listed. */
  ghost predicate ReportsOn(d: Diagnostic, names: seq<string>, source: string) {
    && d.source == source
    && match d
       case NoMatchingZettel(t, _) => forall f :: f in names ==> !StartsWith(f, t)
       case NonUniqueReference(t, _, c) => c == Candidates(t, names) && 2 <= |c|
       case SkippingUndecodable(_, _) => false
  }

  /** References and diagnostics gathered from a list of tokens. */
  datatype Extraction = Extraction(targets: seq<string>, diagnostics: seq<Diagnostic>)

  function ResolveOne(token: string, names: seq<string>, source: string): Extraction {
    match Resolve(token, names)
    case Resolved(f) => Extraction([f], [])
    case Unresolved => Extraction([], [NoMatchingZettel(token, source)])
    case Ambiguous(c) => Extraction([], [NonUniqueReference(token, source, c)])
  }

  /** The loop over the found tokens, in token order. */
  function ResolveTokens(tokens: seq<string>, names: seq<string>, source: string): Extraction
    decreases |tokens|
  {
    if |tokens| == 0 then Extraction([], [])
    else
      var head := ResolveOne(tokens[0], names, source);
      var rest := ResolveTokens(tokens[1..], names, source);
      Extraction(head.targets + rest.targets, head.diagnostics + rest.diagnostics)
  }

  /** Each token yields either one reference or one diagnostic; every
      reference is the unique match of some token, and with distinct file
      names every uniquely matched token yields its reference; every
      diagnostic is about one of the tokens and reports a real failure. */
  lemma {:induction false} ResolveTokensSpec(tokens: seq<string>, names: seq<string>, source: string)
    ensures var x := ResolveTokens(tokens, names, source);
      && |x.targets| + |x.diagnostics| == |tokens|
      && (forall f :: f in x.targets ==> exists k :: 0 <= k < |tokens| && UniquelyMatches(tokens[k], names, f))
      && (Distinct(names) ==>
            forall k, f :: 0 <= k < |tokens| && UniquelyMatches(tokens[k], names, f) ==> f in x.targets)
      && (forall d :: d in x.diagnostics ==> !d.SkippingUndecodable? && d.token in tokens && ReportsOn(d, names, source))
    decreases |tokens|
  {
    if |tokens| > 0 {
      var x := ResolveTokens(tokens, names, source);
      var head := ResolveOne(tokens[0], names, source);
      var rest := ResolveTokens(tokens[1..], names, source);
      ResolveTokensSpec(tokens[1..], names, source);
      ResolveSpec(tokens[0], names);
      forall f | f in rest.targets
        ensures exists k :: 0 <= k < |tokens| && UniquelyMatches(tokens[k], names, f)
      {
        var k :| 0 <= k < |tokens[1..]| && UniquelyMatches(tokens[1..][k], names, f);
        assert tokens[1..][k] == tokens[k + 1];
      }
      if Distinct(names) {
        forall k, f | 0 <= k < |tokens| && UniquelyMatches(tokens[k], names, f)
          ensures f in x.targets
        {
          if k > 0 {
            assert tokens[k] == tokens[1..][k - 1];
          }
        }
      }
      forall d | d in rest.diagnostics
        ensures d.token in tokens
      {
      }
    }
  }

  /** Resolving a concatenation of token lists concatenates the results:
      the loop keeps token order. */
  lemma {:induction false} ResolveTokensAppend(a: seq<string>, b: seq<string>, names: seq<string>, source: string)
    ensures ResolveTokens(a + b, names, source).targets
         == ResolveTokens(a, names, source).targets + ResolveTokens(b, names, source).targets
    ensures ResolveTokens(a + b, names, source).diagnostics
         == ResolveTokens(a, names, source).diagnostics + ResolveTokens(b, names, source).diagnostics
    decreases |a|
  {
    if |a| > 0 {
      assert (a + b)[1..] == a[1..] + b;
      assert (a + b)[0] == a[0];
      ResolveTokensAppend(a[1..], b, names, source);
      var head := ResolveOne(a[0], names, source);
      var restA := ResolveTokens(a[1..], names, source);
      var restB := ResolveTokens(b, names, source);
      assert ResolveTokens(a + b, names, source)
          == Extraction(head.targets + (restA.targets + restB.targets), head.diagnostics + (restA.diagnostics + restB.diagnostics));
    } else {
      assert a + b == b;
    }
  }

  /** `_extract_valid_references` for one pattern. */
  function ExtractValidReferences(syn: Syntax, text: string, names: seq<string>, source: string): Extraction {
    ResolveTokens(FindAll(syn, text), names, source)
  }

  /** All reference tokens of a note: the bracket tokens, then the
      markdown targets, each in text order. */
  function ReferenceTokens(text: string): seq<string> {
    FindAll(WikiLink, text) + FindAll(MarkdownLink, text)
  }

  /** `_load_references`: the bracket pass followed by the markdown pass.
      Every reference is a listed file name and every message is about
      the note being read. */
  function LoadReferences(text: string, names: seq<string>, source: string): (x: Extraction)
    ensures forall f :: f in x.targets ==> f in names
    ensures forall d :: d in x.diagnostics ==> d.source == source && !d.SkippingUndecodable?
  {
    ResolveTokensSpec(FindAll(WikiLink, text), names, source);
    ResolveTokensSpec(FindAll(MarkdownLink, text), names, source);
    var wiki := ExtractValidReferences(WikiLink, text, names, source);
    var md := ExtractValidReferences(MarkdownLink, text, names, source);
    Extraction(wiki.targets + md.targets, wiki.diagnostics + md.diagnostics)
  }

  /** The two passes behave as one pass over the bracket tokens followed by
      the markdown targets: all bracket references and messages come before
      all markdown ones, each in text order. */
  lemma LoadReferencesIsOnePass(text: string, names: seq<string>, source: string)
    ensures LoadReferences(text, names, source) == ResolveTokens(ReferenceTokens(text), names, source)
  {
    ResolveTokensAppend(FindAll(WikiLink, text), FindAll(MarkdownLink, text), names, source);
  }

  /** A token resolves to a reference exactly when one listed file name
      starts with it, and then the reference is that name. */
  lemma ReferenceIffUniqueMatch(token: string, names: seq<string>, source: string)
    requires Distinct(names)
    ensures ResolveOne(token, names, source).targets != [] <==> exists f :: UniquelyMatches(token, names, f)
    ensures forall f :: UniquelyMatches(token, names, f) ==> ResolveOne(token, names, source) == Extraction([f], [])
  {
    var r := Resolve(token, names);
    ResolveSpec(token, names);
    if r.Resolved? {
      assert UniquelyMatches(token, names, r.target);
    }
  }

  /** A token that no file name starts with gives one "No matching Zettel"
      diagnostic; one that several start with gives one "non-unique"
      diagnostic listing every match in ascending order, the note's own
      file name included. */
  lemma FailedTokenDiagnostics(token: string, names: seq<string>, source: string)
    requires StrictlySorted(names)
    ensures (forall f :: f in names ==> !StartsWith(f, token)) ==>
      ResolveOne(token, names, source) == Extraction([], [NoMatchingZettel(token, source)])
    ensures 2 <= |Candidates(token, names)| ==>
      && ResolveOne(token, names, source) == Extraction([], [NonUniqueReference(token, source, Candidates(token, names))])
      && StrictlySorted(Candidates(token, names))
      && (source in names && StartsWith(source, token) ==> source in Candidates(token, names))
  {
    ResolveSpec(token, names);
    CandidatesOrder(token, names);
  }
}
