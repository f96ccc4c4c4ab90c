/** The older, ID-based reference graph of `vizel/vizel.py`. A note is
    known by the first run of twelve word characters in its file name that
    is followed, later on the same line, by `.md`; it references other
    notes by `[[ID]]` links with exactly twelve word characters. Nodes are
    IDs (`None` for a file without one), a referenced ID becomes a node even
    if no file carries it, and self-references stay as loops. A file that
    cannot be decoded aborts the whole build. */
module IdVariant {
  import opened Basics
  import opened Scanner
  import opened ZettelGraph

  // ---------------------------------------------------------------------
  // `load_references`

  /** `re.findall('\[\[(\w{12})\]\]', text)`. */
  function LoadIdReferences(text: string): seq<string> {
    FindAll(IdLink, text)
  }

  /** The IDs are the groups of the leftmost non-overlapping `[[ID]]` links,
      in text order, so each is twelve word characters. */
  lemma LoadIdReferencesSpec(text: string)
    ensures exists hits :: IsFindAll(IdLink, text, 0, hits) && LoadIdReferences(text) == TokensOf(hits)
    ensures forall k :: 0 <= k < |LoadIdReferences(text)| ==>
      |LoadIdReferences(text)[k]| == 12 && AllWordChars(LoadIdReferences(text)[k])
  {
    FindAllSpec(IdLink, text);
  }

  /** A note whose text is one `[[ID]]` link references exactly that ID. */
  lemma SingleIdLink(id: string)
    requires |id| == 12 && AllWordChars(id)
    ensures LoadIdReferences("[[" + id + "]]") == [id]
  {
    var s := "[[" + id + "]]";
    var h := Hit(0, 16, id);
    assert s[0..16] == s;
    assert IsMatch(IdLink, s, 0, 16, id);
    assert IsFindAll(IdLink, s, 0, [h]);
    FindAllIsDetermined(IdLink, s, [h]);
  }

  // ---------------------------------------------------------------------
  // `get_zettel_id`: `re.search('(\w{12}).*\.md', name)`

  /** `.*\.md` matches from `from`: a `.md` at or after `from` with no line
      break in between (`.` does not match a line break). */
  ghost predicate MdLaterOnLine(s: string, from: nat) {
    exists j: nat :: from <= j && OccursAt(s, ".md", j) && '\n' !in s[from..j]
  }

  /** The whole pattern matches at `i`; its group is `s[i..i + 12]`. */
  ghost predicate IdMatchAt(s: string, i: nat) {
    i + 12 <= |s| && AllWordChars(s[i..i + 12]) && MdLaterOnLine(s, i + 12)
  }

  /** Scans for `.md` from `from`, stopping at a line break. */
  function MdAhead(s: string, from: nat): bool
    decreases |s| - from
  {
    if from >= |s| then false
    else if OccursAt(s, ".md", from) then true
    else if s[from] == '\n' then false
    else MdAhead(s, from + 1)
  }

  lemma {:induction false} MdAheadSpec(s: string, from: nat)
    ensures MdAhead(s, from) <==> MdLaterOnLine(s, from)
    decreases |s| - from
  {
    if from < |s| && !OccursAt(s, ".md", from) && s[from] != '\n' {
      MdAheadSpec(s, from + 1);
      if MdLaterOnLine(s, from) {
        var j: nat :| from <= j && OccursAt(s, ".md", j) && '\n' !in s[from..j];
        assert j != from;
        assert s[from + 1..j] == s[from..j][1..];
      }
      if MdLaterOnLine(s, from + 1) {
        var j: nat :| from + 1 <= j && OccursAt(s, ".md", j) && '\n' !in s[from + 1..j];
        assert s[from..j] == [s[from]] + s[from + 1..j];
      }
    } else if from < |s| && OccursAt(s, ".md", from) {
      assert s[from..from] == [];
    } else if from < |s| {
      forall j: nat | from <= j && OccursAt(s, ".md", j)
        ensures '\n' in s[from..j]
      {
        assert j != from;
        assert s[from..j][0] == '\n';
      }
    }
  }

  /** The leftmost position at or after `i` where the pattern matches. */
  function SearchId(s: string, i: nat): (r: Option<nat>)
    ensures r.Some? ==> i <= r.value && IdMatchAt(s, r.value)
    ensures r.Some? ==> forall q: nat :: i <= q < r.value ==> !IdMatchAt(s, q)
    ensures r.None? ==> forall q: nat :: i <= q ==> !IdMatchAt(s, q)
    decreases |s| - i
  {
    if i + 12 > |s| then None
    else
      MdAheadSpec(s, i + 12);
      if AllWordChars(s[i..i + 12]) && MdAhead(s, i + 12) then Some(i)
      else SearchId(s, i + 1)
  }

  /** `get_zettel_id`: the group of the leftmost match, or `None`. */
  function GetZettelId(name: string): (r: Option<string>)
    ensures r.Some? ==> |r.value| == 12 && AllWordChars(r.value)
  {
    match SearchId(name, 0)
    case None => None
    case Some(p) => Some(name[p..p + 12])
  }

  /** No ID exactly when the pattern matches nowhere; otherwise the ID is
      the group of the leftmost match. */
  lemma GetZettelIdSpec(name: string)
    ensures GetZettelId(name).None? <==> forall q: nat :: !IdMatchAt(name, q)
    ensures GetZettelId(name).Some? ==>
      exists p: nat :: IdMatchAt(name, p) && GetZettelId(name).value == name[p..p + 12]
        && forall q: nat :: q < p ==> !IdMatchAt(name, q)
  {
    match SearchId(name, 0)
    case None =>
    case Some(p) =>
      assert IdMatchAt(name, p);
  }

  /** A file name that starts with an ID and ends in `.md` has that ID. */
  lemma IdOfPlainName(id: string, rest: string)
    requires |id| == 12 && AllWordChars(id) && '\n' !in rest
    ensures GetZettelId(id + rest + ".md") == Some(id)
  {
    var s := id + rest + ".md";
    assert s[0..12] == id;
    assert OccursAt(s, ".md", 12 + |rest|);
    assert s[12..12 + |rest|] == rest;
    assert MdLaterOnLine(s, 12);
    assert IdMatchAt(s, 0);
  }

  // ---------------------------------------------------------------------
  // `get_digraph`

  /** Nodes are IDs; a file without an ID is the node `None`. The nodes
      are kept as a set: `vizel/vizel.py` never looks at their order. */
  datatype IdGraph = IdGraph(nodes: set<Option<string>>, edges: set<(Option<string>, Option<string>)>)

  /** The `add_edge` loop of the note with ID `u`: an edge to every
      referenced ID, itself included, and every referenced ID a node. */
  function AddIdEdges(g: IdGraph, u: Option<string>, ids: seq<string>): (r: IdGraph)
    requires u in g.nodes
    ensures r.edges == g.edges + (set target | target in ids :: (u, Some(target)))
    ensures r.nodes == g.nodes + (set target | target in ids :: Some(target))
    decreases |ids|
  {
    if |ids| == 0 then g
    else
      var t := ids[0];
      var g' := IdGraph(g.nodes + {Some(t)}, g.edges + {(u, Some(t))});
      assert ids == [t] + ids[1..];
      assert (set x | x in ids :: (u, Some(x))) == {(u, Some(t))} + (set x | x in ids[1..] :: (u, Some(x)));
      assert (set x | x in ids :: Some(x)) == {Some(t)} + (set x | x in ids[1..] :: Some(x));
      AddIdEdges(g', u, ids[1..])
  }

  /** Reading the same references a second time changes nothing: repeated
      references between the same pair give one edge. */
  lemma RepeatedReferencesAddNothing(g: IdGraph, u: Option<string>, ids: seq<string>)
    requires u in g.nodes
    ensures AddIdEdges(AddIdEdges(g, u, ids), u, ids) == AddIdEdges(g, u, ids)
  {
    var r := AddIdEdges(g, u, ids);
    var r2 := AddIdEdges(r, u, ids);
    assert r2.nodes == r.nodes;
    assert r2.edges == r.edges;
  }

  /** The IDs a note references; none when it cannot be decoded. */
  function IdRefs(n: Note): seq<string> {
    match n.content
    case Undecodable(_) => []
    case Text(text) => LoadIdReferences(text)
  }

  /** The ID of every file, in listing order. */
  function Ids(notes: seq<Note>): seq<Option<string>> {
    seq(|notes|, k requires 0 <= k < |notes| => GetZettelId(notes[k].name))
  }

  /** Every ID referenced by some note. */
  ghost function Referenced(notes: seq<Note>): set<Option<string>> {
    set k, target | 0 <= k < |notes| && target in IdRefs(notes[k]) :: Some(target)
  }

  /** Some note with ID `u` references `v`. */
  ghost predicate IdRefers(notes: seq<Note>, u: Option<string>, v: Option<string>) {
    exists k :: 0 <= k < |notes| && IdNoteRefers(notes[k], u, v)
  }

  /** Note `n` has ID `u` and references `v`. */
  ghost predicate IdNoteRefers(n: Note, u: Option<string>, v: Option<string>) {
    GetZettelId(n.name) == u && v.Some? && v.value in IdRefs(n)
  }

  /** The first note, if any, that cannot be decoded is note `k`. */
  ghost predicate FirstUndecodable(notes: seq<Note>, k: nat) {
    k < |notes| && notes[k].content.Undecodable?
    && forall j :: 0 <= j < k ==> notes[j].content.Text?
  }

  /** The body of the loop for a readable note: add the file's ID as a
      node, then an edge to each ID it references. */
  function AddNote(g: IdGraph, n: Note): (r: IdGraph)
    ensures r.nodes == g.nodes + {GetZettelId(n.name)} + (set t | t in IdRefs(n) :: Some(t))
    ensures r.edges == g.edges + (set t | t in IdRefs(n) :: (GetZettelId(n.name), Some(t)))
  {
    var id := GetZettelId(n.name);
    AddIdEdges(IdGraph(g.nodes + {id}, g.edges), id, IdRefs(n))
  }

  /** `get_digraph` over the notes in listing order; reading a file that
      cannot be decoded raises, which ends the build. */
  function GetIdDigraph(notes: seq<Note>): Result<IdGraph, string>
    decreases |notes|
  {
    if |notes| == 0 then Success(IdGraph({}, {}))
    else
      var init := notes[..|notes| - 1];
      var n := notes[|notes| - 1];
      match GetIdDigraph(init)
      case Failure(e) => Failure(e)
      case Success(g) =>
        match n.content
        case Undecodable(d) => Failure(d)
        case Text(_) => Success(AddNote(g, n))
  }

  /** Some note of the listing cannot be decoded. */
  ghost predicate HasUndecodable(notes: seq<Note>) {
    exists k :: 0 <= k < |notes| && notes[k].content.Undecodable?
  }

  lemma HasUndecodableStep(init: seq<Note>, n: Note)
    ensures HasUndecodable(init + [n]) <==> HasUndecodable(init) || n.content.Undecodable?
  {
    var notes := init + [n];
    if HasUndecodable(notes) {
      var k :| 0 <= k < |notes| && notes[k].content.Undecodable?;
      if k < |init| {
        assert init[k] == notes[k];
      }
    }
    if HasUndecodable(init) {
      var k :| 0 <= k < |init| && init[k].content.Undecodable?;
      assert notes[k] == init[k];
    }
    assert notes[|init|] == n;
  }

  /** The build fails exactly when some note cannot be decoded. */
  lemma {:induction false} IdDigraphOutcome(notes: seq<Note>)
    ensures GetIdDigraph(notes).Failure? <==> HasUndecodable(notes)
    decreases |notes|
  {
    if |notes| > 0 {
      var init := notes[..|notes| - 1];
      var n := notes[|notes| - 1];
      IdDigraphOutcome(init);
      FailureStep(notes);
      SplitLast(notes);
      HasUndecodableStep(init, n);
    }
  }

  /** One more note fails the build exactly when the build so far failed
      or the new note cannot be decoded. */
  lemma FailureStep(notes: seq<Note>)
    requires |notes| > 0
    ensures GetIdDigraph(notes).Failure?
        <==> GetIdDigraph(notes[..|notes| - 1]).Failure? || notes[|notes| - 1].content.Undecodable?
  {
  }

  /** A failed build reports the decoding error of the first undecodable
      note. */
  lemma {:induction false} IdDigraphFailure(notes: seq<Note>)
    requires GetIdDigraph(notes).Failure?
    ensures exists k: nat :: FirstUndecodable(notes, k) && notes[k].content.detail == GetIdDigraph(notes).error
    decreases |notes|
  {
    var init := notes[..|notes| - 1];
    if GetIdDigraph(init).Failure? {
      IdDigraphFailure(init);
      var k: nat :| FirstUndecodable(init, k) && init[k].content.detail == GetIdDigraph(init).error;
      assert init[k] == notes[k];
      assert forall j :: 0 <= j < k ==> init[j] == notes[j];
      assert FirstUndecodable(notes, k);
    } else {
      var last: nat := |notes| - 1;
      assert forall j :: 0 <= j < |init| ==> init[j] == notes[j];
      IdDigraphOutcome(init);
      assert FirstUndecodable(notes, last);
    }
  }

  /** A successful build has a node for every file's ID and every
      referenced ID and no other, and an edge exactly where a note with
      that ID references that ID, loops included. */
  lemma {:induction false} IdDigraphSuccess(notes: seq<Note>)
    requires GetIdDigraph(notes).Success?
    ensures GetIdDigraph(notes).value.nodes == Elements(Ids(notes)) + Referenced(notes)
    ensures forall u, v :: (u, v) in GetIdDigraph(notes).value.edges <==> IdRefers(notes, u, v)
    decreases |notes|
  {
    if |notes| > 0 {
      var init := notes[..|notes| - 1];
      var n := notes[|notes| - 1];
      IdStep(notes);
      var prev := GetIdDigraph(init).value;
      IdDigraphSuccess(init);
      SplitLast(notes);
      IdStepNodes(notes, init, n, prev);
      IdStepEdges(notes, init, n, prev);
    } else {
      assert Ids(notes) == [];
      assert forall x :: x !in Referenced(notes);
    }
  }

  /** One step of a successful build: everything before the last note
      was built, and the last note is readable and is added to it. */
  lemma IdStep(notes: seq<Note>)
    requires |notes| > 0 && GetIdDigraph(notes).Success?
    ensures GetIdDigraph(notes[..|notes| - 1]).Success?
    ensures GetIdDigraph(notes).value == AddNote(GetIdDigraph(notes[..|notes| - 1]).value, notes[|notes| - 1])
  {
  }

  lemma IdStepNodes(notes: seq<Note>, init: seq<Note>, n: Note, prev: IdGraph)
    requires notes == init + [n]
    requires prev.nodes == Elements(Ids(init)) + Referenced(init)
    ensures AddNote(prev, n).nodes == Elements(Ids(notes)) + Referenced(notes)
  {
    assert Ids(notes) == Ids(init) + [GetZettelId(n.name)];
    assert Elements(Ids(notes)) == Elements(Ids(init)) + {GetZettelId(n.name)};
    ReferencedStep(init, n);
  }

  /** The references of all notes are those of all but the last plus
      those of the last. */
  lemma ReferencedStep(init: seq<Note>, n: Note)
    ensures Referenced(init + [n]) == Referenced(init) + (set t | t in IdRefs(n) :: Some(t))
  {
    var notes := init + [n];
    forall x | x in Referenced(notes)
      ensures x in Referenced(init) + (set t | t in IdRefs(n) :: Some(t))
    {
      var k, t :| 0 <= k < |notes| && t in IdRefs(notes[k]) && x == Some(t);
    }
    forall x | x in Referenced(init)
      ensures x in Referenced(notes)
    {
      var k, t :| 0 <= k < |init| && t in IdRefs(init[k]) && x == Some(t);
      assert notes[k] == init[k];
    }
    forall t | t in IdRefs(n)
      ensures Some(t) in Referenced(notes)
    {
      assert notes[|init|] == n;
    }
  }

  lemma IdStepEdges(notes: seq<Note>, init: seq<Note>, n: Note, prev: IdGraph)
    requires notes == init + [n]
    requires forall u, v :: (u, v) in prev.edges <==> IdRefers(init, u, v)
    ensures forall u, v :: (u, v) in AddNote(prev, n).edges <==> IdRefers(notes, u, v)
  {
    var w := GetZettelId(n.name);
    var g := AddNote(prev, n);
    forall u, v
      ensures (u, v) in g.edges <==> IdRefers(notes, u, v)
    {
      IdRefersStep(init, n, u, v);
      if IdNoteRefers(n, u, v) {
        assert (u, v) == (w, Some(v.value));
      }
    }
  }

  /** A note with ID `u` references `v` when one before the last does, or
      the last does. */
  lemma IdRefersStep(init: seq<Note>, n: Note, u: Option<string>, v: Option<string>)
    ensures IdRefers(init + [n], u, v) <==> IdRefers(init, u, v) || IdNoteRefers(n, u, v)
  {
    var notes := init + [n];
    if IdRefers(notes, u, v) {
      var k :| 0 <= k < |notes| && IdNoteRefers(notes[k], u, v);
    }
    if IdRefers(init, u, v) {
      var k :| 0 <= k < |init| && IdNoteRefers(init[k], u, v);
      assert notes[k] == init[k];
    }
    if IdNoteRefers(n, u, v) {
      assert notes[|init|] == n;
    }
  }

  /** A note that references its own ID gets a loop. */
  lemma SelfReferenceLoop(notes: seq<Note>, k: nat)
    requires GetIdDigraph(notes).Success? && k < |notes|
    requires GetZettelId(notes[k].name).Some? && GetZettelId(notes[k].name).value in IdRefs(notes[k])
    ensures (GetZettelId(notes[k].name), GetZettelId(notes[k].name)) in GetIdDigraph(notes).value.edges
  {
    IdDigraphSuccess(notes);
    assert IdRefers(notes, GetZettelId(notes[k].name), GetZettelId(notes[k].name));
  }

  /** Files with the same ID, or both without one, are one node: every
      file's ID is a node, and there are at most as many nodes as files
      plus referenced IDs. */
  lemma IdNodesCollapse(notes: seq<Note>)
    requires GetIdDigraph(notes).Success?
    ensures forall k :: 0 <= k < |notes| ==> GetZettelId(notes[k].name) in GetIdDigraph(notes).value.nodes
    ensures |GetIdDigraph(notes).value.nodes| <= |notes| + |Referenced(notes)|
  {
    var g := GetIdDigraph(notes).value;
    IdDigraphSuccess(notes);
    ElementsCard(Ids(notes));
    UnionCard(Elements(Ids(notes)), Referenced(notes));
    forall k | 0 <= k < |notes|
      ensures GetZettelId(notes[k].name) in g.nodes
    {
      assert Ids(notes)[k] in Elements(Ids(notes));
    }
  }
}
