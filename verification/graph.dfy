/** The reference graph of `vizel/cli.py` (`_get_digraph`): one node per
    listed note file, one directed edge from a note to every file it
    references other than itself. A `networkx.DiGraph` is a simple digraph,
    so the edges form a set; its nodes keep insertion order, and
    `add_edge` inserts a target that is not yet a node right away. */
module ZettelGraph {
  import opened Basics
  import opened Scanner
  import opened Resolver

  /** A note's contents: its decoded text, or the decoding error. */
  datatype Content = Text(text: string) | Undecodable(detail: string)

  datatype Note = Note(name: string, content: Content)

  datatype Graph = Graph(nodes: seq<string>, edges: set<(string, string)>)

  /** A graph together with the diagnostics emitted while building it. */
  datatype Build = Build(graph: Graph, diagnostics: seq<Diagnostic>)

  function Names(dir: seq<Note>): seq<string> {
    seq(|dir|, k requires 0 <= k < |dir| => dir[k].name)
  }

  /** The `add_edge` loop of one note `u`: an edge to every target other
      than `u` itself. The edge set grows by exactly those pairs, so a
      target named twice adds nothing the first did not. */
  function AddEdges(g: Graph, u: string, targets: seq<string>): (r: Graph)
    requires u in g.nodes
    ensures r.edges == g.edges + (set target | target in targets && target != u :: (u, target))
    ensures Elements(r.nodes) == Elements(g.nodes) + (set target | target in targets && target != u)
    ensures Distinct(g.nodes) ==> Distinct(r.nodes)
    decreases |targets|
  {
    if |targets| == 0 then g
    else
      var t := targets[0];
      var g' := if t != u then Graph(AddNode(AddNode(g.nodes, u), t), g.edges + {(u, t)}) else g;
      assert u in Elements(g'.nodes);
      TargetsSplit(targets, u);
      AddEdges(g', u, targets[1..])
  }

  /** The targets and edges of a non-empty target list are those of its
      head followed by those of its tail. */
  lemma TargetsSplit(targets: seq<string>, u: string)
    requires |targets| > 0
    ensures (set x | x in targets && x != u :: (u, x))
         == (if targets[0] != u then {(u, targets[0])} else {}) + (set x | x in targets[1..] && x != u :: (u, x))
    ensures (set x | x in targets && x != u)
         == (if targets[0] != u then {targets[0]} else {}) + (set x | x in targets[1..] && x != u)
  {
    assert targets == [targets[0]] + targets[1..];
  }

  /** Targets that are already nodes add no node, and the node order stays
      as it was. */
  lemma {:induction false} AddEdgesKnown(g: Graph, u: string, targets: seq<string>)
    requires u in g.nodes && forall t :: t in targets ==> t in g.nodes
    ensures AddEdges(g, u, targets).nodes == g.nodes
    decreases |targets|
  {
    if |targets| > 0 {
      var t := targets[0];
      var g' := if t != u then Graph(AddNode(AddNode(g.nodes, u), t), g.edges + {(u, t)}) else g;
      assert g'.nodes == g.nodes;
      AddEdgesKnown(g', u, targets[1..]);
    }
  }

  /** Reading the same references of a note a second time changes nothing:
      repeated references between the same pair give one edge. */
  lemma RepeatedTargetsAddNothing(g: Graph, u: string, targets: seq<string>)
    requires u in g.nodes
    ensures AddEdges(AddEdges(g, u, targets), u, targets) == AddEdges(g, u, targets)
  {
    var r := AddEdges(g, u, targets);
    assert u in Elements(g.nodes);
    forall t | t in targets
      ensures t in r.nodes
    {
      if t != u {
        assert t in Elements(r.nodes);
      } else {
        assert t in Elements(r.nodes);
      }
    }
    AddEdgesKnown(r, u, targets);
  }

  /** The references a note contributes: none when it cannot be decoded. */
  function NoteTargets(n: Note, names: seq<string>): seq<string> {
    match n.content
    case Undecodable(_) => []
    case Text(text) => LoadReferences(text, names, n.name).targets
  }

  /** The diagnostics a note contributes: the "Skipping" message when it
      cannot be decoded, the resolver's messages otherwise. */
  function NoteDiagnostics(n: Note, names: seq<string>): seq<Diagnostic> {
    match n.content
    case Undecodable(d) => [SkippingUndecodable(n.name, d)]
    case Text(text) => LoadReferences(text, names, n.name).diagnostics
  }

  /** One iteration of the loop over the sorted listing. */
  function Step(b: Build, n: Note, names: seq<string>): Build {
    var nodes := AddNode(b.graph.nodes, n.name);
    assert n.name in Elements(nodes);
    Build(AddEdges(Graph(nodes, b.graph.edges), n.name, NoteTargets(n, names)),
          b.diagnostics + NoteDiagnostics(n, names))
  }

  /** Note `n` is the file `u` and references `v`, a file other than itself. */
  ghost predicate NoteRefers(n: Note, names: seq<string>, u: string, v: string) {
    n.name == u && v in NoteTargets(n, names) && v != u
  }

  /** Some note of `dir` named `u` references `v`. */
  ghost predicate Refers(dir: seq<Note>, names: seq<string>, u: string, v: string) {
    exists k :: 0 <= k < |dir| && NoteRefers(dir[k], names, u, v)
  }

  lemma NoteTargetsListed(n: Note, names: seq<string>)
    ensures forall f :: f in NoteTargets(n, names) ==> f in names
  {
  }

  /** The loop of `_get_digraph` over `dir`, resolving against `names`. */
  function BuildFrom(dir: seq<Note>, names: seq<string>): (b: Build)
    ensures Distinct(b.graph.nodes)
    ensures Elements(Names(dir)) <= Elements(b.graph.nodes) <= Elements(Names(dir)) + Elements(names)
    ensures forall u, v :: (u, v) in b.graph.edges <==> Refers(dir, names, u, v)
    ensures forall d :: d in b.diagnostics ==> d.source in Names(dir)
    decreases |dir|
  {
    if |dir| == 0 then Build(Graph([], {}), [])
    else
      var init := dir[..|dir| - 1];
      var n := dir[|dir| - 1];
      var prev := BuildFrom(init, names);
      var b := Step(prev, n, names);
      SplitLast(dir);
      BuildFromStep(init, n, names, prev, b);
      b
  }

  lemma BuildFromStep(init: seq<Note>, n: Note, names: seq<string>, prev: Build, b: Build)
    requires Distinct(prev.graph.nodes)
    requires Elements(Names(init)) <= Elements(prev.graph.nodes) <= Elements(Names(init)) + Elements(names)
    requires forall u, v :: (u, v) in prev.graph.edges <==> Refers(init, names, u, v)
    requires forall d :: d in prev.diagnostics ==> d.source in Names(init)
    requires b == Step(prev, n, names)
    ensures Distinct(b.graph.nodes)
    ensures Elements(Names(init + [n])) <= Elements(b.graph.nodes) <= Elements(Names(init + [n])) + Elements(names)
    ensures forall u, v :: (u, v) in b.graph.edges <==> Refers(init + [n], names, u, v)
    ensures forall d :: d in b.diagnostics ==> d.source in Names(init + [n])
  {
    NoteTargetsListed(n, names);
    NamesAppend(init, n);
    StepNodes(init, n, names, prev, b, NoteTargets(n, names));
    StepEdges(init, n, names, prev, b, NoteTargets(n, names));
    NoteDiagnosticsSource(n, names);
  }

  lemma NamesAppend(init: seq<Note>, n: Note)
    ensures Names(init + [n]) == Names(init) + [n.name]
    ensures Elements(Names(init + [n])) == Elements(Names(init)) + {n.name}
  {
    assert Names(init + [n]) == Names(init) + [n.name];
  }

  lemma StepNodes(init: seq<Note>, n: Note, names: seq<string>, prev: Build, b: Build, targets: seq<string>)
    requires forall t :: t in targets ==> t in names
    requires Elements(Names(init)) <= Elements(prev.graph.nodes) <= Elements(Names(init)) + Elements(names)
    requires Elements(b.graph.nodes) == Elements(prev.graph.nodes) + {n.name} + (set target | target in targets && target != n.name)
    requires Elements(Names(init + [n])) == Elements(Names(init)) + {n.name}
    ensures Elements(Names(init + [n])) <= Elements(b.graph.nodes) <= Elements(Names(init + [n])) + Elements(names)
  {
  }

  lemma StepEdges(init: seq<Note>, n: Note, names: seq<string>, prev: Build, b: Build, targets: seq<string>)
    requires targets == NoteTargets(n, names)
    requires forall u, v :: (u, v) in prev.graph.edges <==> Refers(init, names, u, v)
    requires b.graph.edges == prev.graph.edges + (set target | target in targets && target != n.name :: (n.name, target))
    ensures forall u, v :: (u, v) in b.graph.edges <==> Refers(init + [n], names, u, v)
  {
    forall u, v
      ensures (u, v) in b.graph.edges <==> Refers(init + [n], names, u, v)
    {
      RefersStep(init, n, names, u, v);
    }
  }

  /** A listing grown by one note refers exactly where the shorter one or
      the new note does. */
  lemma RefersStep(init: seq<Note>, n: Note, names: seq<string>, u: string, v: string)
    ensures Refers(init + [n], names, u, v) <==> Refers(init, names, u, v) || NoteRefers(n, names, u, v)
  {
    var dir := init + [n];
    if Refers(dir, names, u, v) {
      var k :| 0 <= k < |dir| && NoteRefers(dir[k], names, u, v);
      if k < |init| {
        assert init[k] == dir[k];
      }
    }
    if Refers(init, names, u, v) {
      var k :| 0 <= k < |init| && NoteRefers(init[k], names, u, v);
      assert dir[k] == init[k];
    }
    if NoteRefers(n, names, u, v) {
      assert dir[|init|] == n;
    }
  }

  /** `_get_digraph`: every listed file, in sorted order, resolved against
      the whole listing. The nodes are exactly the listed files, each once;
      an edge exists exactly where a decodable note references another
      listed file. */
  function GetDigraph(dir: seq<Note>): (b: Build)
    ensures Elements(b.graph.nodes) == Elements(Names(dir))
    ensures Distinct(b.graph.nodes)
    ensures Distinct(Names(dir)) ==> |b.graph.nodes| == |dir|
    ensures forall u, v :: (u, v) in b.graph.edges <==> Refers(dir, Names(dir), u, v)
    ensures forall u, v :: (u, v) in b.graph.edges ==> u != v && u in Names(dir) && v in Names(dir)
  {
    var names := Names(dir);
    var b := BuildFrom(dir, names);
    NodeCount(dir, b.graph.nodes);
    EdgesListed(dir, b.graph);
    b
  }

  lemma NodeCount(dir: seq<Note>, nodes: seq<string>)
    requires Distinct(nodes) && Elements(nodes) == Elements(Names(dir))
    ensures Distinct(Names(dir)) ==> |nodes| == |dir|
  {
    ElementsCard(nodes);
    ElementsCard(Names(dir));
  }

  lemma EdgesListed(dir: seq<Note>, g: Graph)
    requires forall u, v :: (u, v) in g.edges <==> Refers(dir, Names(dir), u, v)
    ensures forall u, v :: (u, v) in g.edges ==> u != v && u in Names(dir) && v in Names(dir)
  {
    var names := Names(dir);
    forall u, v | (u, v) in g.edges
      ensures u != v && u in names && v in names
    {
      var k :| 0 <= k < |dir| && NoteRefers(dir[k], names, u, v);
      NoteTargetsListed(dir[k], names);
      assert names[k] == u;
    }
  }

  /** The diagnostics in `ds` about the note named `source`, in order. */
  function DiagnosticsAbout(ds: seq<Diagnostic>, source: string): seq<Diagnostic>
    decreases |ds|
  {
    if |ds| == 0 then []
    else
      DiagnosticsAbout(ds[..|ds| - 1], source)
        + (if ds[|ds| - 1].source == source then [ds[|ds| - 1]] else [])
  }

  lemma {:induction false} DiagnosticsAboutAppend(a: seq<Diagnostic>, b: seq<Diagnostic>, source: string)
    ensures DiagnosticsAbout(a + b, source) == DiagnosticsAbout(a, source) + DiagnosticsAbout(b, source)
    decreases |b|
  {
    if |b| == 0 {
      assert a + b == a;
    } else {
      assert (a + b)[..|a + b| - 1] == a + b[..|b| - 1];
      DiagnosticsAboutAppend(a, b[..|b| - 1], source);
    }
  }

  lemma {:induction false} DiagnosticsAboutAll(ds: seq<Diagnostic>, source: string)
    requires forall d :: d in ds ==> d.source == source
    ensures DiagnosticsAbout(ds, source) == ds
    decreases |ds|
  {
    if |ds| > 0 {
      DiagnosticsAboutAll(ds[..|ds| - 1], source);
    }
  }

  lemma {:induction false} DiagnosticsAboutNone(ds: seq<Diagnostic>, source: string)
    requires forall d :: d in ds ==> d.source != source
    ensures DiagnosticsAbout(ds, source) == []
    decreases |ds|
  {
    if |ds| > 0 {
      DiagnosticsAboutNone(ds[..|ds| - 1], source);
    }
  }

  lemma NoteDiagnosticsSource(n: Note, names: seq<string>)
    ensures forall d :: d in NoteDiagnostics(n, names) ==> d.source == n.name
  {
  }

  /** The last file name of a listing without repetition is not among the
      earlier ones, and the earlier ones repeat nothing either. */
  lemma NamesSplit(dir: seq<Note>)
    requires |dir| > 0 && Distinct(Names(dir))
    ensures Names(dir) == Names(dir[..|dir| - 1]) + [dir[|dir| - 1].name]
    ensures dir[|dir| - 1].name !in Names(dir[..|dir| - 1])
    ensures Distinct(Names(dir[..|dir| - 1]))
  {
    var init := dir[..|dir| - 1];
    assert Names(dir) == Names(init) + [dir[|dir| - 1].name];
    forall j | 0 <= j < |init|
      ensures Names(init)[j] != dir[|dir| - 1].name
    {
      assert Names(dir)[j] != Names(dir)[|dir| - 1];
    }
    forall i, j | 0 <= i < j < |init|
      ensures Names(init)[i] != Names(init)[j]
    {
      assert Names(dir)[i] != Names(dir)[j];
    }
  }

  /** With distinct file names, the messages about a note are exactly the
      ones its own processing emitted, in order: the single "Skipping"
      message for an undecodable note, the resolver's messages otherwise. */
  lemma {:induction false} DiagnosticsPerNote(dir: seq<Note>, names: seq<string>, k: nat)
    requires Distinct(Names(dir)) && k < |dir|
    ensures DiagnosticsAbout(BuildFrom(dir, names).diagnostics, dir[k].name) == NoteDiagnostics(dir[k], names)
    decreases |dir|
  {
    var init := dir[..|dir| - 1];
    var n := dir[|dir| - 1];
    var prev := BuildFrom(init, names).diagnostics;
    var mine := NoteDiagnostics(n, names);
    assert BuildFrom(dir, names).diagnostics == prev + mine;
    DiagnosticsAboutAppend(prev, mine, dir[k].name);
    NamesSplit(dir);
    NoteDiagnosticsSource(n, names);
    if k == |dir| - 1 {
      DiagnosticsAboutNone(prev, n.name);
      DiagnosticsAboutAll(mine, n.name);
    } else {
      assert Names(dir)[k] != Names(dir)[|dir| - 1];
      DiagnosticsAboutNone(mine, dir[k].name);
      DiagnosticsPerNote(init, names, k);
      assert init[k] == dir[k];
    }
  }

  /** The messages of every note of `dir`, note after note in listing
      order, each note's messages in the order it produced them. */
  function MessagesInOrder(dir: seq<Note>, names: seq<string>): seq<Diagnostic>
    decreases |dir|
  {
    if |dir| == 0 then []
    else NoteDiagnostics(dir[0], names) + MessagesInOrder(dir[1..], names)
  }

  lemma {:induction false} MessagesInOrderAppend(init: seq<Note>, n: Note, names: seq<string>)
    ensures MessagesInOrder(init + [n], names) == MessagesInOrder(init, names) + NoteDiagnostics(n, names)
    decreases |init|
  {
    if |init| == 0 {
      assert MessagesInOrder([n], names) == NoteDiagnostics(n, names) + MessagesInOrder([], names);
    } else {
      assert (init + [n])[1..] == init[1..] + [n];
      assert (init + [n])[0] == init[0];
      MessagesInOrderAppend(init[1..], n, names);
    }
  }

  /** The build emits the messages note by note in listing order: all
      messages about an earlier file come before those about a later one. */
  lemma {:induction false} BuildMessagesInOrder(dir: seq<Note>, names: seq<string>)
    ensures BuildFrom(dir, names).diagnostics == MessagesInOrder(dir, names)
    decreases |dir|
  {
    if |dir| > 0 {
      var init := dir[..|dir| - 1];
      var n := dir[|dir| - 1];
      BuildMessagesInOrder(init, names);
      assert BuildFrom(dir, names).diagnostics == BuildFrom(init, names).diagnostics + NoteDiagnostics(n, names);
      MessagesInOrderAppend(init, n, names);
      SplitLast(dir);
    }
  }

  /** An undecodable file stays a node, gets one "Skipping" message and no
      other message, and has no outgoing edge. */
  lemma UndecodableNote(dir: seq<Note>, k: nat)
    requires Distinct(Names(dir)) && k < |dir| && dir[k].content.Undecodable?
    ensures var b := GetDigraph(dir);
      && dir[k].name in b.graph.nodes
      && DiagnosticsAbout(b.diagnostics, dir[k].name) == [SkippingUndecodable(dir[k].name, dir[k].content.detail)]
      && forall v :: (dir[k].name, v) !in b.graph.edges
  {
    var b := GetDigraph(dir);
    DiagnosticsPerNote(dir, Names(dir), k);
    assert Names(dir)[k] == dir[k].name;
    assert dir[k].name in Elements(b.graph.nodes);
    forall j | 0 <= j < |dir| && dir[j].name == dir[k].name
      ensures j == k
    {
      assert Names(dir)[j] == Names(dir)[k];
    }
  }

  /** A token whose only match is the note containing it adds no edge and
      no message. */
  lemma SelfReferenceIsSilent(token: string, names: seq<string>, g: Graph, source: string)
    requires Distinct(names) && UniquelyMatches(token, names, source) && source in g.nodes
    ensures ResolveOne(token, names, source) == Extraction([source], [])
    ensures AddEdges(g, source, ResolveOne(token, names, source).targets) == g
  {
    ResolveSpec(token, names);
  }
}
