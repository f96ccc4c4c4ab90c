/** The read-only questions `vizel/cli.py` asks of the reference graph:
    node degrees, the notes without any reference (`unconnected`), and the
    counts printed by `stats`, including the number of connected
    components of the undirected view of the graph. */
module Analysis {
  import opened Basics
  import opened ZettelGraph

  /** Every edge joins two nodes, as in any networkx graph. */
  ghost predicate EndpointsAreNodes(g: Graph) {
    forall u, v :: (u, v) in g.edges ==> u in g.nodes && v in g.nodes
  }

  lemma DigraphIsWellFormed(dir: seq<Note>)
    ensures EndpointsAreNodes(GetDigraph(dir).graph)
  {
    var g := GetDigraph(dir).graph;
    forall u, v | (u, v) in g.edges
      ensures u in g.nodes && v in g.nodes
    {
      assert u in Elements(Names(dir)) && v in Elements(Names(dir));
    }
  }

  function OutEdges(g: Graph, n: string): set<(string, string)> {
    set e | e in g.edges && e.0 == n
  }

  function InEdges(g: Graph, n: string): set<(string, string)> {
    set e | e in g.edges && e.1 == n
  }

  /** `DiGraph.degree`: in-degree plus out-degree (a loop counts twice). */
  function Degree(g: Graph, n: string): nat {
    |OutEdges(g, n)| + |InEdges(g, n)|
  }

  /** No reference leads from or to `n`. */
  ghost predicate Isolated(g: Graph, n: string) {
    forall m :: (n, m) !in g.edges && (m, n) !in g.edges
  }

  lemma DegreeZeroIffIsolated(g: Graph, n: string)
    ensures Degree(g, n) == 0 <==> Isolated(g, n)
  {
    if Degree(g, n) == 0 {
      forall m
        ensures (n, m) !in g.edges && (m, n) !in g.edges
      {
        assert (n, m) in g.edges ==> (n, m) in OutEdges(g, n);
        assert (m, n) in g.edges ==> (m, n) in InEdges(g, n);
      }
    }
    assert forall e :: e in OutEdges(g, n) ==> (n, e.1) in g.edges;
    assert forall e :: e in InEdges(g, n) ==> (e.0, n) in g.edges;
  }

  /** The entries of `ns` whose degree is zero, in the order of `ns`. */
  function ZeroDegreeAmong(g: Graph, ns: seq<string>): (r: seq<string>)
    ensures forall x :: x in r <==> x in ns && Degree(g, x) == 0
    ensures |r| <= |ns|
    ensures Distinct(ns) ==> Distinct(r)
    decreases |ns|
  {
    if |ns| == 0 then []
    else
      var rest := ZeroDegreeAmong(g, ns[1..]);
      assert Distinct(ns) ==> Distinct(ns[1..]);
      (if Degree(g, ns[0]) == 0 then [ns[0]] else []) + rest
  }

  /** `_get_zero_degree_nodes`: the nodes of degree zero, in node order. */
  function ZeroDegreeNodes(g: Graph): seq<string> {
    ZeroDegreeAmong(g, g.nodes)
  }

  /** The zero-degree nodes are exactly the isolated nodes, each once when
      the nodes are. */
  lemma ZeroDegreeNodesSpec(g: Graph)
    ensures forall x :: x in ZeroDegreeNodes(g) <==> x in g.nodes && Isolated(g, x)
    ensures Distinct(g.nodes) ==> Distinct(ZeroDegreeNodes(g))
  {
    forall x
      ensures x in ZeroDegreeNodes(g) <==> x in g.nodes && Isolated(g, x)
    {
      DegreeZeroIffIsolated(g, x);
    }
  }

  /** The `unconnected` command: the zero-degree nodes, sorted. */
  function Unconnected(g: Graph): seq<string> {
    Sort(ZeroDegreeNodes(g))
  }

  /** `unconnected` prints every isolated note and nothing else, in
      ascending order, and each once when the nodes are distinct. */
  lemma UnconnectedSpec(g: Graph)
    ensures Sorted(Unconnected(g))
    ensures forall x :: x in Unconnected(g) <==> x in g.nodes && Isolated(g, x)
    ensures |Unconnected(g)| == |ZeroDegreeNodes(g)|
    ensures Distinct(g.nodes) ==> StrictlySorted(Unconnected(g))
  {
    var z := ZeroDegreeNodes(g);
    var u := Unconnected(g);
    ZeroDegreeNodesSpec(g);
    assert |u| == |multiset(u)| == |multiset(z)| == |z|;
    forall x
      ensures x in u <==> x in z
    {
      assert x in u <==> x in multiset(u);
      assert x in z <==> x in multiset(z);
    }
    if Distinct(g.nodes) {
      DistinctPermutation(z, u);
      SortedDistinctIsStrict(u);
    }
  }

  /** With distinct entries, each value occurs at most once. */
  lemma {:induction false} DistinctCount(s: seq<string>, x: string)
    requires Distinct(s)
    ensures multiset(s)[x] <= 1
    decreases |s|
  {
    if |s| > 0 {
      var init := s[..|s| - 1];
      assert s == init + [s[|s| - 1]];
      assert Distinct(init);
      DistinctCount(init, x);
      if x == s[|s| - 1] {
        assert x !in init;
      }
    }
  }

  /** A repeated value occurs at least twice. */
  lemma RepeatCount(s: seq<string>, i: nat, j: nat)
    requires i < j < |s| && s[i] == s[j]
    ensures multiset(s)[s[i]] >= 2
  {
    assert s == s[..j] + [s[j]] + s[j + 1..];
    assert s[i] == s[..j][i];
    assert s[i] in multiset(s[..j]);
  }

  /** A rearrangement of a list without repetition has none either. */
  lemma DistinctPermutation(a: seq<string>, b: seq<string>)
    requires Distinct(a) && multiset(a) == multiset(b)
    ensures Distinct(b)
  {
    forall i, j | 0 <= i < j < |b|
      ensures b[i] != b[j]
    {
      if b[i] == b[j] {
        RepeatCount(b, i, j);
        DistinctCount(a, b[i]);
      }
    }
  }

  lemma SortedDistinctIsStrict(s: seq<string>)
    requires Sorted(s) && Distinct(s)
    ensures StrictlySorted(s)
  {
    forall i, j | 0 <= i < j < |s|
      ensures Less(s[i], s[j])
    {
      LessTrichotomy(s[i], s[j]);
    }
  }

  // ---------------------------------------------------------------------
  // Connected components of the undirected view (`to_undirected`).

  predicate Adjacent(g: Graph, a: string, b: string) {
    (a, b) in g.edges || (b, a) in g.edges
  }

  /** A walk through nodes of `g` along edges taken in either direction. */
  ghost predicate IsWalk(g: Graph, w: seq<string>) {
    && |w| > 0
    && (forall i :: 0 <= i < |w| ==> w[i] in g.nodes)
    && (forall i :: 0 <= i < |w| - 1 ==> Adjacent(g, w[i], w[i + 1]))
  }

  ghost predicate Connected(g: Graph, a: string, b: string) {
    exists w :: IsWalk(g, w) && w[0] == a && w[|w| - 1] == b
  }

  lemma ConnectedReflexive(g: Graph, a: string)
    requires a in g.nodes
    ensures Connected(g, a, a)
  {
    assert IsWalk(g, [a]);
  }

  lemma ConnectedSymmetric(g: Graph, a: string, b: string)
    requires Connected(g, a, b)
    ensures Connected(g, b, a)
  {
    var w :| IsWalk(g, w) && w[0] == a && w[|w| - 1] == b;
    var r := seq(|w|, i requires 0 <= i < |w| => w[|w| - 1 - i]);
    forall i | 0 <= i < |r| - 1
      ensures Adjacent(g, r[i], r[i + 1])
    {
      assert Adjacent(g, w[|w| - 2 - i], w[|w| - 1 - i]);
    }
    assert IsWalk(g, r);
  }

  lemma ConnectedTransitive(g: Graph, a: string, b: string, c: string)
    requires Connected(g, a, b) && Connected(g, b, c)
    ensures Connected(g, a, c)
  {
    var w1 :| IsWalk(g, w1) && w1[0] == a && w1[|w1| - 1] == b;
    var w2 :| IsWalk(g, w2) && w2[0] == b && w2[|w2| - 1] == c;
    var w := w1 + w2[1..];
    forall i | 0 <= i < |w| - 1
      ensures Adjacent(g, w[i], w[i + 1])
    {
      if i < |w1| - 1 {
        assert w[i] == w1[i] && w[i + 1] == w1[i + 1];
      } else {
        assert w[i] == w2[i - |w1| + 1] && w[i + 1] == w2[i - |w1| + 2];
      }
    }
    assert IsWalk(g, w);
  }

  /** `S` together with every node adjacent to a member of `S`. */
  function Expand(g: Graph, S: set<string>): set<string> {
    S + (set e | e in g.edges && e.0 in S :: e.1) + (set e | e in g.edges && e.1 in S :: e.0)
  }

  lemma ExpandAdjacent(g: Graph, S: set<string>, a: string, b: string)
    requires a in S && Adjacent(g, a, b)
    ensures b in Expand(g, S)
  {
    if (a, b) in g.edges {
      assert (a, b).1 in (set e | e in g.edges && e.0 in S :: e.1);
    } else {
      assert (b, a).0 in (set e | e in g.edges && e.1 in S :: e.0);
    }
  }

  /** Everything reachable from `S`: `Expand` until nothing new is added. */
  function Reach(g: Graph, S: set<string>): (r: set<string>)
    requires EndpointsAreNodes(g) && S <= Elements(g.nodes)
    ensures S <= r <= Elements(g.nodes)
    ensures Expand(g, r) == r
    decreases |Elements(g.nodes) - S|
  {
    var T := Expand(g, S);
    if T == S then S
    else
      ExpandGrows(g, S);
      Reach(g, T)
  }

  /** `Expand` stays within the nodes, so a step that adds something brings
      the closure nearer. */
  lemma ExpandGrows(g: Graph, S: set<string>)
    requires EndpointsAreNodes(g) && S <= Elements(g.nodes)
    ensures Expand(g, S) <= Elements(g.nodes)
    ensures Expand(g, S) != S ==> |Elements(g.nodes) - Expand(g, S)| < |Elements(g.nodes) - S|
  {
    var T := Expand(g, S);
    forall x | x in T
      ensures x in Elements(g.nodes)
    {
      if x !in S {
        var e :| e in g.edges && ((e.0 in S && x == e.1) || (e.1 in S && x == e.0));
        assert (e.0, e.1) in g.edges;
      }
    }
    if T != S {
      ProperSubsetCard(Elements(g.nodes) - T, Elements(g.nodes) - S);
    }
  }

  /** One `Expand` step keeps everything connected to `a`. */
  lemma ExpandSound(g: Graph, S: set<string>, a: string)
    requires EndpointsAreNodes(g)
    requires forall x :: x in S ==> Connected(g, a, x)
    ensures forall x :: x in Expand(g, S) ==> Connected(g, a, x)
  {
    forall x | x in Expand(g, S) && x !in S
      ensures Connected(g, a, x)
    {
      var e :| e in g.edges && ((e.0 in S && x == e.1) || (e.1 in S && x == e.0));
      var y := if e.0 in S && x == e.1 then e.0 else e.1;
      ConnectedStep(g, a, y, x);
    }
  }

  lemma ConnectedStep(g: Graph, a: string, y: string, x: string)
    requires Connected(g, a, y) && Adjacent(g, y, x) && x in g.nodes
    ensures Connected(g, a, x)
  {
    ConnectedNode(g, a, y);
    assert IsWalk(g, [y, x]);
    ConnectedTransitive(g, a, y, x);
  }

  /** Every member of `Reach(g, S)` is connected to `a` when every member
      of `S` is. */
  lemma ReachSound(g: Graph, S: set<string>, a: string)
    requires EndpointsAreNodes(g) && S <= Elements(g.nodes)
    requires forall x :: x in S ==> Connected(g, a, x)
    ensures forall x :: x in Reach(g, S) ==> Connected(g, a, x)
    decreases |Elements(g.nodes) - S|
  {
    var T := Expand(g, S);
    if T != S {
      ExpandGrows(g, S);
      ExpandSound(g, S, a);
      ReachSound(g, T, a);
    }
  }

  lemma ConnectedNode(g: Graph, a: string, b: string)
    requires Connected(g, a, b)
    ensures b in g.nodes
  {
    var w :| IsWalk(g, w) && w[0] == a && w[|w| - 1] == b;
  }

  /** A set closed under `Expand` that holds the start of a walk holds the
      whole walk. */
  lemma {:induction false} ClosedHoldsWalk(g: Graph, R: set<string>, w: seq<string>, i: nat)
    requires Expand(g, R) == R && IsWalk(g, w) && w[0] in R && i < |w|
    ensures w[i] in R
  {
    if i > 0 {
      ClosedHoldsWalk(g, R, w, i - 1);
      ExpandAdjacent(g, R, w[i - 1], w[i]);
    }
  }

  /** The component of `a`: the nodes reachable from it. */
  function Component(g: Graph, a: string): set<string>
    requires EndpointsAreNodes(g) && a in g.nodes
  {
    Reach(g, {a})
  }

  /** The computed component is exactly the set of nodes connected to `a`. */
  lemma ComponentSpec(g: Graph, a: string)
    requires EndpointsAreNodes(g) && a in g.nodes
    ensures forall b :: b in Component(g, a) <==> Connected(g, a, b)
  {
    ConnectedReflexive(g, a);
    ReachSound(g, {a}, a);
    forall b | Connected(g, a, b)
      ensures b in Component(g, a)
    {
      var w :| IsWalk(g, w) && w[0] == a && w[|w| - 1] == b;
      ClosedHoldsWalk(g, Component(g, a), w, |w| - 1);
    }
  }

  /** Components partition the nodes: two nodes have the same component
      exactly when they are connected. */
  lemma ComponentsPartition(g: Graph, a: string, b: string)
    requires EndpointsAreNodes(g) && a in g.nodes && b in g.nodes
    ensures a in Component(g, a)
    ensures Component(g, a) == Component(g, b) <==> Connected(g, a, b)
  {
    ComponentSpec(g, a);
    ComponentSpec(g, b);
    ConnectedReflexive(g, a);
    ConnectedReflexive(g, b);
    if Connected(g, a, b) {
      ConnectedSymmetric(g, a, b);
      forall x
        ensures x in Component(g, a) <==> x in Component(g, b)
      {
        if Connected(g, a, x) {
          ConnectedTransitive(g, b, a, x);
        }
        if Connected(g, b, x) {
          ConnectedTransitive(g, a, b, x);
        }
      }
    }
  }

  /** `number_connected_components(digraph.to_undirected())`. */
  function ComponentCount(g: Graph): nat
    requires EndpointsAreNodes(g)
  {
    |set a | a in Elements(g.nodes) :: Component(g, a)|
  }

  /** An isolated node is a component of its own. */
  lemma IsolatedComponent(g: Graph, a: string)
    requires EndpointsAreNodes(g) && a in g.nodes && Isolated(g, a)
    ensures Component(g, a) == {a}
  {
    assert Expand(g, {a}) == {a};
  }

  lemma {:induction false} ImageBound(g: Graph, A: set<string>)
    requires EndpointsAreNodes(g) && A <= Elements(g.nodes)
    ensures |set a | a in A :: Component(g, a)| <= |A|
    decreases |A|
  {
    if A != {} {
      var x :| x in A;
      var A' := A - {x};
      ImageBound(g, A');
      assert (set a | a in A :: Component(g, a))
          == (set a | a in A' :: Component(g, a)) + {Component(g, x)};
    }
  }

  lemma {:induction false} SingletonsCard(A: set<string>)
    ensures |set a | a in A :: {a}| == |A|
    decreases |A|
  {
    if A != {} {
      var x :| x in A;
      var A' := A - {x};
      SingletonsCard(A');
      assert (set a | a in A :: {a}) == (set a | a in A' :: {a}) + {{x}};
      assert {x} !in (set a | a in A' :: {a});
    }
  }

  /** At most one component per node, and at least one when there is a
      node. */
  lemma ComponentCountUpper(g: Graph)
    requires EndpointsAreNodes(g)
    ensures ComponentCount(g) <= |Elements(g.nodes)|
    ensures |g.nodes| > 0 ==> ComponentCount(g) > 0
  {
    ImageBound(g, Elements(g.nodes));
    if |g.nodes| > 0 {
      var all := set a | a in Elements(g.nodes) :: Component(g, a);
      assert g.nodes[0] in Elements(g.nodes);
      assert Component(g, g.nodes[0]) in all;
      assert all != {};
    }
  }

  /** At least one component per isolated node. */
  lemma ComponentCountLower(g: Graph)
    requires EndpointsAreNodes(g)
    ensures |Elements(ZeroDegreeNodes(g))| <= ComponentCount(g)
  {
    var all := set a | a in Elements(g.nodes) :: Component(g, a);
    var iso := Elements(ZeroDegreeNodes(g));
    var singles := set a | a in iso :: {a};
    ZeroDegreeNodesSpec(g);
    SingletonsCard(iso);
    forall s | s in singles
      ensures s in all
    {
      var a :| a in iso && s == {a};
      IsolatedComponent(g, a);
    }
    SubsetCard(singles, all);
  }

  /** At least one component per isolated node, and at most one per node. */
  lemma ComponentCountBounds(g: Graph)
    requires EndpointsAreNodes(g)
    ensures |Elements(ZeroDegreeNodes(g))| <= ComponentCount(g) <= |Elements(g.nodes)|
    ensures |g.nodes| > 0 ==> ComponentCount(g) > 0
  {
    ComponentCountUpper(g);
    ComponentCountLower(g);
  }

  /** The four numbers printed by `stats`. */
  datatype Stats = Stats(zettel: nat, references: nat, unreferenced: nat, components: nat)

  function GraphStats(g: Graph): (st: Stats)
    requires EndpointsAreNodes(g)
  {
    Stats(|g.nodes|, |g.edges|, |ZeroDegreeNodes(g)|, ComponentCount(g))
  }

  /** For a directory of distinctly named notes: one Zettel per file, no
      more unreferenced notes than Zettel, and between that many and one
      component per Zettel. */
  lemma StatsOfDirectory(dir: seq<Note>)
    requires Distinct(Names(dir))
    ensures EndpointsAreNodes(GetDigraph(dir).graph)
    ensures var st := GraphStats(GetDigraph(dir).graph);
      && st.zettel == |dir|
      && st.unreferenced <= st.components <= st.zettel
      && (|dir| > 0 ==> st.components > 0)
  {
    var g := GetDigraph(dir).graph;
    DigraphIsWellFormed(dir);
    ComponentCountBounds(g);
    ZeroDegreeNodesSpec(g);
    ElementsCard(g.nodes);
    ElementsCard(ZeroDegreeNodes(g));
  }
}
