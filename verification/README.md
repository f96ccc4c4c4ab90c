# vizel reference graph, modelled in Dafny

vizel reads a directory of Zettelkasten notes ("Zettel") and builds a directed
graph of the references between them. `vizel/cli.py` works with file names:

- Each note is scanned for `[[token]]` links and for markdown links
  `[caption](target)`.
- Each token is matched by prefix against the sorted file names of the
  directory.
  - A token that exactly one file name starts with becomes an edge to that
    file, unless the file is the note itself.
  - A token that no file name starts with gives a "No matching Zettel"
    message.
  - A token that several file names start with gives a "non-unique" message.
- A note that cannot be decoded stays a node and gets a "Skipping" message.

The `stats`, `unconnected` and `graph-pdf` commands then query the graph:

- the number of nodes and edges;
- the notes of degree zero;
- the number of connected components of the undirected view;
- a caption per note made from its file name;
- the output name of the PDF.

The older `vizel/vizel.py` builds the same kind of graph with different keys:

- A node is a twelve-character ID taken from the file name, or `None`.
- References are `[[ID]]` links.
- Targets that no file carries still become nodes.
- Self-references stay as loops.
- A decoding error ends the whole build.

The model's input is a listing of notes, each a file name and either the
note's text or a decoding failure. The listing is taken in the order the
program iterates it, which is sorted for `vizel/cli.py`. Diagnostics are
returned as data rather than echoed.

Modules:

- `Basics` (`basics.dfy`) holds the shared vocabulary:
  - `Option` and `Result`;
  - Python's `startswith` and `endswith`;
  - code-point string order and `sorted`;
  - networkx's insertion-ordered `add_node`.
- `Scanner` (`scanner.dfy`) holds hand-written scanners for the three regular
  expressions and a declarative definition of `re.findall` (`IsFindAll`). The
  scanners are proved to meet that definition, and the answer is proved to be
  unique.
- `Resolver` (`resolver.dfy`) covers prefix resolution, `_extract_valid_references` and
  `_load_references`.
- `ZettelGraph` (`graph.dfy`) covers `_get_digraph`.
- `Analysis` (`analysis.dfy`) covers:
  - degrees and `_get_zero_degree_nodes`;
  - the sorted `unconnected` output;
  - connected components as closures under undirected adjacency, proved equal
    to walk-connectivity;
  - the `stats` numbers.
- `Labels` (`labels.dfy`) covers `_get_short_description` and the `.pdf`
  stripping. It models `str.replace` and `str.rpartition`, and relates
  `replace` to an independent `split`/`join` definition.
- `IdVariant` (`idgraph.dfy`) covers `load_references`, `get_zettel_id` and
  `get_digraph` of `vizel/vizel.py`.

Where the code and its documentation disagree, the model follows the code:

- The edges form a set. Repeated references give one edge. This is because
  `DiGraph.add_edge` is idempotent, although the `stats` docstring speaks of
  counting duplicates.
- The short description is not cut to 50 characters.
- `vizel/cli.py` has no `components` command and no quiet option, so neither is
  modelled. The component count is the number of undirected reachability
  classes.

## Model

| member | source | states |
|---|---|---|
| Basics.Sort | vizel/cli.py:215 | `sorted`: the result is ascending in Python's string order and is a permutation (same multiset) of the input |
| Basics.AddNode | vizel/cli.py:118 | `add_node` on an insertion-ordered node list keeps the old nodes in place, adds at most one node, makes `v` a node, and keeps the nodes free of repetition |
| Scanner.WikiAt | vizel/cli.py:73 | at a position, the bracket pattern yields a hit exactly when it matches there, and the hit is that match: `[[`, a non-empty run without `]`, then `]]` |
| Scanner.MarkdownAt | vizel/cli.py:77 | at a position, the markdown pattern yields a hit exactly when `[caption](target)` matches there; the token is the target |
| Scanner.IdAt | vizel/vizel.py:16 | at a position, the ID-link pattern yields a hit exactly when `[[`, twelve word characters and `]]` stand there |
| Scanner.MatchUnique | vizel/cli.py:71-77 | each pattern matches in at most one way at a given position (same end, same group) |
| Scanner.ScanFromSpec | vizel/cli.py:36 | the scanner's hit list meets the findall definition from every start: leftmost match first, resume after it, no match skipped |
| Scanner.FindAllUnique | vizel/cli.py:36 | two hit lists that both meet the findall definition are equal, so `re.findall` has one answer |
| Scanner.FindAllIsDetermined | vizel/cli.py:36 | any hit list meeting the findall definition has exactly the scanner's tokens |
| Scanner.FindAllOrdered | vizel/cli.py:36 | the hits of a findall answer are matches inside the text, in text order and without overlap |
| Scanner.FindAllSpec | vizel/cli.py:71-79 | the returned tokens are the groups of a findall answer; bracket tokens are non-empty without `]`, markdown targets non-empty without `)` |
| Resolver.Candidates | vizel/cli.py:38-41 | a file name is a candidate exactly when it is listed and starts with the token |
| Resolver.CandidatesOrder | vizel/cli.py:38-41 | candidates keep listing order: none repeated from a listing without repetition, ascending from an ascending listing |
| Resolver.ResolveSpec | vizel/cli.py:43-55 | one candidate means that file name is the unique prefix match (and every unique match resolves when names are distinct); none means no name starts with the token; several means all of them are kept, ascending for a sorted listing |
| Resolver.ReferenceIffUniqueMatch | vizel/cli.py:37-44 | a token adds a reference exactly when one listed name starts with it, and then adds exactly that name and no message |
| Resolver.FailedTokenDiagnostics | vizel/cli.py:45-55 | no match gives one "No matching Zettel" message and no reference; two or more give one "non-unique" message listing every match ascending, the note's own name included |
| Resolver.ResolveTokensSpec | vizel/cli.py:36-56 | each token yields one reference or one message; every reference is some token's unique match and every unique match is referenced; every message is about one of the tokens and reports a real failure |
| Resolver.ResolveTokensAppend | vizel/cli.py:37-55 | the token loop keeps order: resolving a concatenation concatenates references and messages |
| Resolver.LoadReferences | vizel/cli.py:59-79 | every reference of a note is a listed file name and every message is about that note, never a "Skipping" message |
| Resolver.LoadReferencesIsOnePass | vizel/cli.py:71-79 | the two passes equal one pass over the bracket tokens followed by the markdown targets, so bracket results precede markdown results |
| ZettelGraph.AddEdges | vizel/cli.py:121-123 | the edge set grows by exactly the pairs from the note to each target other than itself; the node set grows by those targets; the nodes stay free of repetition |
| ZettelGraph.RepeatedTargetsAddNothing | vizel/cli.py:121-123 | adding the same targets of a note again leaves nodes, node order and edges unchanged |
| ZettelGraph.BuildFrom | vizel/cli.py:113-125 | the loop's graph has distinct nodes that include every listed name and only resolvable names; an edge exists exactly where a note references another file; every message is about a listed note |
| ZettelGraph.GetDigraph | vizel/cli.py:103-126 | the nodes are exactly the listed file names, each once (one per file when names are distinct); edges are exactly the references between different notes and join two listed names |
| ZettelGraph.DiagnosticsPerNote | vizel/cli.py:113-125 | with distinct names, the messages about a note are exactly, in order, the ones its own processing produced |
| ZettelGraph.BuildMessagesInOrder | vizel/cli.py:113-125 | the messages come note by note in listing order, each note's own messages in the order it produced them, equal to an independent front-to-back concatenation |
| ZettelGraph.UndecodableNote | vizel/cli.py:118-125 | an undecodable file is still a node, gets exactly one "Skipping" message with the decoding detail, and has no outgoing edge |
| ZettelGraph.SelfReferenceIsSilent | vizel/cli.py:122 | a token whose only match is the note itself adds neither an edge nor a message |
| Analysis.DigraphIsWellFormed | vizel/cli.py:111-123 | every edge of the built graph joins two of its nodes |
| Analysis.DegreeZeroIffIsolated | vizel/cli.py:137 | a node has degree zero exactly when no edge leads from or to it |
| Analysis.ZeroDegreeAmong | vizel/cli.py:137 | the filter keeps exactly the entries of degree zero and repeats none when the input repeats none |
| Analysis.ZeroDegreeNodesSpec | vizel/cli.py:129-137 | the zero-degree nodes are exactly the isolated nodes, each once when the nodes are |
| Analysis.UnconnectedSpec | vizel/cli.py:211-216 | `unconnected` prints every isolated note and nothing else, ascending, each once for distinct nodes |
| Analysis.Reach | vizel/cli.py:196 | the closure contains its start, stays within the nodes and is closed under undirected adjacency |
| Analysis.ComponentSpec | vizel/cli.py:196 | the component of a node is exactly the set of nodes joined to it by an undirected walk |
| Analysis.ComponentsPartition | vizel/cli.py:196 | each node lies in its own component, and two nodes share a component exactly when they are connected |
| Analysis.ComponentCountBounds | vizel/cli.py:196 | there are at least as many components as isolated nodes, at most one per node, and at least one for a non-empty graph |
| Analysis.StatsOfDirectory | vizel/cli.py:188-196 | for distinctly named files: one Zettel per file, no more isolated Zettel than components, no more components than Zettel, and some component when there is a file |
| Labels.ReplaceIsSplitJoin | vizel/cli.py:94-98 | the one-pass `replace` equals joining the `split` pieces with the replacement |
| Labels.ReplaceChar | vizel/cli.py:94-95 | replacing a character changes exactly the positions holding it and keeps the length |
| Labels.RemoveShrinks | vizel/cli.py:97-98 | removing a pattern only deletes characters: the result is a subsequence of the input (so no longer, and made of its characters) |
| Labels.ShortDescriptionSpec | vizel/cli.py:82-100 | the caption has no `_` or `-`, is no longer than the name, keeps only the name's characters and spaces, and equals a name with none of the four patterns |
| Labels.ExtensionCanSurvive | vizel/cli.py:97-98 | one `replace` pass can leave an extension: the caption of `..mdmd` is `.md` |
| Labels.RPartitionHead | vizel/cli.py:166 | `rpartition(sep)[0]` is the prefix of the string before the last occurrence of `sep`, or the empty string when `sep` does not occur |
| Labels.PdfRenderName | vizel/cli.py:164-166 | a name ending in `.pdf` becomes the name without it (the result plus `.pdf` is the name); any other name is unchanged |
| IdVariant.LoadIdReferencesSpec | vizel/vizel.py:9-16 | the IDs are the groups of a findall answer for `[[ID]]`, in text order, each twelve word characters |
| IdVariant.SingleIdLink | vizel/vizel.py:16 | a text that is one `[[ID]]` link references exactly that ID |
| IdVariant.MdAheadSpec | vizel/vizel.py:25 | the forward scan finds `.md` exactly when `.*\.md` matches from that point (no line break before the `.md`) |
| IdVariant.SearchId | vizel/vizel.py:25 | the search returns the leftmost position where the pattern matches, or none when it matches nowhere |
| IdVariant.GetZettelId | vizel/vizel.py:19-30 | a found ID has twelve word characters |
| IdVariant.GetZettelIdSpec | vizel/vizel.py:25-30 | the ID is `None` exactly when the pattern matches nowhere; otherwise it is the group of the leftmost match |
| IdVariant.IdOfPlainName | vizel/vizel.py:25-28 | a name made of an ID, a line without breaks and `.md` has that ID |
| IdVariant.AddIdEdges | vizel/vizel.py:52-53 | an edge to every referenced ID, self included, and every referenced ID becomes a node |
| IdVariant.RepeatedReferencesAddNothing | vizel/vizel.py:52-53 | adding the same references again changes nothing: repeated references give one edge |
| IdVariant.AddNote | vizel/vizel.py:45-53 | a readable note adds its own ID and its referenced IDs as nodes and one edge from its ID to each referenced ID |
| IdVariant.IdDigraphOutcome | vizel/vizel.py:44-53 | the build fails exactly when some file cannot be decoded |
| IdVariant.IdDigraphFailure | vizel/vizel.py:44-50 | a failed build reports the decoding error of the first undecodable file |
| IdVariant.IdDigraphSuccess | vizel/vizel.py:33-55 | a successful build's nodes are exactly every file's ID plus every referenced ID; its edges are exactly the pairs where a file with that ID references that ID |
| IdVariant.SelfReferenceLoop | vizel/vizel.py:52-53 | a note that references its own ID gets a loop |
| IdVariant.IdNodesCollapse | vizel/vizel.py:44-47 | every file's ID is a node, so files with equal IDs (or none) share one node; there are at most as many nodes as files plus referenced IDs |

## Left out

- Click plumbing (`main`, argument checks, exit codes, `click.echo`): diagnostics are returned as data, and the message wording is represented by the `Diagnostic` constructors, not by strings.
- Directory listing with `glob` and its `sorted`: the model takes the listing as input, in the order the program iterates it. The pattern `*[.md|.txt]` is a character class, not an extension filter, and nothing here claims it filters by extension.
- File reading and decoding, including the Python 2 `unicode` branch: a note's content is its text or a decoding failure with its detail.
- Rendering with graphviz (`graph_pdf`, `draw_digraph`, `generate_graph`): an external library. Only the output-name computation is modelled.
- networkx internals: replaced by an insertion-ordered node list, an edge set and a reachability definition of components.
- Node attributes `short_description` and `path`: the caption function is modelled on its own, and the attributes only feed rendering.
- The `components` command: it is not in `vizel/cli.py`, so its output format and the ordering of components are not modelled.
- `\w` is approximated by the ASCII word characters `[A-Za-z0-9_]` rather than Unicode word characters.
- IdVariant.IdGraph: the nodes are a set. Within `vizel/vizel.py` only `draw_digraph`, which is left out, iterates them in insertion order. The order in which `Path.glob` yields files is taken as given.
- ZettelGraph.GetDigraph: resolves against the names of the listing it is given. That the listing is sorted is assumed by the callers, not checked.
- Analysis.StatsOfDirectory: does not restate the reference count, which is the size of the edge set characterised by `ZettelGraph.GetDigraph`.
- Labels.ShortDescriptionSpec: states no 50-character bound, because the code never truncates. It does not claim the caption is extension-free, because `Labels.ExtensionCanSurvive` shows it need not be.
