# The Handmaid's Tale Explorer: Character Web and Tension Chart, modelled in Dafny

The explorer is a one-page Streamlit dashboard in `app.py`. This project models the
two parts of it that compute something.

**Character Web.** A fixed ledger of `(chapter label, characters)` records is folded
into a `networkx.Graph`. For every pair of positions `i < j` in a record, the code
adds an edge between the characters at those two positions. The graph is then flattened into
the lists the scatter traces are drawn from:

- `edge_x` and `edge_y` take both endpoints of every edge of `list(G.edges())`;
- `node_x` and `node_y` take every node of `G.nodes()`, in order;
- one text trace per node carries its name.

**Tension Graph.** Each `(chapter, tension)` pair becomes a data-frame row labelled
`'Chapter ' + str(chapter)`. The label is looked up in `event_map`. Every row whose
lookup found an event gets one annotation at `(label, tension)` carrying the event's
text.

Modules:

- `NxGraph` (`nx_graph.dfy`) models the part of `networkx.Graph` the view uses. A
  `Snapshot` value holds node insertion order and, for each node, its neighbours in
  insertion order, which is what adjacency dicts keep. `Snapshot.AddEdge` is
  `add_edge`. `Snapshot.EdgeView` is the iteration order of `G.edges()`: walk the nodes
  in order and report `(n, nbr)` for each neighbour not walked yet. `Replay` applies a
  sequence of `add_edge` calls to the empty graph. The abstract edge set is a set of
  `{u, v}` sets. The `Graph` class holds the same fields, mutated in place by its
  `AddEdge` method, together with a ghost history of the calls made on it.
- `CharacterWeb` (`character_web.dfy`) models the ledger and the order in which the
  nested loops call `add_edge`. The builder is written as methods with loops, so is
  the flattening. The module also holds the lemmas about the graph any ledger
  produces.
- `ShownLedger` (`shown_ledger.dfy`) computes the graph for the ledger the view
  actually shows. The result is five nodes in first-seen order and five edges in
  `G.edges()` order.
- `TensionChart` (`tension_chart.dfy`) models `str()` of an integer, the label and
  event columns, and the annotation loop. It proves which rows are annotated.

The code does two things one might not expect of a co-occurrence graph, and the
model does what the code does:

- Not every character in the ledger becomes a node. A node exists only once
  `add_edge` has been called on it, so a record with fewer than two characters adds
  nothing (`ShortRecordAddsNothing`, `LoneCharacterMakesNoNode`).
- Nothing prevents a self-loop. A character listed twice in one record makes the edge
  `{x}` (`RepeatedCharacterMakesSelfLoop`). Edges have two distinct ends only when no
  record repeats a character (`NoSelfLoops`). The shown ledger repeats no one.

## Model

| member | source | states |
|---|---|---|
| NxGraph.Snapshot.AddEdge | app.py:236 | `add_edge(u, v)` on a graph value: insert `u`, then `v`, as nodes, then add each to the other's neighbour list; what it does is stated by AddEdgeKeepsValid, AddEdgeEdges, AddEdgeNeighbours and AddEdgeExisting below |
| NxGraph.Snapshot.EdgeView | app.py:242 | the order of `list(G.edges())`: walk the nodes in order, reporting each neighbour not yet walked; stated by EdgeViewListsEachEdgeOnce below |
| NxGraph.Replay | app.py:230-236 | the graph a sequence of add_edge calls builds from `nx.Graph()`; stated by ReplayValid, ReplayEdges, ReplayNodes and ReplayNeighbours below |
| NxGraph.Graph.constructor | app.py:230 | `nx.Graph()` starts with no nodes, no adjacency and no calls made |
| NxGraph.Graph.AddEdge | app.py:236 | the call is recorded; the new state is the old one with `u`, then `v`, appended as nodes if new and each added to the other's neighbour list; the graph remains the replay of its calls |
| NxGraph.AddEdgeKeepsValid | app.py:236 | add_edge keeps the adjacency keyed by exactly the nodes, symmetric and without duplicate neighbours; the node list becomes the old list with `u` and then `v` inserted if absent |
| NxGraph.AddEdgeEdges | app.py:236 | add_edge(u, v) adds exactly the edge {u, v} to the edge set |
| NxGraph.AddEdgeAdjacency | app.py:236 | after add_edge(u, v), y is a neighbour of x iff it was before or {x, y} is {u, v} |
| NxGraph.AddEdgeNeighbours | app.py:236 | add_edge appends v to u's neighbour list and u to v's, only where absent, leaving every other list alone |
| NxGraph.AddEdgeExisting | app.py:236 | add_edge on an edge already present leaves the graph unchanged (idempotent re-add) |
| NxGraph.AddEdgeThenReverse | app.py:236 | add_edge(b, a) after add_edge(a, b) changes nothing |
| NxGraph.AddEdgeSameEdge | app.py:236 | add_edge(a, b) and add_edge(b, a) give the same edge set (undirected) |
| NxGraph.ReplayValid | app.py:233-236 | any sequence of add_edge calls on an empty graph yields a well-formed graph |
| NxGraph.ReplayEdges | app.py:233-236 | the edge set after a sequence of calls is exactly the set of {u, v} of the calls |
| NxGraph.ReplayNodes | app.py:233-236 | the node order after a sequence of calls is the first-seen order of the endpoints u, v of the calls |
| NxGraph.ReplayNeighbours | app.py:233-236 | each node's neighbour list is the first-seen order of its partners in the calls |
| NxGraph.FirstSeenIsDedup | app.py:233-236 | first-seen order lists each element once and nothing else |
| NxGraph.FirstSeenOrder | app.py:233-236 | a newly seen element comes after everything seen before it |
| NxGraph.EdgeViewListsEachEdgeOnce | app.py:242 | `list(G.edges())` lists every edge of the graph exactly once, with both ends nodes, so its length is the number of edges |
| CharacterWeb.Calls | app.py:233-236 | the add_edge calls of the three loops, record by record; stated by CallsMembers and InteractionCalls, and the builder is proved to make them |
| CharacterWeb.RecordCalls | app.py:234-236 | the calls of the two inner loops for one record; stated by RecordCallsMembers, PairRecordCalls and TripleRecordCalls |
| CharacterWeb.Web | app.py:230-236 | the graph the view builds from a ledger, the replay of its calls; stated by WebEdgesAreCoOccurrences, WebNodes and InteractionWeb |
| CharacterWeb.BuildCharacterWeb | app.py:230-236 | the builder makes exactly the add_edge calls `Calls(interactions)`, in loop order, and its graph is their replay |
| CharacterWeb.AddRecord | app.py:234-236 | the two inner loops for one record make the calls `RecordCalls(characters)` |
| CharacterWeb.AddRow | app.py:235-236 | the innermost loop makes add_edge(c[i], c[j]) for j = i+1 up to the end |
| CharacterWeb.RecordCallsMembers | app.py:234-236 | a record's calls are exactly the pairs (c[a], c[b]) with a < b |
| CharacterWeb.CallsMembers | app.py:233-236 | the ledger's calls are exactly the pairs of positions a < b of some record |
| CharacterWeb.WebEdgesAreCoOccurrences | app.py:233-236 | the edge set is exactly the sets {c[a], c[b]}, a < b, of co-occurring characters of some record |
| CharacterWeb.WebNodes | app.py:233-236 | the nodes are distinct and are exactly the characters of records with at least two characters |
| CharacterWeb.ShortRecordAddsNothing | app.py:234-236 | a record with fewer than two characters changes neither nodes nor edges |
| CharacterWeb.LoneCharacterMakesNoNode | app.py:234-236 | a ledger of one single-character record builds the empty graph |
| CharacterWeb.NoSelfLoops | app.py:233-236 | when no record repeats a character, every edge has two distinct ends |
| CharacterWeb.RepeatedCharacterMakesSelfLoop | app.py:234-236 | a record listing x twice makes the self-loop {x} and the single node x |
| CharacterWeb.PairRecordCalls | app.py:234-236 | a two-character record makes the one call (a, b) |
| CharacterWeb.TripleRecordCalls | app.py:234-236 | a three-character record makes (a, b), (a, d), (b, d) in that order |
| CharacterWeb.EdgeCoordinates | app.py:245-251 | edge_x and edge_y have two entries per edge; entries 2k and 2k+1 are the coordinates of edge k's first and second end |
| CharacterWeb.NodeCoordinates | app.py:254-259 | node_x and node_y have one entry per node; entry i is the coordinate of node i |
| CharacterWeb.NodeLabels | app.py:272-274 | one text trace per node, in node order, at its position, carrying its name |
| CharacterWeb.PlotCoordinates | app.py:242-274 | the flattened lists for a built graph: 2·(number of edges) edge coordinates in `G.edges()` order (lines 242-251), one node coordinate per node in node order (lines 254-259) and one label per node in node order (lines 272-274) |
| ShownLedger.InteractionCalls | app.py:221-236 | the shown ledger makes the seven calls (O,C), (O,S), (O,M), (O,F), (O,C), (O,S), (C,S) in that order |
| ShownLedger.ShownWeb | app.py:233-242 | for any five distinct names, those seven calls give five nodes in first-seen order, five edges, and `G.edges()` lists them as (O,C), (O,S), (O,M), (O,F), (C,S) |
| ShownLedger.InteractionWeb | app.py:221-242 | the shown graph has nodes Offred, The Commander, Serina Joy, Moira, Ofglen in that order and exactly 5 edges, listed in that order |
| TensionChart.DecimalString | app.py:19 | `str()` of a non-negative integer is a non-empty run of digits, one digit long exactly for numbers below ten; DecimalStringCanonical and DecimalRoundTrip pin it down further |
| TensionChart.DecimalStringCanonical | app.py:19 | `str()` writes no leading zero: only 0 is written starting with '0' |
| TensionChart.IntString | app.py:19 | `str()` of an integer is non-empty and starts with '-' exactly for a negative one; IntRoundTrip states that it can be read back and IntStringCanonical that it has no leading zero |
| TensionChart.IntStringCanonical | app.py:19 | `str()` of a negative integer writes no leading zero after the '-' |
| TensionChart.ChapterLabel | app.py:19 | the 'Label' column 'Chapter ' + str(n); ChapterLabelInjective and LabelHasEvent state its properties |
| TensionChart.DecimalRoundTrip | app.py:19 | reading the digits of `str(n)` back gives n |
| TensionChart.IntRoundTrip | app.py:19 | reading `str(n)` back, sign included, gives n |
| TensionChart.ChapterLabelInjective | app.py:19 | different chapter numbers get different labels |
| TensionChart.Frame | app.py:18-28 | the data frame has one row per (chapter, tension) pair, in pair order; FrameEvent states which rows carry an event and which event |
| TensionChart.RowOf | app.py:18-28 | the row of one pair: chapter, tension, label and the looked-up event; FrameEvent and LabelHasEvent state that the event is present iff the chapter is 1 to 5, and is then the map's text for the label |
| TensionChart.FrameEvent | app.py:19-28 | row i has an event exactly when its chapter is 1 to 5, and that event is the map's text for its label |
| TensionChart.LabelHasEvent | app.py:19-28 | a chapter's label is a key of the event map iff the chapter is 1 to 5 |
| TensionChart.Annotations | app.py:45-50 | the annotations the loop adds, in order; stated by AnnotationPerEventRow, AnnotationsMembers and AnnotationsAppend |
| TensionChart.EventRowsAreTheMatches | app.py:45-46 | the rows with an event, listed once each in increasing order |
| TensionChart.AnnotationPerEventRow | app.py:45-50 | there is exactly one annotation per row with an event, and annotation k is at the label and tension of the k-th such row with its event text |
| TensionChart.AnnotationsMembers | app.py:45-50 | an annotation is drawn iff some row has an event and it is that row's note |
| TensionChart.AnnotationsAppend | app.py:45-50 | the loop keeps row order: the annotations of two runs of rows are those of the first, then those of the second |
| TensionChart.ShownAnnotations | app.py:13-50 | the chart shows five annotations, for chapters 1 to 5 with tensions 5, 6, 6, 8, 7 and their event texts, in chapter order |

## Left out

- `nx.spring_layout` (app.py:239): the positions are an input map with one coordinate pair per node. The coordinate type is left generic, so no floating point is modelled.
- Building the Plotly figure, trace styling, hover templates, the layout update and `st.plotly_chart`: these are calls into rendering libraries.
- The Streamlit page selection, titles and markdown: these are UI wiring.
- The Metaphors, Similes, Heatmap (`pivot_table`) and Character views: these are outside the modelled core, along with their quote and arc dictionaries.
- Edge attribute dictionaries of `networkx`: `add_edge` is called without attributes, so only which neighbours exist and their order are modelled.
- The annotation styling arguments (arrow, font, colours, opacity): only the point and the text of each annotation are modelled.
- TensionChart.Annotations: the `for` loop that calls `fig.add_annotation` is modelled as a function giving the list of annotations added in order. The figure object it mutates is not modelled.
- TensionChart.Frame: the pandas data frame is modelled as a sequence of rows. A NaN event is `None`.
