/**
  The Character Web view: a ledger of (chapter, participants) records is folded
  into a networkx Graph by calling add_edge on every pair of positions i < j of
  each record, and the graph is flattened into the coordinate lists the scatter
  traces are drawn from.
*/
module CharacterWeb {
  import opened NxGraph

  /** One entry of the interaction ledger: a chapter label and the characters in it. */
  datatype Record = Record(chapter: string, characters: seq<Node>)

  /** The ledger the view draws. */
  const Interactions: seq<Record> := [
    Record("Chapter 1", ["Offred", "The Commander"]),
    Record("Chapter 2", ["Offred", "Serina Joy"]),
    Record("Chapter 3", ["Offred", "Moira"]),
    Record("Chapter 4", ["Offred", "Ofglen"]),
    Record("Chapter 5", ["Offred", "The Commander", "Serina Joy"])
  ]

  // ---------------------------------------------------------------------------
  // The order in which the loops call add_edge

  /** The calls of the inner loop for position i, for j = i+1 up to (not including) j. */
  function RowCalls(c: seq<Node>, i: nat, j: nat): seq<(Node, Node)>
    requires i < |c| && j <= |c|
  {
    if j <= i + 1 then [] else RowCalls(c, i, j - 1) + [(c[i], c[j - 1])]
  }

  /** The calls made for the positions before i of one record. */
  function RecordCallsUpTo(c: seq<Node>, i: nat): seq<(Node, Node)>
    requires i <= |c|
  {
    if i == 0 then [] else RecordCallsUpTo(c, i - 1) + RowCalls(c, i - 1, |c|)
  }

  /** The calls made for one record. */
  function RecordCalls(c: seq<Node>): seq<(Node, Node)>
  {
    RecordCallsUpTo(c, |c|)
  }

  /** The calls made for the whole ledger, record by record. */
  function Calls(ledger: seq<Record>): seq<(Node, Node)>
  {
    if ledger == [] then []
    else Calls(ledger[..|ledger| - 1]) + RecordCalls(ledger[|ledger| - 1].characters)
  }

  /** The graph the view builds from a ledger. */
  function Web(ledger: seq<Record>): Snapshot
  {
    Replay(Calls(ledger))
  }

  /** add_edge(p.0, p.1) is one of the pairs c[a], c[b] with a < b. */
  ghost predicate PairOf(c: seq<Node>, p: (Node, Node))
  {
    exists a, b :: 0 <= a < b < |c| && p == (c[a], c[b])
  }

  /** add_edge(p.0, p.1) is a pair of some record of the ledger. */
  ghost predicate PairInLedger(ledger: seq<Record>, p: (Node, Node))
  {
    exists r :: 0 <= r < |ledger| && PairOf(ledger[r].characters, p)
  }

  lemma {:induction false} RowCallsMembers(c: seq<Node>, i: nat, j: nat)
    requires i < |c| && j <= |c|
    ensures forall p :: p in RowCalls(c, i, j) <==> exists b :: i < b < j && p == (c[i], c[b])
    decreases j
  {
    if j > i + 1 {
      RowCallsMembers(c, i, j - 1);
    }
  }

  lemma {:induction false} RecordCallsUpToMembers(c: seq<Node>, i: nat)
    requires i <= |c|
    ensures forall p :: p in RecordCallsUpTo(c, i) <==> exists a, b :: 0 <= a < i && a < b < |c| && p == (c[a], c[b])
  {
    if i > 0 {
      RecordCallsUpToMembers(c, i - 1);
      RowCallsMembers(c, i - 1, |c|);
    }
  }

  lemma RecordCallsMembers(c: seq<Node>)
    ensures forall p :: p in RecordCalls(c) <==> PairOf(c, p)
  {
    RecordCallsUpToMembers(c, |c|);
  }

  lemma CallsSnoc(ledger: seq<Record>, rec: Record)
    ensures Calls(ledger + [rec]) == Calls(ledger) + RecordCalls(rec.characters)
  {
    assert (ledger + [rec])[..|ledger|] == ledger;
  }

  /** The loops call add_edge(c[a], c[b]) for exactly the positions a < b of some record. */
  lemma {:induction false} CallsMembers(ledger: seq<Record>)
    ensures forall p :: p in Calls(ledger) <==> PairInLedger(ledger, p)
  {
    if ledger != [] {
      var init, last := ledger[..|ledger| - 1], ledger[|ledger| - 1];
      assert ledger == init + [last];
      CallsMembers(init);
      RecordCallsMembers(last.characters);
      CallsSnoc(init, last);
      forall p ensures p in Calls(ledger) <==> PairInLedger(ledger, p) {
        if PairInLedger(ledger, p) {
          var r :| 0 <= r < |ledger| && PairOf(ledger[r].characters, p);
          if r < |init| {
            assert init[r] == ledger[r];
          }
        }
        if PairInLedger(init, p) {
          var r :| 0 <= r < |init| && PairOf(init[r].characters, p);
          assert init[r] == ledger[r];
        }
      }
    }
  }

  // ---------------------------------------------------------------------------
  // What the graph holds

  /** The edge set is exactly the set of pairs {c[a], c[b]}, a < b, over all records. */
  lemma WebEdgesAreCoOccurrences(ledger: seq<Record>)
    ensures forall r, a, b :: 0 <= r < |ledger| && 0 <= a < b < |ledger[r].characters| ==>
      {ledger[r].characters[a], ledger[r].characters[b]} in Web(ledger).Edges()
    ensures forall e :: e in Web(ledger).Edges() ==>
      exists r, a, b :: (0 <= r < |ledger| && 0 <= a < b < |ledger[r].characters| &&
                         e == {ledger[r].characters[a], ledger[r].characters[b]})
  {
    ReplayEdges(Calls(ledger));
    CallsMembers(ledger);
    forall r, a, b | 0 <= r < |ledger| && 0 <= a < b < |ledger[r].characters|
      ensures {ledger[r].characters[a], ledger[r].characters[b]} in Web(ledger).Edges()
    {
      var p := (ledger[r].characters[a], ledger[r].characters[b]);
      assert PairOf(ledger[r].characters, p);
      assert p in Calls(ledger);
      assert EdgeOf(p) in CalledEdges(Calls(ledger));
    }
    forall e | e in Web(ledger).Edges()
      ensures exists r, a, b :: (0 <= r < |ledger| && 0 <= a < b < |ledger[r].characters| &&
                                 e == {ledger[r].characters[a], ledger[r].characters[b]})
    {
      var p :| p in Calls(ledger) && e == EdgeOf(p);
      var r :| 0 <= r < |ledger| && PairOf(ledger[r].characters, p);
      var a, b :| 0 <= a < b < |ledger[r].characters| && p == (ledger[r].characters[a], ledger[r].characters[b]);
      assert e == {ledger[r].characters[a], ledger[r].characters[b]};
    }
  }

  /** The nodes, without repetition, are the characters of the records with at least
      two characters; a character listed only alone never becomes a node. */
  lemma WebNodes(ledger: seq<Record>)
    ensures Distinct(Web(ledger).nodes)
    ensures forall x :: x in Web(ledger).nodes <==>
      exists r, a :: (0 <= r < |ledger| && 2 <= |ledger[r].characters| && 0 <= a < |ledger[r].characters| &&
                      x == ledger[r].characters[a])
  {
    var calls := Calls(ledger);
    ReplayValid(calls);
    ReplayNodes(calls);
    FirstSeenIsDedup(Endpoints(calls));
    EndpointsMembers(calls);
    CallsMembers(ledger);
    forall x | x in Web(ledger).nodes
      ensures exists r, a :: (0 <= r < |ledger| && 2 <= |ledger[r].characters| && 0 <= a < |ledger[r].characters| &&
                              x == ledger[r].characters[a])
    {
      var p :| p in calls && (x == p.0 || x == p.1);
      var r :| 0 <= r < |ledger| && PairOf(ledger[r].characters, p);
      var a, b :| 0 <= a < b < |ledger[r].characters| && p == (ledger[r].characters[a], ledger[r].characters[b]);
      if x == p.0 {
        assert x == ledger[r].characters[a];
      } else {
        assert x == ledger[r].characters[b];
      }
    }
    forall r, a | 0 <= r < |ledger| && 2 <= |ledger[r].characters| && 0 <= a < |ledger[r].characters|
      ensures ledger[r].characters[a] in Web(ledger).nodes
    {
      var c := ledger[r].characters;
      var p := if a == 0 then (c[0], c[1]) else (c[0], c[a]);
      assert PairOf(c, p);
      assert p in calls;
    }
  }

  lemma {:induction false} EndpointsMembers(calls: seq<(Node, Node)>)
    ensures forall x :: x in Endpoints(calls) <==> exists p :: p in calls && (x == p.0 || x == p.1)
  {
    if calls != [] {
      var init := calls[..|calls| - 1];
      EndpointsMembers(init);
      assert calls == init + [calls[|calls| - 1]];
    }
  }

  /** A record with fewer than two characters makes no add_edge call, so it adds no
      node and no edge. */
  lemma ShortRecordAddsNothing(ledger: seq<Record>, rec: Record)
    requires |rec.characters| < 2
    ensures Web(ledger + [rec]) == Web(ledger)
  {
    var c := rec.characters;
    if |c| == 1 {
      assert RecordCallsUpTo(c, 1) == RecordCallsUpTo(c, 0) + RowCalls(c, 0, 1);
    }
    assert RecordCalls(c) == [];
    CallsSnoc(ledger, rec);
    assert Calls(ledger + [rec]) == Calls(ledger);
  }

  /** A ledger of one record with a single character builds the empty graph: that
      character does not become a node. */
  lemma LoneCharacterMakesNoNode(chapter: string, x: Node)
    ensures Web([Record(chapter, [x])]) == Empty
  {
    ShortRecordAddsNothing([], Record(chapter, [x]));
    assert [] + [Record(chapter, [x])] == [Record(chapter, [x])];
  }

  /** If no record lists a character twice, no edge is a self-loop. */
  lemma NoSelfLoops(ledger: seq<Record>)
    requires forall r :: 0 <= r < |ledger| ==> Distinct(ledger[r].characters)
    ensures forall e :: e in Web(ledger).Edges() ==> |e| == 2
  {
    WebEdgesAreCoOccurrences(ledger);
    forall e | e in Web(ledger).Edges()
      ensures |e| == 2
    {
      var r, a, b :| 0 <= r < |ledger| && 0 <= a < b < |ledger[r].characters| &&
                     e == {ledger[r].characters[a], ledger[r].characters[b]};
      assert ledger[r].characters[a] != ledger[r].characters[b];
    }
  }

  /** The calls for a record of two characters a, b. */
  lemma PairRecordCalls(a: Node, b: Node)
    ensures RecordCalls([a, b]) == [(a, b)]
  {
    var c := [a, b];
    assert RowCalls(c, 0, 2) == RowCalls(c, 0, 1) + [(a, b)];
    assert RecordCallsUpTo(c, 1) == [(a, b)];
    assert RecordCallsUpTo(c, 2) == [(a, b)] + RowCalls(c, 1, 2);
  }

  /** The calls for a record of three characters a, b, d. */
  lemma TripleRecordCalls(a: Node, b: Node, d: Node)
    ensures RecordCalls([a, b, d]) == [(a, b), (a, d), (b, d)]
  {
    var c := [a, b, d];
    assert RowCalls(c, 0, 2) == [(a, b)];
    assert RowCalls(c, 0, 3) == [(a, b), (a, d)];
    assert RowCalls(c, 1, 3) == RowCalls(c, 1, 2) + [(b, d)];
    assert RecordCallsUpTo(c, 1) == [(a, b), (a, d)];
    assert RecordCallsUpTo(c, 2) == [(a, b), (a, d), (b, d)];
    assert RecordCallsUpTo(c, 3) == RecordCallsUpTo(c, 2) + RowCalls(c, 2, 3);
  }

  /** Nothing guards against a character listed twice in one record: that record
      makes the self-loop {x}. */
  lemma RepeatedCharacterMakesSelfLoop(x: Node)
    ensures Web([Record("Chapter 1", [x, x])]).Edges() == {{x}}
    ensures Web([Record("Chapter 1", [x, x])]).nodes == [x]
  {
    PairRecordCalls(x, x);
    CallsSnoc([], Record("Chapter 1", [x, x]));
    assert Calls([Record("Chapter 1", [x, x])]) == [(x, x)];
    ReplaySnoc([], (x, x));
    ReplayEdges([(x, x)]);
    assert EdgeOf((x, x)) == {x};
    assert (x, x) in [(x, x)];
    forall e | e in CalledEdges([(x, x)])
      ensures e == {x}
    {
      var p :| p in [(x, x)] && e == EdgeOf(p);
    }
  }

  // ---------------------------------------------------------------------------
  // The imperative code

  /** The builder loop: for each record in ledger order, for each position i and each
      later position j of its characters, add the edge between the characters at i and j. */
  method BuildCharacterWeb(interactions: seq<Record>) returns (g: Graph)
    ensures fresh(g) && g.Valid()
    ensures g.calls == Calls(interactions)
    ensures g.State() == Web(interactions)
  {
    g := new Graph();
    var r := 0;
    while r < |interactions|
      invariant r <= |interactions|
      invariant fresh(g) && g.Valid()
      invariant g.calls == Calls(interactions[..r])
    {
      AddRecord(g, interactions[r].characters);
      assert interactions[..r + 1][..r] == interactions[..r];
      r := r + 1;
    }
    assert interactions[..r] == interactions;
  }

  /** One more step of the inner loop extends the calls made so far by one pair. */
  lemma RowStep(pre: seq<(Node, Node)>, c: seq<Node>, i: nat, j: nat)
    requires i < j < |c|
    ensures pre + RowCalls(c, i, j + 1) == (pre + RowCalls(c, i, j)) + [(c[i], c[j])]
  {
    assert RowCalls(c, i, j + 1) == RowCalls(c, i, j) + [(c[i], c[j])];
  }

  /** One more step of the outer loop extends the calls made so far by one row. */
  lemma RecordStep(pre: seq<(Node, Node)>, c: seq<Node>, i: nat)
    requires i < |c|
    ensures pre + RecordCallsUpTo(c, i + 1) == (pre + RecordCallsUpTo(c, i)) + RowCalls(c, i, |c|)
  {
    assert RecordCallsUpTo(c, i + 1) == RecordCallsUpTo(c, i) + RowCalls(c, i, |c|);
  }

  /** The two inner loops for one record's characters. */
  method AddRecord(g: Graph, characters: seq<Node>)
    requires g.Valid()
    modifies g
    ensures g.Valid() && g.calls == old(g.calls) + RecordCalls(characters)
  {
    ghost var pre := g.calls;
    var i := 0;
    while i < |characters|
      invariant i <= |characters|
      invariant g.Valid()
      invariant g.calls == pre + RecordCallsUpTo(characters, i)
    {
      RecordStep(pre, characters, i);
      AddRow(g, characters, i);
      i := i + 1;
    }
  }

  /** The innermost loop: an edge from the character at i to each later character. */
  method AddRow(g: Graph, characters: seq<Node>, i: nat)
    requires i < |characters|
    requires g.Valid()
    modifies g
    ensures g.Valid() && g.calls == old(g.calls) + RowCalls(characters, i, |characters|)
  {
    ghost var pre := g.calls;
    var j := i + 1;
    while j < |characters|
      invariant i + 1 <= j <= |characters|
      invariant g.Valid()
      invariant g.calls == pre + RowCalls(characters, i, j)
    {
      RowStep(pre, characters, i, j);
      g.AddEdge(characters[i], characters[j]);
      j := j + 1;
    }
  }

  // ---------------------------------------------------------------------------
  // Flattening the graph into the scatter traces

  /** One text trace: the name drawn at a node's position. */
  datatype Label<C> = Label(x: C, y: C, text: Node)

  /** For each edge, both endpoints' x go to edge_x and their y to edge_y. */
  method EdgeCoordinates<C>(edges: seq<(Node, Node)>, pos: map<Node, (C, C)>)
    returns (edgeX: seq<C>, edgeY: seq<C>)
    requires forall k :: 0 <= k < |edges| ==> edges[k].0 in pos && edges[k].1 in pos
    ensures |edgeX| == |edgeY| == 2 * |edges|
    ensures forall k :: 0 <= k < |edges| ==>
      && edgeX[2 * k] == pos[edges[k].0].0 && edgeY[2 * k] == pos[edges[k].0].1
      && edgeX[2 * k + 1] == pos[edges[k].1].0 && edgeY[2 * k + 1] == pos[edges[k].1].1
  {
    edgeX, edgeY := [], [];
    var k := 0;
    while k < |edges|
      invariant k <= |edges|
      invariant |edgeX| == |edgeY| == 2 * k
      invariant forall m :: 0 <= m < k ==>
        && edgeX[2 * m] == pos[edges[m].0].0 && edgeY[2 * m] == pos[edges[m].0].1
        && edgeX[2 * m + 1] == pos[edges[m].1].0 && edgeY[2 * m + 1] == pos[edges[m].1].1
    {
      var (x0, y0) := pos[edges[k].0];
      var (x1, y1) := pos[edges[k].1];
      edgeX := edgeX + [x0, x1];
      edgeY := edgeY + [y0, y1];
      k := k + 1;
    }
  }

  /** For each node, in order, its x goes to node_x and its y to node_y. */
  method NodeCoordinates<C>(nodes: seq<Node>, pos: map<Node, (C, C)>)
    returns (nodeX: seq<C>, nodeY: seq<C>)
    requires forall i :: 0 <= i < |nodes| ==> nodes[i] in pos
    ensures |nodeX| == |nodeY| == |nodes|
    ensures forall i :: 0 <= i < |nodes| ==> nodeX[i] == pos[nodes[i]].0 && nodeY[i] == pos[nodes[i]].1
  {
    nodeX, nodeY := [], [];
    var i := 0;
    while i < |nodes|
      invariant i <= |nodes|
      invariant |nodeX| == |nodeY| == i
      invariant forall m :: 0 <= m < i ==> nodeX[m] == pos[nodes[m]].0 && nodeY[m] == pos[nodes[m]].1
    {
      var (x, y) := pos[nodes[i]];
      nodeX := nodeX + [x];
      nodeY := nodeY + [y];
      i := i + 1;
    }
  }

  /** One text trace per node, in node order, carrying the node's name at its position. */
  method NodeLabels<C>(nodes: seq<Node>, pos: map<Node, (C, C)>) returns (labels: seq<Label<C>>)
    requires forall i :: 0 <= i < |nodes| ==> nodes[i] in pos
    ensures |labels| == |nodes|
    ensures forall i :: 0 <= i < |nodes| ==> labels[i] == Label(pos[nodes[i]].0, pos[nodes[i]].1, nodes[i])
  {
    labels := [];
    var i := 0;
    while i < |nodes|
      invariant i <= |nodes|
      invariant |labels| == i
      invariant forall m :: 0 <= m < i ==> labels[m] == Label(pos[nodes[m]].0, pos[nodes[m]].1, nodes[m])
    {
      labels := labels + [Label(pos[nodes[i]].0, pos[nodes[i]].1, nodes[i])];
      i := i + 1;
    }
  }

  /** The coordinate lists and label traces for the renderer: `edges = list(G.edges())`
      flattened endpoint by endpoint, then the nodes of G in order. `pos` is whatever
      the layout returned: one coordinate pair per node. */
  method PlotCoordinates<C>(g: Graph, pos: map<Node, (C, C)>)
    returns (edgeX: seq<C>, edgeY: seq<C>, nodeX: seq<C>, nodeY: seq<C>, labels: seq<Label<C>>)
    requires g.Valid()
    requires forall n :: n in g.nodes ==> n in pos
    ensures forall p :: p in g.State().EdgeView() ==> p.0 in g.nodes && p.1 in g.nodes
    ensures |g.State().EdgeView()| == |g.Edges()|
    ensures |edgeX| == |edgeY| == 2 * |g.Edges()|
    ensures forall k :: 0 <= k < |g.State().EdgeView()| ==>
      var e := g.State().EdgeView()[k];
      && edgeX[2 * k] == pos[e.0].0 && edgeY[2 * k] == pos[e.0].1
      && edgeX[2 * k + 1] == pos[e.1].0 && edgeY[2 * k + 1] == pos[e.1].1
    ensures |nodeX| == |nodeY| == |labels| == |g.nodes|
    ensures forall i :: 0 <= i < |g.nodes| ==> nodeX[i] == pos[g.nodes[i]].0 && nodeY[i] == pos[g.nodes[i]].1
    ensures forall i :: 0 <= i < |g.nodes| ==> labels[i] == Label(pos[g.nodes[i]].0, pos[g.nodes[i]].1, g.nodes[i])
  {
    ReplayValid(g.calls);
    var edges := g.State().EdgeView();
    EdgeViewListsEachEdgeOnce(g.State());
    forall k | 0 <= k < |edges|
      ensures edges[k].0 in pos && edges[k].1 in pos
    {
      assert edges[k] in edges;
    }
    edgeX, edgeY := EdgeCoordinates(edges, pos);
    nodeX, nodeY := NodeCoordinates(g.nodes, pos);
    labels := NodeLabels(g.nodes, pos);
  }
}
