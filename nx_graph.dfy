/**
  The part of networkx's undirected `Graph` that the Character Web relies on.

  networkx keeps two insertion-ordered dictionaries: the node dictionary and the
  adjacency dictionary (node -> neighbour dictionary). Both are modelled here by
  their key order: `nodes` is the sequence of node keys, and `adj[u]` the sequence
  of u's neighbour keys. A Python dictionary keeps an existing key where it is and
  puts a new key last, which is `Insert` below.
*/
module NxGraph {

  /** A character id: nodes are compared by exact string equality. */
  type Node = string

  /** An undirected edge: the unordered pair of its endpoints ({u} for a self-loop). */
  type Edge = set<Node>

  ghost predicate Distinct<T>(s: seq<T>)
  {
    forall i, j :: 0 <= i < j < |s| ==> s[i] != s[j]
  }

  /** Storing key k in a dictionary whose keys are `keys`, in order. */
  function Insert(keys: seq<Node>, k: Node): seq<Node>
  {
    if k in keys then keys else keys + [k]
  }

  /** The edge that add_edge(p.0, p.1) stores. */
  function EdgeOf(p: (Node, Node)): Edge
  {
    {p.0, p.1}
  }

  /** The undirected edges named by the pairs in ps. */
  ghost function CalledEdges(ps: seq<(Node, Node)>): set<Edge>
  {
    set p | p in ps :: EdgeOf(p)
  }

  /** No two entries of `ps` stand for the same undirected edge. */
  ghost predicate DistinctEdges(ps: seq<(Node, Node)>)
  {
    forall i, j :: 0 <= i < j < |ps| ==> EdgeOf(ps[i]) != EdgeOf(ps[j])
  }

  /** The contents of a networkx Graph: node keys in order and neighbour keys in order. */
  datatype Snapshot = Snapshot(nodes: seq<Node>, adj: map<Node, seq<Node>>)
  {
    /** What networkx keeps true: one adjacency entry per node, symmetric neighbour
        dictionaries, and no key twice. */
    ghost predicate Valid()
    {
      Distinct(nodes) && KeysAreNodes() && Symmetric() && NeighboursDistinct()
    }

    ghost predicate KeysAreNodes()
    {
      forall u :: u in adj <==> u in nodes
    }

    ghost predicate Symmetric()
    {
      forall u, v :: u in adj && v in adj[u] ==> v in adj && u in adj[v]
    }

    ghost predicate NeighboursDistinct()
    {
      forall u :: u in adj ==> Distinct(adj[u])
    }

    function Neighbours(u: Node): seq<Node>
    {
      if u in adj then adj[u] else []
    }

    /** The edge set: every unordered pair {u, v} with v a neighbour of u. */
    ghost function Edges(): set<Edge>
    {
      set u, v | u in adj && v in adj[u] :: {u, v}
    }

    /** `add_edge(u, v)`: add u, then v, as nodes if absent, then make each a
        neighbour of the other. */
    function AddEdge(u: Node, v: Node): Snapshot
    {
      var g2 := AddNodes(u, v);
      var g3 := Snapshot(g2.nodes, g2.adj[u := Insert(g2.Neighbours(u), v)]);
      Snapshot(g3.nodes, g3.adj[v := Insert(g3.Neighbours(v), u)])
    }

    /** The first two steps of add_edge: u, then v, become nodes with no neighbours
        if they are not nodes yet. */
    function AddNodes(u: Node, v: Node): Snapshot
    {
      var g1 := if u in nodes then this else Snapshot(nodes + [u], adj[u := []]);
      if v in g1.nodes then g1 else Snapshot(g1.nodes + [v], g1.adj[v := []])
    }

    /** `G.edges()`: networkx walks the nodes in order and reports (n, w) for each
        neighbour w of n that has not been walked yet. */
    function EdgeView(): seq<(Node, Node)>
    {
      EdgesFrom(0)
    }

    /** The edges reported while walking nodes[i..]. */
    function EdgesFrom(i: nat): seq<(Node, Node)>
      decreases |nodes| - i
    {
      if i >= |nodes| then []
      else Unwalked(nodes[i], Neighbours(nodes[i]), nodes[..i]) + EdgesFrom(i + 1)
    }
  }

  /** The pairs (n, w) for the neighbours w in ws that are not in `walked`, in order. */
  function Unwalked(n: Node, ws: seq<Node>, walked: seq<Node>): seq<(Node, Node)>
  {
    if ws == [] then []
    else (if ws[0] in walked then [] else [(n, ws[0])]) + Unwalked(n, ws[1..], walked)
  }

  /** Unwalked reports exactly the pairs (n, w) with w in ws but not in walked,
      each once when ws has no repetitions. */
  lemma {:induction false} UnwalkedMembers(n: Node, ws: seq<Node>, walked: seq<Node>)
    ensures forall p :: p in Unwalked(n, ws, walked) <==> p.0 == n && p.1 in ws && p.1 !in walked
    ensures Distinct(ws) ==> Distinct(Unwalked(n, ws, walked))
  {
    if ws != [] {
      UnwalkedMembers(n, ws[1..], walked);
      assert forall x :: x in ws <==> x == ws[0] || x in ws[1..];
      if Distinct(ws) {
        assert Distinct(ws[1..]);
        assert ws[0] !in ws[1..];
      }
    }
  }

  /** The empty graph, `nx.Graph()`. */
  const Empty: Snapshot := Snapshot([], map[])

  /** The graph after the calls add_edge(c.0, c.1), for c in `calls` in order,
      starting from the empty graph. */
  function Replay(calls: seq<(Node, Node)>): Snapshot
  {
    if calls == [] then Empty
    else
      var last := calls[|calls| - 1];
      Replay(calls[..|calls| - 1]).AddEdge(last.0, last.1)
  }

  /** The endpoints of `calls`, in the order add_edge looks at them. */
  function Endpoints(calls: seq<(Node, Node)>): seq<Node>
  {
    if calls == [] then []
    else Endpoints(calls[..|calls| - 1]) + [calls[|calls| - 1].0, calls[|calls| - 1].1]
  }

  /** The elements of s without repetitions, each where it first occurs. */
  function FirstSeen(s: seq<Node>): seq<Node>
  {
    if s == [] then [] else Insert(FirstSeen(s[..|s| - 1]), s[|s| - 1])
  }

  /** FirstSeen keeps each element once and nothing else. */
  lemma {:induction false} FirstSeenIsDedup(s: seq<Node>)
    ensures Distinct(FirstSeen(s))
    ensures forall x :: x in FirstSeen(s) <==> x in s
  {
    if s != [] {
      FirstSeenIsDedup(s[..|s| - 1]);
      assert forall x :: x in s <==> x in s[..|s| - 1] || x == s[|s| - 1];
    }
  }

  /** Elements already seen leave FirstSeen unchanged. */
  lemma {:induction false} FirstSeenAbsorbs(s: seq<Node>, t: seq<Node>)
    requires forall i :: 0 <= i < |t| ==> t[i] in s
    ensures FirstSeen(s + t) == FirstSeen(s)
    decreases |t|
  {
    if t == [] {
      assert s + t == s;
    } else {
      var init := t[..|t| - 1];
      FirstSeenAbsorbs(s, init);
      assert (s + t)[..|s + t| - 1] == s + init;
      FirstSeenIsDedup(s + init);
    }
  }

  lemma {:induction false} EndpointsAppend(c: seq<(Node, Node)>, d: seq<(Node, Node)>)
    ensures Endpoints(c + d) == Endpoints(c) + Endpoints(d)
    decreases |d|
  {
    if d == [] {
      assert c + d == c;
    } else {
      var init := d[..|d| - 1];
      EndpointsAppend(c, init);
      assert (c + d)[..|c + d| - 1] == c + init;
    }
  }

  /** Dropping the last element of a distinct sequence keeps it distinct, and the
      last element is not among the others. */
  lemma DistinctSplit(s: seq<Node>)
    requires Distinct(s) && s != []
    ensures Distinct(s[..|s| - 1]) && s[|s| - 1] !in s[..|s| - 1]
  {
    var init, last := s[..|s| - 1], s[|s| - 1];
    forall i, j | 0 <= i < j < |init| ensures init[i] != init[j] {
      assert init[i] == s[i] && init[j] == s[j];
    }
    forall i | 0 <= i < |init| ensures init[i] != last {
      assert init[i] == s[i];
    }
  }

  /** A sequence without repetitions is its own FirstSeen. */
  lemma {:induction false} FirstSeenOfDistinct(s: seq<Node>)
    requires Distinct(s)
    ensures FirstSeen(s) == s
  {
    if s != [] {
      var init, last := s[..|s| - 1], s[|s| - 1];
      DistinctSplit(s);
      FirstSeenOfDistinct(init);
      calc {
        FirstSeen(s);
        Insert(FirstSeen(init), last);
        Insert(init, last);
        init + [last];
        s;
      }
    }
  }

  /** Looking at more of s only extends FirstSeen. */
  lemma {:induction false} FirstSeenGrows(s: seq<Node>, k: nat)
    requires k <= |s|
    ensures FirstSeen(s[..k]) <= FirstSeen(s)
    decreases |s|
  {
    if k < |s| {
      var init := s[..|s| - 1];
      FirstSeenGrows(init, k);
      assert init[..k] == s[..k];
    } else {
      assert s[..k] == s;
    }
  }

  /** Each element's place in FirstSeen(s) is right after the distinct elements that
      occur before its first occurrence. */
  lemma FirstSeenOrder(s: seq<Node>, k: nat)
    requires k < |s| && s[k] !in s[..k]
    ensures FirstSeen(s[..k]) + [s[k]] <= FirstSeen(s)
  {
    FirstSeenIsDedup(s[..k]);
    assert s[..k + 1][..k] == s[..k];
    FirstSeenGrows(s, k + 1);
  }

  // ---------------------------------------------------------------------------
  // add_edge

  /** Which keys and neighbours add_edge(u, v) leaves behind. */
  lemma AddEdgeAdjacency(g: Snapshot, u: Node, v: Node)
    requires g.KeysAreNodes()
    ensures forall x :: x in g.AddEdge(u, v).adj <==> x in g.adj || x == u || x == v
    ensures forall x, y :: y in g.AddEdge(u, v).Neighbours(x) <==>
      y in g.Neighbours(x) || (x == u && y == v) || (x == v && y == u)
  {
    var g2 := g.AddNodes(u, v);
    AddNodesKeepNeighbours(g, u, v);
    var g3 := Snapshot(g2.nodes, g2.adj[u := Insert(g2.Neighbours(u), v)]);
    SetNeighbours(g2, u, Insert(g2.Neighbours(u), v));
    SetNeighbours(g3, v, Insert(g3.Neighbours(v), u));
  }

  /** Replacing one neighbour list leaves the others as they were. */
  lemma SetNeighbours(h: Snapshot, a: Node, l: seq<Node>)
    ensures forall x :: x in h.adj[a := l] <==> x in h.adj || x == a
    ensures forall x :: Snapshot(h.nodes, h.adj[a := l]).Neighbours(x) == if x == a then l else h.Neighbours(x)
  {
    var h2 := Snapshot(h.nodes, h.adj[a := l]);
    forall x ensures h2.Neighbours(x) == if x == a then l else h.Neighbours(x) {
      if x == a {
        assert x in h2.adj && h2.adj[x] == l;
      } else {
        assert (x in h2.adj) == (x in h.adj);
      }
    }
  }

  /** The first two steps of add_edge keep every neighbour list as it was. */
  lemma AddNodesKeepNeighbours(g: Snapshot, u: Node, v: Node)
    requires g.KeysAreNodes()
    ensures g.AddNodes(u, v).KeysAreNodes()
    ensures forall x :: x in g.AddNodes(u, v).adj <==> x in g.adj || x == u || x == v
    ensures forall x :: g.AddNodes(u, v).Neighbours(x) == g.Neighbours(x)
  {
    var g1 := if u in g.nodes then g else Snapshot(g.nodes + [u], g.adj[u := []]);
    assert g1.KeysAreNodes();
    assert forall x :: g1.Neighbours(x) == g.Neighbours(x);
  }

  lemma AddEdgeKeepsSymmetric(g: Snapshot, u: Node, v: Node)
    requires g.KeysAreNodes() && g.Symmetric()
    ensures g.AddEdge(u, v).Symmetric()
  {
    var r := g.AddEdge(u, v);
    AddEdgeAdjacency(g, u, v);
    forall x, y | x in r.adj && y in r.adj[x]
      ensures y in r.adj && x in r.adj[y]
    {
      assert y in r.Neighbours(x);
      if y in g.Neighbours(x) {
        assert x in g.Neighbours(y);
      }
      assert x in r.Neighbours(y);
    }
  }

  lemma AddEdgeKeepsNeighboursDistinct(g: Snapshot, u: Node, v: Node)
    requires g.KeysAreNodes() && g.NeighboursDistinct()
    ensures g.AddEdge(u, v).NeighboursDistinct()
  {
    var g2 := g.AddNodes(u, v);
    AddNodesKeepNeighbours(g, u, v);
    var g3 := Snapshot(g2.nodes, g2.adj[u := Insert(g2.Neighbours(u), v)]);
    assert g2.NeighboursDistinct() by {
      forall x | x in g2.adj ensures Distinct(g2.adj[x]) {
        assert g2.adj[x] == g.Neighbours(x);
      }
    }
    assert Distinct(g2.Neighbours(u));
    assert g3.NeighboursDistinct();
    assert Distinct(g3.Neighbours(v));
  }

  /** add_edge(u, v) adds u, then v, to the node order when they are new. */
  lemma AddEdgeNodes(g: Snapshot, u: Node, v: Node)
    ensures g.AddEdge(u, v).nodes == Insert(Insert(g.nodes, u), v)
  {
    var g1 := if u in g.nodes then g else Snapshot(g.nodes + [u], g.adj[u := []]);
    assert g1.nodes == Insert(g.nodes, u);
  }

  lemma AddEdgeKeepsValid(g: Snapshot, u: Node, v: Node)
    requires g.Valid()
    ensures g.AddEdge(u, v).Valid()
    ensures g.AddEdge(u, v).nodes == Insert(Insert(g.nodes, u), v)
  {
    AddEdgeNodes(g, u, v);
    AddEdgeAdjacency(g, u, v);
    AddEdgeKeepsSymmetric(g, u, v);
    AddEdgeKeepsNeighboursDistinct(g, u, v);
  }

  lemma AddEdgeEdgesWithin(g: Snapshot, u: Node, v: Node)
    requires g.KeysAreNodes()
    ensures g.AddEdge(u, v).Edges() <= g.Edges() + {{u, v}}
  {
    var r := g.AddEdge(u, v);
    AddEdgeAdjacency(g, u, v);
    forall e | e in r.Edges()
      ensures e in g.Edges() + {{u, v}}
    {
      var x, y :| x in r.adj && y in r.adj[x] && e == {x, y};
      assert y in r.Neighbours(x);
      if y in g.Neighbours(x) {
        assert x in g.adj && y in g.adj[x];
      } else {
        assert e == {u, v};
      }
    }
  }
  lemma AddEdgeEdgesCover(g: Snapshot, u: Node, v: Node)
    requires g.KeysAreNodes()
    ensures g.Edges() + {{u, v}} <= g.AddEdge(u, v).Edges() 
  {
    var r := g.AddEdge(u, v);
    AddEdgeAdjacency(g, u, v);
    forall e | e in g.Edges() + {{u, v}}
      ensures e in r.Edges()
    {
      if e == {u, v} {
        assert v in r.Neighbours(u);
        assert u in r.adj && v in r.adj[u];
      } else {
        var x, y :| x in g.adj && y in g.adj[x] && e == {x, y};
        assert y in g.Neighbours(x);
        assert y in r.Neighbours(x);
        assert x in r.adj && y in r.adj[x];
      }
    }
  }

  /** add_edge(u, v) adds exactly the edge {u, v} to the edge set. */
  lemma AddEdgeEdges(g: Snapshot, u: Node, v: Node)
    requires g.KeysAreNodes()
    ensures g.AddEdge(u, v).Edges() == g.Edges() + {{u, v}}
  {
    AddEdgeEdgesWithin(g, u, v);
    AddEdgeEdgesCover(g, u, v);
  }

  /** Adding an edge that is already there changes nothing: no duplicate edge, no
      new node, no reordering. */
  lemma AddEdgeExisting(g: Snapshot, u: Node, v: Node)
    requires g.Valid() && u in g.adj && v in g.adj[u]
    ensures g.AddEdge(u, v) == g
  {
    assert u in g.nodes && v in g.nodes && u in g.adj[v];
    assert g.adj[u := g.adj[u]][v := g.adj[v]] == g.adj;
  }

  /** After add_edge(a, b), add_edge(b, a) changes nothing. */
  lemma AddEdgeThenReverse(g: Snapshot, a: Node, b: Node)
    requires g.Valid()
    ensures g.AddEdge(a, b).AddEdge(b, a) == g.AddEdge(a, b)
  {
    var r := g.AddEdge(a, b);
    AddEdgeKeepsValid(g, a, b);
    AddEdgeAdjacency(g, a, b);
    assert a in r.Neighbours(b);
    AddEdgeExisting(r, b, a);
  }

  /** add_edge(a, b) and add_edge(b, a) store the same edge. */
  lemma AddEdgeSameEdge(g: Snapshot, a: Node, b: Node)
    requires g.Valid()
    ensures g.AddEdge(a, b).Edges() == g.AddEdge(b, a).Edges()
  {
    AddEdgeEdges(g, a, b);
    AddEdgeEdges(g, b, a);
    assert {a, b} == {b, a};
  }

  // ---------------------------------------------------------------------------
  // A sequence of add_edge calls

  lemma ReplaySnoc(calls: seq<(Node, Node)>, p: (Node, Node))
    ensures Replay(calls + [p]) == Replay(calls).AddEdge(p.0, p.1)
  {
    assert (calls + [p])[..|calls|] == calls;
  }

  /** After any calls, the adjacency is keyed by exactly the nodes. */
  lemma ReplayKeysAreNodes(calls: seq<(Node, Node)>)
    ensures Replay(calls).KeysAreNodes()
  {
    ReplayValid(calls);
  }

  lemma {:induction false} ReplayValid(calls: seq<(Node, Node)>)
    ensures Replay(calls).Valid()
  {
    if calls != [] {
      var last := calls[|calls| - 1];
      ReplayValid(calls[..|calls| - 1]);
      AddEdgeKeepsValid(Replay(calls[..|calls| - 1]), last.0, last.1);
    }
  }

  /** The edge set after the calls is the set of the called pairs, as unordered pairs. */
  lemma {:induction false} ReplayEdges(calls: seq<(Node, Node)>)
    ensures Replay(calls).Edges() == CalledEdges(calls)
  {
    if calls == [] {
      assert Replay(calls).Edges() == {};
    } else {
      var init, last := calls[..|calls| - 1], calls[|calls| - 1];
      var g := Replay(init);
      ReplayEdges(init);
      ReplayValid(init);
      AddEdgeEdges(g, last.0, last.1);
      assert calls == init + [last];
      CalledEdgesSnoc(init, last);
      calc {
        Replay(calls).Edges();
        g.AddEdge(last.0, last.1).Edges();
        g.Edges() + {{last.0, last.1}};
        CalledEdges(init) + {EdgeOf(last)};
        CalledEdges(calls);
      }
    }
  }

  lemma CalledEdgesSnoc(init: seq<(Node, Node)>, last: (Node, Node))
    ensures CalledEdges(init + [last]) == CalledEdges(init) + {EdgeOf(last)}
  {
    var calls := init + [last];
    forall e | e in CalledEdges(calls)
      ensures e in CalledEdges(init) + {EdgeOf(last)}
    {
      var p :| p in calls && e == EdgeOf(p);
      if p != last {
        assert p in init;
      }
    }
    assert last in calls;
  }

  /** Node order is the first-seen order of the endpoints, u before v in each call. */
  lemma {:induction false} ReplayNodes(calls: seq<(Node, Node)>)
    ensures Replay(calls).nodes == FirstSeen(Endpoints(calls))
  {
    if calls != [] {
      var init, last := calls[..|calls| - 1], calls[|calls| - 1];
      var ends := Endpoints(init);
      var es := Endpoints(calls);
      assert es == ends + [last.0, last.1];
      assert es[..|es| - 1] == ends + [last.0];
      assert (ends + [last.0])[..|ends|] == ends;
      ReplayNodes(init);
      calc {
        FirstSeen(es);
        Insert(FirstSeen(ends + [last.0]), last.1);
        Insert(Insert(FirstSeen(ends), last.0), last.1);
        Insert(Insert(Replay(init).nodes, last.0), last.1);
        Replay(calls).nodes;
      }
    }
  }

  /** The other endpoint of each call that touches x, in the order add_edge stores
      them: for add_edge(u, v), v goes to u's dictionary first, then u to v's. */
  function Partners(calls: seq<(Node, Node)>, x: Node): seq<Node>
  {
    if calls == [] then []
    else
      var last := calls[|calls| - 1];
      Partners(calls[..|calls| - 1], x) + (if last.0 == x then [last.1] else []) + (if last.1 == x then [last.0] else [])
  }

  lemma {:induction false} PartnersAppend(c: seq<(Node, Node)>, d: seq<(Node, Node)>, x: Node)
    ensures Partners(c + d, x) == Partners(c, x) + Partners(d, x)
    decreases |d|
  {
    if d == [] {
      assert c + d == c;
    } else {
      var init, last := d[..|d| - 1], d[|d| - 1];
      var a := if last.0 == x then [last.1] else [];
      var b := if last.1 == x then [last.0] else [];
      PartnersAppend(c, init, x);
      assert (c + d)[..|c + d| - 1] == c + init;
      assert (c + d)[|c + d| - 1] == last;
      calc {
        Partners(c + d, x);
        Partners(c + init, x) + a + b;
        Partners(c, x) + Partners(init, x) + a + b;
        Partners(c, x) + (Partners(init, x) + a + b);
        Partners(c, x) + Partners(d, x);
      }
    }
  }

  lemma FirstSeenSnoc(s: seq<Node>, a: Node)
    ensures FirstSeen(s + [a]) == Insert(FirstSeen(s), a)
  {
    assert (s + [a])[..|s|] == s;
  }

  /** How add_edge(u, v) changes the neighbour list of any one node x. */
  lemma AddEdgeNeighbours(g: Snapshot, u: Node, v: Node, x: Node)
    requires g.KeysAreNodes()
    ensures var n1 := if x == u then Insert(g.Neighbours(x), v) else g.Neighbours(x);
      g.AddEdge(u, v).Neighbours(x) == if x == v then Insert(n1, u) else n1
  {
    AddNodesKeepNeighbours(g, u, v);
  }

  /** Each neighbour list holds the node's partners in first-seen order. */
  lemma {:induction false} ReplayNeighbours(calls: seq<(Node, Node)>, x: Node)
    ensures Replay(calls).Neighbours(x) == FirstSeen(Partners(calls, x))
  {
    if calls != [] {
      var init, last := calls[..|calls| - 1], calls[|calls| - 1];
      var g := Replay(init);
      ReplayNeighbours(init, x);
      ReplayValid(init);
      AddEdgeNeighbours(g, last.0, last.1, x);
      var p := Partners(init, x);
      var a := if last.0 == x then [last.1] else [];
      var b := if last.1 == x then [last.0] else [];
      if last.0 == x {
        FirstSeenSnoc(p, last.1);
      } else {
        assert p + a == p;
      }
      if last.1 == x {
        FirstSeenSnoc(p + a, last.0);
      } else {
        assert p + a + b == p + a;
      }
    }
  }

  // ---------------------------------------------------------------------------
  // G.edges()

  lemma {:induction false} EdgesFromMembers(g: Snapshot, i: nat)
    ensures forall p :: p in g.EdgesFrom(i) <==>
      exists k :: i <= k < |g.nodes| && p.0 == g.nodes[k] && p.1 in g.Neighbours(g.nodes[k]) && p.1 !in g.nodes[..k]
    decreases |g.nodes| - i
  {
    if i < |g.nodes| {
      EdgesFromMembers(g, i + 1);
      UnwalkedMembers(g.nodes[i], g.Neighbours(g.nodes[i]), g.nodes[..i]);
    }
  }

  /** Every edge reported from nodes[i..] has both endpoints in nodes[i..]. */
  lemma EdgesFromWithin(g: Snapshot, i: nat)
    requires g.Valid()
    ensures forall p :: p in g.EdgesFrom(i) ==> p.0 in g.nodes[i..] && p.1 in g.nodes[i..]
  {
    EdgesFromMembers(g, i);
    forall p | p in g.EdgesFrom(i)
      ensures p.0 in g.nodes[i..] && p.1 in g.nodes[i..]
    {
      var k :| i <= k < |g.nodes| && p.0 == g.nodes[k] && p.1 in g.Neighbours(g.nodes[k]) && p.1 !in g.nodes[..k];
      assert g.nodes[i..][k - i] == p.0;
      NeighbourIsNode(g, p.0, p.1);
      var m :| 0 <= m < |g.nodes| && g.nodes[m] == p.1;
      NotInPrefix(g.nodes, k, m);
      assert g.nodes[i..][m - i] == p.1;
    }
  }

  lemma NeighbourIsNode(g: Snapshot, u: Node, v: Node)
    requires g.Valid() && v in g.Neighbours(u)
    ensures u in g.nodes && v in g.nodes
  {
    assert u in g.adj && v in g.adj[u];
    assert v in g.adj;
  }

  lemma NotInPrefix(s: seq<Node>, k: nat, m: nat)
    requires k <= |s| && m < |s| && s[m] !in s[..k]
    ensures k <= m
  {
  }

  lemma DistinctEdgesAppend(a: seq<(Node, Node)>, b: seq<(Node, Node)>)
    requires DistinctEdges(a) && DistinctEdges(b)
    requires forall x, y :: x in a && y in b ==> EdgeOf(x) != EdgeOf(y)
    ensures DistinctEdges(a + b)
  {
    forall i, j | 0 <= i < j < |a + b|
      ensures EdgeOf((a + b)[i]) != EdgeOf((a + b)[j])
    {
      if j < |a| {
      } else if i < |a| {
        assert a[i] in a && (a + b)[j] in b;
      } else {
        assert (a + b)[i] == b[i - |a|] && (a + b)[j] == b[j - |a|];
      }
    }
  }

  /** Distinct pairs sharing their first node are distinct undirected edges. */
  lemma SameSourceDistinctEdges(n: Node, ps: seq<(Node, Node)>)
    requires Distinct(ps) && forall p :: p in ps ==> p.0 == n
    ensures DistinctEdges(ps)
  {
    forall i, j | 0 <= i < j < |ps|
      ensures EdgeOf(ps[i]) != EdgeOf(ps[j])
    {
      assert ps[i] in ps && ps[j] in ps;
    }
  }

  /** No two edges reported from nodes[i..] are the same undirected edge. */
  lemma {:induction false} EdgesFromDistinct(g: Snapshot, i: nat)
    requires g.Valid()
    ensures DistinctEdges(g.EdgesFrom(i))
    decreases |g.nodes| - i
  {
    if i < |g.nodes| {
      var n := g.nodes[i];
      var block := Unwalked(n, g.Neighbours(n), g.nodes[..i]);
      UnwalkedMembers(n, g.Neighbours(n), g.nodes[..i]);
      var rest := g.EdgesFrom(i + 1);
      assert g.EdgesFrom(i) == block + rest;
      EdgesFromDistinct(g, i + 1);
      EdgesFromWithin(g, i + 1);
      assert Distinct(g.Neighbours(n));
      SameSourceDistinctEdges(n, block);
      forall x, y | x in block && y in rest
        ensures EdgeOf(x) != EdgeOf(y)
      {
        assert n in EdgeOf(x);
        assert n !in g.nodes[i + 1..];
      }
      DistinctEdgesAppend(block, rest);
    }
  }

  lemma {:induction false} DistinctEdgesCount(ps: seq<(Node, Node)>)
    requires DistinctEdges(ps)
    ensures |CalledEdges(ps)| == |ps|
  {
    if ps != [] {
      var tail := ps[1..];
      assert DistinctEdges(tail) by {
        forall i, j | 0 <= i < j < |tail| ensures EdgeOf(tail[i]) != EdgeOf(tail[j]) {
          assert tail[i] == ps[i + 1] && tail[j] == ps[j + 1];
        }
      }
      DistinctEdgesCount(tail);
      assert EdgeOf(ps[0]) !in CalledEdges(tail);
      assert CalledEdges(ps) == {EdgeOf(ps[0])} + CalledEdges(tail);
    }
  }

  lemma EdgeViewSound(g: Snapshot)
    requires g.Valid()
    ensures forall p :: p in g.EdgeView() ==> EdgeOf(p) in g.Edges() && p.0 in g.nodes && p.1 in g.nodes
  {
    EdgesFromMembers(g, 0);
    forall p | p in g.EdgeView()
      ensures EdgeOf(p) in g.Edges() && p.0 in g.nodes && p.1 in g.nodes
    {
      var k :| 0 <= k < |g.nodes| && p.0 == g.nodes[k] && p.1 in g.Neighbours(g.nodes[k]) && p.1 !in g.nodes[..k];
      assert p.0 in g.adj && p.1 in g.adj[p.0];
    }
  }

  /** The walk reports the edge {u, v} from whichever of u, v comes first in node order. */
  lemma WalkReports(g: Snapshot, u: Node, v: Node)
    requires g.Valid() && u in g.adj && v in g.adj[u]
    ensures exists p :: p in g.EdgeView() && EdgeOf(p) == {u, v}
  {
    EdgesFromMembers(g, 0);
    NeighbourIsNode(g, u, v);
    assert u in g.Neighbours(v);
    var ku :| 0 <= ku < |g.nodes| && g.nodes[ku] == u;
    var kv :| 0 <= kv < |g.nodes| && g.nodes[kv] == v;
    if ku <= kv {
      assert v !in g.nodes[..ku];
      assert (u, v) in g.EdgeView();
      assert EdgeOf((u, v)) == {u, v};
    } else {
      assert u !in g.nodes[..kv];
      assert (v, u) in g.EdgeView();
      assert EdgeOf((v, u)) == {u, v};
    }
  }

  lemma EdgeViewComplete(g: Snapshot)
    requires g.Valid()
    ensures forall e :: e in g.Edges() ==> exists p :: p in g.EdgeView() && EdgeOf(p) == e
  {
    forall e | e in g.Edges()
      ensures exists p :: p in g.EdgeView() && EdgeOf(p) == e
    {
      var u, v :| u in g.adj && v in g.adj[u] && e == {u, v};
      WalkReports(g, u, v);
    }
  }

  /** `list(G.edges())` reports every edge of the graph exactly once, as a pair of
      nodes of the graph. */
  lemma EdgeViewListsEachEdgeOnce(g: Snapshot)
    requires g.Valid()
    ensures forall p :: p in g.EdgeView() ==> EdgeOf(p) in g.Edges() && p.0 in g.nodes && p.1 in g.nodes
    ensures forall e :: e in g.Edges() ==> exists p :: p in g.EdgeView() && EdgeOf(p) == e
    ensures DistinctEdges(g.EdgeView())
    ensures |g.EdgeView()| == |g.Edges()|
  {
    EdgeViewSound(g);
    EdgeViewComplete(g);
    EdgesFromDistinct(g, 0);
    assert g.Edges() == CalledEdges(g.EdgeView());
    DistinctEdgesCount(g.EdgeView());
  }

  /** A networkx Graph object: add_edge updates its node and adjacency dictionaries. */
  class Graph {
    var nodes: seq<Node>
    var adj: map<Node, seq<Node>>
    /** The add_edge calls made on this graph so far. */
    ghost var calls: seq<(Node, Node)>

    function State(): Snapshot
      reads this
    {
      Snapshot(nodes, adj)
    }

    /** The graph is the one its add_edge calls built. */
    ghost predicate Valid()
      reads this
    {
      State() == Replay(calls)
    }

    ghost function Edges(): set<Edge>
      reads this
    {
      State().Edges()
    }

    /** `nx.Graph()` */
    constructor ()
      ensures Valid() && calls == [] && State() == Empty
    {
      nodes := [];
      adj := map[];
      calls := [];
    }

    /** `G.add_edge(u, v)` */
    method AddEdge(u: Node, v: Node)
      requires Valid()
      modifies this
      ensures Valid() && calls == old(calls) + [(u, v)]
      ensures State() == old(State()).AddEdge(u, v)
    {
      ReplayKeysAreNodes(calls);
      ReplaySnoc(calls, (u, v));
      if u !in nodes {
        nodes := nodes + [u];
        adj := adj[u := []];
      }
      if v !in nodes {
        nodes := nodes + [v];
        adj := adj[v := []];
      }
      adj := adj[u := Insert(adj[u], v)];
      adj := adj[v := Insert(adj[v], u)];
      calls := calls + [(u, v)];
    }
  }
}
