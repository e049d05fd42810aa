/**
  The ledger the Character Web view draws, worked through: the seven add_edge
  calls it makes, the node order and neighbour lists they leave, and the edge
  list the view walks.

  The computation is done once over five arbitrary distinct names and then applied
  to the view's own five characters.
*/
module ShownLedger {
  import opened NxGraph
  import opened CharacterWeb

  /** The seven calls the shown ledger makes, over five distinct names: a star
      around `o`, the star's first two spokes again, and the pair `c`-`s`. */
  function ShownCalls(o: Node, c: Node, s: Node, m: Node, f: Node): seq<(Node, Node)>
  {
    [(o, c), (o, s), (o, m), (o, f), (o, c), (o, s), (c, s)]
  }

  predicate FiveDistinct(o: Node, c: Node, s: Node, m: Node, f: Node)
  {
    o != c && o != s && o != m && o != f && c != s && c != m && c != f && s != m && s != f && m != f
  }

  lemma EndpointsOne(p: (Node, Node))
    ensures Endpoints([p]) == [p.0, p.1]
  {
    assert [p][..0] == [];
  }

  lemma EndpointsTwo(p: (Node, Node), q: (Node, Node))
    ensures Endpoints([p, q]) == [p.0, p.1, q.0, q.1]
  {
    assert [p, q] == [p] + [q];
    EndpointsAppend([p], [q]);
    EndpointsOne(p);
    EndpointsOne(q);
  }

  /** The endpoints of the seven calls, in call order. */
  lemma ShownEndpoints(o: Node, c: Node, s: Node, m: Node, f: Node)
    ensures Endpoints(ShownCalls(o, c, s, m, f)) == [o, c, o, s, o, m, o, f] + [o, c, o, s, c, s]
  {
    var star := [(o, c), (o, s), (o, m), (o, f)];
    var rest := [(o, c), (o, s), (c, s)];
    assert ShownCalls(o, c, s, m, f) == star + rest;
    EndpointsAppend(star, rest);
    assert star == [(o, c), (o, s)] + [(o, m), (o, f)];
    EndpointsAppend([(o, c), (o, s)], [(o, m), (o, f)]);
    EndpointsTwo((o, c), (o, s));
    EndpointsTwo((o, m), (o, f));
    assert rest == [(o, c), (o, s)] + [(c, s)];
    EndpointsAppend([(o, c), (o, s)], [(c, s)]);
    EndpointsOne((c, s));
  }

  lemma SeenTwo(o: Node, c: Node)
    requires o != c
    ensures FirstSeen([o, c]) == [o, c]
  {
    FirstSeenOfDistinct([o, c]);
  }

  lemma SeenFour(o: Node, c: Node, s: Node)
    requires o != c && o != s && c != s
    ensures FirstSeen([o, c, o, s]) == [o, c, s]
  {
    SeenTwo(o, c);
    FirstSeenSnoc([o, c], o);
    assert [o, c] + [o] == [o, c, o];
    FirstSeenSnoc([o, c, o], s);
    assert [o, c, o] + [s] == [o, c, o, s];
  }

  lemma SeenSix(o: Node, c: Node, s: Node, m: Node)
    requires o != c && o != s && c != s && o != m && c != m && s != m
    ensures FirstSeen([o, c, o, s, o, m]) == [o, c, s, m]
  {
    SeenFour(o, c, s);
    FirstSeenSnoc([o, c, o, s], o);
    assert [o, c, o, s] + [o] == [o, c, o, s, o];
    FirstSeenSnoc([o, c, o, s, o], m);
    assert [o, c, o, s, o] + [m] == [o, c, o, s, o, m];
  }

  lemma SeenEight(o: Node, c: Node, s: Node, m: Node, f: Node)
    requires FiveDistinct(o, c, s, m, f)
    ensures FirstSeen([o, c, o, s, o, m, o, f]) == [o, c, s, m, f]
  {
    SeenSix(o, c, s, m);
    FirstSeenSnoc([o, c, o, s, o, m], o);
    assert [o, c, o, s, o, m] + [o] == [o, c, o, s, o, m, o];
    FirstSeenSnoc([o, c, o, s, o, m, o], f);
    assert [o, c, o, s, o, m, o] + [f] == [o, c, o, s, o, m, o, f];
  }

  /** Node order after the seven calls: first-seen order of the endpoints. */
  lemma ShownNodes(o: Node, c: Node, s: Node, m: Node, f: Node)
    requires FiveDistinct(o, c, s, m, f)
    ensures Replay(ShownCalls(o, c, s, m, f)).nodes == [o, c, s, m, f]
  {
    var e := [o, c, o, s, o, m, o, f];
    ReplayNodes(ShownCalls(o, c, s, m, f));
    ShownEndpoints(o, c, s, m, f);
    SeenEight(o, c, s, m, f);
    FirstSeenAbsorbs(e, [o, c, o, s, c, s]);
  }

  lemma SingleCallPartners(p: (Node, Node), x: Node)
    ensures Partners([p], x) == (if p.0 == x then [p.1] else []) + (if p.1 == x then [p.0] else [])
  {
    assert [p][..0] == [];
  }

  /** Each name's partners over the seven calls, one call at a time. */
  lemma ShownPartners(o: Node, c: Node, s: Node, m: Node, f: Node, x: Node)
    ensures Partners(ShownCalls(o, c, s, m, f), x) ==
      Partners([(o, c)], x) + Partners([(o, s)], x) + Partners([(o, m)], x) + Partners([(o, f)], x) +
      Partners([(o, c)], x) + Partners([(o, s)], x) + Partners([(c, s)], x)
  {
    var calls := ShownCalls(o, c, s, m, f);
    assert calls == [calls[0]] + [calls[1]] + [calls[2]] + [calls[3]] + [calls[4]] + [calls[5]] + [calls[6]];
    PartnersAppend([calls[0]], [calls[1]], x);
    PartnersAppend([calls[0]] + [calls[1]], [calls[2]], x);
    PartnersAppend([calls[0]] + [calls[1]] + [calls[2]], [calls[3]], x);
    PartnersAppend([calls[0]] + [calls[1]] + [calls[2]] + [calls[3]], [calls[4]], x);
    PartnersAppend([calls[0]] + [calls[1]] + [calls[2]] + [calls[3]] + [calls[4]], [calls[5]], x);
    PartnersAppend([calls[0]] + [calls[1]] + [calls[2]] + [calls[3]] + [calls[4]] + [calls[5]], [calls[6]], x);
  }

  lemma CentrePartners(o: Node, c: Node, s: Node, m: Node, f: Node)
    requires FiveDistinct(o, c, s, m, f)
    ensures Partners(ShownCalls(o, c, s, m, f), o) == [c, s, m, f] + [c, s]
  {
    ShownPartners(o, c, s, m, f, o);
    SingleCallPartners((o, c), o);
    SingleCallPartners((o, s), o);
    SingleCallPartners((o, m), o);
    SingleCallPartners((o, f), o);
    SingleCallPartners((c, s), o);
  }

  lemma PairPartners(o: Node, c: Node, s: Node, m: Node, f: Node, x: Node, y: Node)
    requires FiveDistinct(o, c, s, m, f)
    requires (x, y) == (c, s) || (x, y) == (s, c)
    ensures Partners(ShownCalls(o, c, s, m, f), x) == [o] + [o] + [y]
  {
    ShownPartners(o, c, s, m, f, x);
    SingleCallPartners((o, c), x);
    SingleCallPartners((o, s), x);
    SingleCallPartners((o, m), x);
    SingleCallPartners((o, f), x);
    SingleCallPartners((c, s), x);
  }

  lemma SpokePartners(o: Node, c: Node, s: Node, m: Node, f: Node, x: Node)
    requires FiveDistinct(o, c, s, m, f)
    requires x == m || x == f
    ensures Partners(ShownCalls(o, c, s, m, f), x) == [o]
  {
    ShownPartners(o, c, s, m, f, x);
    SingleCallPartners((o, c), x);
    SingleCallPartners((o, s), x);
    SingleCallPartners((o, m), x);
    SingleCallPartners((o, f), x);
    SingleCallPartners((c, s), x);
  }

  lemma CentreNeighbours(o: Node, c: Node, s: Node, m: Node, f: Node)
    requires FiveDistinct(o, c, s, m, f)
    ensures Replay(ShownCalls(o, c, s, m, f)).Neighbours(o) == [c, s, m, f]
  {
    CentrePartners(o, c, s, m, f);
    FirstSeenOfDistinct([c, s, m, f]);
    FirstSeenAbsorbs([c, s, m, f], [c, s]);
    ReplayNeighbours(ShownCalls(o, c, s, m, f), o);
  }

  lemma PairNeighbours(o: Node, c: Node, s: Node, m: Node, f: Node, x: Node, y: Node)
    requires FiveDistinct(o, c, s, m, f)
    requires (x, y) == (c, s) || (x, y) == (s, c)
    ensures Replay(ShownCalls(o, c, s, m, f)).Neighbours(x) == [o, y]
  {
    PairPartners(o, c, s, m, f, x, y);
    SeenTwiceThenOther(o, y);
    ReplayNeighbours(ShownCalls(o, c, s, m, f), x);
  }

  /** Seeing o twice and then another name y leaves o, y. */
  lemma SeenTwiceThenOther(o: Node, y: Node)
    requires o != y
    ensures FirstSeen([o] + [o] + [y]) == [o, y]
  {
    assert [o] + [o] + [y] == [o, o] + [y];
    FirstSeenSnoc([o, o], y);
    assert [o, o] == [o] + [o];
    FirstSeenSnoc([o], o);
    assert [o] == [] + [o];
    FirstSeenSnoc([], o);
  }

  lemma SpokeNeighbours(o: Node, c: Node, s: Node, m: Node, f: Node, x: Node)
    requires FiveDistinct(o, c, s, m, f)
    requires x == m || x == f
    ensures Replay(ShownCalls(o, c, s, m, f)).Neighbours(x) == [o]
  {
    SpokePartners(o, c, s, m, f, x);
    FirstSeenOfDistinct([o]);
    ReplayNeighbours(ShownCalls(o, c, s, m, f), x);
  }

  lemma UnwalkedCons(n: Node, w: Node, ws: seq<Node>, walked: seq<Node>)
    ensures Unwalked(n, [w] + ws, walked) == (if w in walked then [] else [(n, w)]) + Unwalked(n, ws, walked)
  {
    assert ([w] + ws)[0] == w && ([w] + ws)[1..] == ws;
  }

  lemma UnwalkedOne(n: Node, w: Node, walked: seq<Node>)
    ensures Unwalked(n, [w], walked) == if w in walked then [] else [(n, w)]
  {
    assert [w][1..] == [];
  }

  lemma UnwalkedTwo(n: Node, v: Node, w: Node, walked: seq<Node>)
    ensures Unwalked(n, [v, w], walked) ==
      (if v in walked then [] else [(n, v)]) + (if w in walked then [] else [(n, w)])
  {
    assert [v, w] == [v] + [w];
    UnwalkedCons(n, v, [w], walked);
    UnwalkedOne(n, w, walked);
  }

  lemma UnwalkedFour(n: Node, a: Node, b: Node, v: Node, w: Node, walked: seq<Node>)
    requires a !in walked && b !in walked && v !in walked && w !in walked
    ensures Unwalked(n, [a, b, v, w], walked) == [(n, a), (n, b), (n, v), (n, w)]
  {
    assert [a, b, v, w] == [a] + [b, v, w];
    assert [b, v, w] == [b] + [v, w];
    UnwalkedCons(n, a, [b, v, w], walked);
    UnwalkedCons(n, b, [v, w], walked);
    UnwalkedTwo(n, v, w, walked);
  }

  /** Walking the later nodes, which reports the pair c-s and nothing else. */
  lemma FiveNodeViewRest(g: Snapshot, o: Node, c: Node, s: Node, m: Node, f: Node)
    requires FiveDistinct(o, c, s, m, f)
    requires g.nodes == [o, c, s, m, f]
    requires g.Neighbours(m) == [o] && g.Neighbours(f) == [o]
    ensures g.EdgesFrom(3) == []
  {
    assert g.EdgesFrom(5) == [];
    assert g.EdgesFrom(4) == [] by {
      assert g.nodes[..4] == [o, c, s, m];
      UnwalkedOne(f, o, [o, c, s, m]);
    }
    assert g.nodes[..3] == [o, c, s];
    UnwalkedOne(m, o, [o, c, s]);
  }

  lemma FiveNodeViewTail(g: Snapshot, o: Node, c: Node, s: Node, m: Node, f: Node)
    requires FiveDistinct(o, c, s, m, f)
    requires g.nodes == [o, c, s, m, f]
    requires g.Neighbours(c) == [o, s] && g.Neighbours(s) == [o, c]
    requires g.Neighbours(m) == [o] && g.Neighbours(f) == [o]
    ensures g.EdgesFrom(1) == [(c, s)]
  {
    FiveNodeViewRest(g, o, c, s, m, f);
    assert g.EdgesFrom(2) == [] by {
      assert g.nodes[..2] == [o, c];
      UnwalkedTwo(s, o, c, [o, c]);
    }
    assert g.nodes[..1] == [o];
    UnwalkedTwo(c, o, s, [o]);
  }

  /** The edge walk of any graph with these node and neighbour lists. */
  lemma FiveNodeView(g: Snapshot, o: Node, c: Node, s: Node, m: Node, f: Node)
    requires FiveDistinct(o, c, s, m, f)
    requires g.nodes == [o, c, s, m, f]
    requires g.Neighbours(o) == [c, s, m, f] && g.Neighbours(c) == [o, s] && g.Neighbours(s) == [o, c]
    requires g.Neighbours(m) == [o] && g.Neighbours(f) == [o]
    ensures g.EdgeView() == [(o, c), (o, s), (o, m), (o, f), (c, s)]
  {
    FiveNodeViewTail(g, o, c, s, m, f);
    assert g.nodes[..0] == [];
    UnwalkedFour(o, c, s, m, f, []);
  }

  /** The edge view after the seven calls lists each of the five pairs once. */
  lemma ShownWeb(o: Node, c: Node, s: Node, m: Node, f: Node)
    requires FiveDistinct(o, c, s, m, f)
    ensures Replay(ShownCalls(o, c, s, m, f)).nodes == [o, c, s, m, f]
    ensures Replay(ShownCalls(o, c, s, m, f)).EdgeView() == [(o, c), (o, s), (o, m), (o, f), (c, s)]
    ensures |Replay(ShownCalls(o, c, s, m, f)).Edges()| == 5
  {
    var g := Replay(ShownCalls(o, c, s, m, f));
    ShownNodes(o, c, s, m, f);
    CentreNeighbours(o, c, s, m, f);
    PairNeighbours(o, c, s, m, f, c, s);
    PairNeighbours(o, c, s, m, f, s, c);
    SpokeNeighbours(o, c, s, m, f, m);
    SpokeNeighbours(o, c, s, m, f, f);
    FiveNodeView(g, o, c, s, m, f);
    ReplayValid(ShownCalls(o, c, s, m, f));
    EdgeViewListsEachEdgeOnce(g);
  }

  const Offred: Node := "Offred"
  const Commander: Node := "The Commander"
  const Serina: Node := "Serina Joy"
  const Moira: Node := "Moira"
  const Ofglen: Node := "Ofglen"

  /** The seven add_edge calls the view makes, in order. */
  const InteractionCallList: seq<(Node, Node)> := ShownCalls(Offred, Commander, Serina, Moira, Ofglen)

  /** The shown ledger's shape over any five names and chapter labels: four
      pairs with the first name, then the first three names together. */
  function LedgerOf(ch: seq<string>, o: Node, c: Node, s: Node, m: Node, f: Node): seq<Record>
    requires |ch| == 5
  {
    [Record(ch[0], [o, c]), Record(ch[1], [o, s]), Record(ch[2], [o, m]), Record(ch[3], [o, f]),
     Record(ch[4], [o, c, s])]
  }

  /** The calls of the first four records of that shape. */
  lemma StarCalls(ch: seq<string>, o: Node, c: Node, s: Node, m: Node, f: Node)
    requires |ch| == 5
    ensures Calls(LedgerOf(ch, o, c, s, m, f)[..4]) == [(o, c), (o, s), (o, m), (o, f)]
  {
    var l := LedgerOf(ch, o, c, s, m, f);
    var r1, r2, r3, r4 := l[0], l[1], l[2], l[3];
    assert Calls([r1]) == [(o, c)] by {
      CallsSnoc([], r1);
      PairRecordCalls(o, c);
      assert [r1] == [] + [r1];
    }
    assert Calls([r1, r2]) == [(o, c), (o, s)] by {
      CallsSnoc([r1], r2);
      PairRecordCalls(o, s);
      assert [r1, r2] == [r1] + [r2];
    }
    assert Calls([r1, r2, r3]) == [(o, c), (o, s), (o, m)] by {
      CallsSnoc([r1, r2], r3);
      PairRecordCalls(o, m);
      assert [r1, r2, r3] == [r1, r2] + [r3];
    }
    CallsSnoc([r1, r2, r3], r4);
    PairRecordCalls(o, f);
    assert [r1, r2, r3, r4] == [r1, r2, r3] + [r4];
    assert l[..4] == [r1, r2, r3, r4];
  }

  /** The calls of a ledger of that shape are the seven shown calls. */
  lemma LedgerCalls(ch: seq<string>, o: Node, c: Node, s: Node, m: Node, f: Node)
    requires |ch| == 5
    ensures Calls(LedgerOf(ch, o, c, s, m, f)) == ShownCalls(o, c, s, m, f)
  {
    var l := LedgerOf(ch, o, c, s, m, f);
    StarCalls(ch, o, c, s, m, f);
    CallsSnoc(l[..4], l[4]);
    TripleRecordCalls(o, c, s);
    assert l == l[..4] + [l[4]];
  }

  /** The order of the seven add_edge calls the shown ledger makes. */
  lemma InteractionCalls()
    ensures Calls(Interactions) == InteractionCallList
  {
    var ch := ["Chapter 1", "Chapter 2", "Chapter 3", "Chapter 4", "Chapter 5"];
    assert Interactions == LedgerOf(ch, Offred, Commander, Serina, Moira, Ofglen);
    LedgerCalls(ch, Offred, Commander, Serina, Moira, Ofglen);
  }


  /** The graph the view draws: five nodes in first-seen order and five edges; the
      repeated pairs of Chapter 5 add nothing. */
  lemma InteractionWeb()
    ensures Web(Interactions).nodes == [Offred, Commander, Serina, Moira, Ofglen]
    ensures Web(Interactions).EdgeView() ==
      [(Offred, Commander), (Offred, Serina), (Offred, Moira), (Offred, Ofglen), (Commander, Serina)]
    ensures |Web(Interactions).Edges()| == 5
  {
    InteractionCalls();
    ShownWeb(Offred, Commander, Serina, Moira, Ofglen);
  }
}
