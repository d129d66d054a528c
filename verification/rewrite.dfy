/**
  The graph surgery of `GraphGrammar._replace_node` and of the empty-rule
  branch of `apply_rule`, as functions of the graph value and the id
  counter. A rule's patch is a graph with local ids; the anchors are the
  patch nodes that take over the replaced node's incoming edges (parent
  anchor) and outgoing edges (child anchor).
*/
module Rewrite {
  import opened Symbols
  import opened Digraphs

  predicate Injective(m: map<int, int>)
  {
    forall a, b :: a in m && b in m && a != b ==> m[a] != m[b]
  }

  /** Every value of `m` lies in the half-open range (lo, hi]. */
  predicate ValuesIn(m: map<int, int>, lo: int, hi: int)
  {
    forall k :: k in m ==> lo < m[k] <= hi
  }

  /** The ids drawn for the anchors: `{child: counter + 1, parent: ...}`, a second id only for a distinct parent anchor. */
  function AnchorIds(child: int, parent: int, counter: int): (m: map<int, int>)
  {
    map[child := counter + 1][parent := if parent != child then counter + 2 else counter + 1]
  }

  /** The counter once the anchors have drawn their ids. */
  function AnchorCounter(child: int, parent: int, counter: int): int
  {
    if parent != child then counter + 2 else counter + 1
  }

  lemma AnchorIdsFresh(child: int, parent: int, counter: int)
    ensures AnchorIds(child, parent, counter).Keys == {child, parent}
    ensures Injective(AnchorIds(child, parent, counter))
    ensures ValuesIn(AnchorIds(child, parent, counter), counter, AnchorCounter(child, parent, counter))
    ensures AnchorCounter(child, parent, counter) - counter == |AnchorIds(child, parent, counter)|
  {
  }

  /**
    The loop over the patch nodes: every node without an id yet draws the
    next one from the counter. Gives the final map and the final counter.
  */
  function Relabel(nodes: seq<int>, m: map<int, int>, counter: int): (int, map<int, int>)
    decreases |nodes|
  {
    if |nodes| == 0 then (counter, m)
    else if nodes[0] in m then Relabel(nodes[1..], m, counter)
    else Relabel(nodes[1..], m[nodes[0] := counter + 1], counter + 1)
  }

  /**
    The relabelling keeps the ids it started with, gives every patch node an
    id, draws each new id from the counter, never gives two nodes one id, and
    advances the counter by exactly the number of ids it drew.
  */
  lemma {:induction false} RelabelFresh(nodes: seq<int>, m: map<int, int>, lo: int, counter: int)
    requires lo <= counter && ValuesIn(m, lo, counter) && Injective(m)
    ensures var c := Relabel(nodes, m, counter).0;
      var r := Relabel(nodes, m, counter).1;
      && (forall k :: k in r <==> k in m || k in nodes)
      && (forall k :: k in m ==> k in r && r[k] == m[k])
      && ValuesIn(r, lo, c)
      && (forall k :: k in r && k !in m ==> counter < r[k])
      && Injective(r)
      && c - counter == |r| - |m|
    decreases |nodes|
  {
    if |nodes| > 0 {
      assert nodes == [nodes[0]] + nodes[1..];
      if nodes[0] in m {
        RelabelFresh(nodes[1..], m, lo, counter);
      } else {
        var x := nodes[0];
        var m' := m[x := counter + 1];
        assert ValuesIn(m', lo, counter + 1);
        assert Injective(m');
        assert |m'| == |m| + 1;
        RelabelFresh(nodes[1..], m', lo, counter + 1);
      }
    }
  }

  /** `[m[n] for n in ns]`: the relabelled node order. */
  function MapNodes(ns: seq<int>, m: map<int, int>): (r: seq<int>)
    requires forall n :: n in ns ==> n in m
    ensures |r| == |ns|
    ensures forall i :: 0 <= i < |ns| ==> ns[i] in m && r[i] == m[ns[i]]
  {
    if |ns| == 0 then [] else
      var n := ns[|ns| - 1];
      assert n in ns;
      MapNodes(ns[..|ns| - 1], m) + [m[n]]
  }

  /** The relabelled edge list. */
  function MapEdges(es: seq<Edge>, m: map<int, int>): (r: seq<Edge>)
    requires forall e :: e in es ==> e.0 in m && e.1 in m
    ensures |r| == |es|
    ensures forall i :: 0 <= i < |es| ==> es[i] in es && r[i] == (m[es[i].0], m[es[i].1])
  {
    if |es| == 0 then [] else
      var e := es[|es| - 1];
      assert e in es;
      MapEdges(es[..|es| - 1], m) + [(m[e.0], m[e.1])]
  }

  /**
    The order networkx lists a graph's edges in: node by node, each node's
    outgoing edges in successor order.
  */
  function EdgeIteration(nodes: seq<int>, edges: seq<Edge>): (r: seq<Edge>)
    ensures forall e :: e in r <==> e in edges && e.0 in nodes
    ensures Distinct(nodes) && Distinct(edges) ==> Distinct(r)
  {
    if |nodes| == 0 then [] else
      var n := nodes[|nodes| - 1];
      var init := nodes[..|nodes| - 1];
      assert nodes == init + [n];
      var r := EdgeIteration(init, edges);
      if Distinct(nodes) && Distinct(edges) then
        assert n !in init;
        DistinctConcat(r, OutEdges(edges, n));
        r + OutEdges(edges, n)
      else
        r + OutEdges(edges, n)
  }

  /** The relabelled patch's node symbols, under the new ids. */
  function MapSymbols(patch: Digraph, m: map<int, int>): (r: map<int, Node>)
    requires forall n :: n in patch.nodes ==> n in m && n in patch.symbol
    requires Injective(m)
    ensures forall k :: k in r <==> exists n :: n in patch.nodes && m[n] == k
    ensures forall n :: n in patch.nodes ==> r[m[n]] == patch.symbol[n]
  {
    map n | n in patch.nodes :: m[n] := patch.symbol[n]
  }

  /** The replaced node's incoming edges, in predecessor order, now ending at the parent anchor `pa`. */
  function RedirectIn(edges: seq<Edge>, t: int, pa: int): (r: seq<Edge>)
    ensures forall e :: e in r <==> e.1 == pa && (e.0, t) in edges
    ensures Distinct(edges) ==> Distinct(r)
  {
    if |edges| == 0 then [] else
      var e := edges[|edges| - 1];
      var init := edges[..|edges| - 1];
      assert edges == init + [e];
      var r := RedirectIn(init, t, pa);
      if e.1 != t then r
      else if Distinct(edges) then
        assert e !in init;
        DistinctConcat(r, [(e.0, pa)]);
        r + [(e.0, pa)]
      else r + [(e.0, pa)]
  }

  /** The replaced node's outgoing edges, in successor order, now leaving the child anchor `ca`. */
  function RedirectOut(edges: seq<Edge>, t: int, ca: int): (r: seq<Edge>)
    ensures forall e :: e in r <==> e.0 == ca && (t, e.1) in edges
    ensures Distinct(edges) ==> Distinct(r)
  {
    if |edges| == 0 then [] else
      var e := edges[|edges| - 1];
      var init := edges[..|edges| - 1];
      assert edges == init + [e];
      var r := RedirectOut(init, t, ca);
      if e.0 != t then r
      else if Distinct(edges) then
        assert e !in init;
        DistinctConcat(r, [(ca, e.1)]);
        r + [(ca, e.1)]
      else r + [(ca, e.1)]
  }

  /** A rule patch `_replace_node` can splice in: a well-formed graph holding both anchors. */
  ghost predicate SplicablePatch(patch: Digraph, child: int, parent: int)
  {
    WellFormed(patch) && child in patch.symbol && parent in patch.symbol
  }

  /** Every id of the graph is at most `c`: the ids the counter has already handed out. */
  ghost predicate IdsAtMost(g: Digraph, c: int)
  {
    forall v :: v in g.symbol ==> v <= c
  }

  /** `m` gives the patch nodes, and nothing else, distinct ids above `counter` and at most `c`. */
  ghost predicate FreshIds(patch: Digraph, m: map<int, int>, counter: int, c: int)
  {
    (forall k :: k in m <==> k in patch.symbol) && ValuesIn(m, counter, c) && Injective(m)
  }

  /** A design graph together with the last id its counter handed out. */
  datatype GrammarState = GrammarState(graph: Digraph, counter: int)

  /** The final relabelling of a patch: anchors first, then the other nodes in patch order. */
  function PatchIds(patch: Digraph, child: int, parent: int, counter: int): (int, map<int, int>)
  {
    Relabel(patch.nodes, AnchorIds(child, parent, counter), AnchorCounter(child, parent, counter))
  }

  /** The node order after the splice: the surviving nodes, then the relabelled patch nodes. */
  function SplicedNodes(g: Digraph, t: int, patch: Digraph, m: map<int, int>): seq<int>
    requires forall n :: n in patch.nodes ==> n in m
  {
    NodesWithout(g.nodes, t) + MapNodes(patch.nodes, m)
  }

  /** The symbols after the splice. */
  function SplicedSymbols(g: Digraph, t: int, patch: Digraph, m: map<int, int>): map<int, Node>
    requires forall n :: n in patch.nodes ==> n in m && n in patch.symbol
    requires Injective(m)
  {
    (g.symbol - {t}) + MapSymbols(patch, m)
  }

  /**
    The edge order after the splice: the surviving edges, the relabelled
    patch edges, the redirected incoming and then outgoing edges of `t`.
  */
  function SplicedEdges(g: Digraph, t: int, patch: Digraph, m: map<int, int>, ca: int, pa: int): seq<Edge>
    requires forall e :: e in patch.edges ==> e.0 in m && e.1 in m
  {
    EdgesAvoiding(g.edges, t) + MapEdges(EdgeIteration(patch.nodes, patch.edges), m)
      + RedirectIn(g.edges, t, pa) + RedirectOut(g.edges, t, ca)
  }

  /**
    `_replace_node(t, rule)`: remove `t`, add the relabelled patch nodes and
    then its edges, then the old incoming edges of `t` redirected to the
    parent anchor and its old outgoing edges redirected from the child anchor.
  */
  function Splice(g: Digraph, t: int, patch: Digraph, child: int, parent: int, counter: int): GrammarState
    requires SplicablePatch(patch, child, parent)
  {
    var ids := PatchIds(patch, child, parent, counter);
    var m := ids.1;
    PatchIdsFresh(patch, child, parent, counter);
    var ca := counter + 1;
    var pa := AnchorCounter(child, parent, counter);
    GrammarState(Digraph(SplicedNodes(g, t, patch, m), SplicedSymbols(g, t, patch, m), SplicedEdges(g, t, patch, m, ca, pa)), ids.0)
  }

  /** `remove_node(t)`: the node and every edge touching it disappear. */
  function RemoveNode(g: Digraph, t: int): Digraph
  {
    Digraph(NodesWithout(g.nodes, t), g.symbol - {t}, EdgesAvoiding(g.edges, t))
  }

  /**
    The patch relabelling draws fresh, distinct ids for exactly the patch
    nodes: `counter + 1` for the child anchor, the next one for a distinct
    parent anchor, and one per node, so the counter advances by the number
    of patch nodes.
  */
  lemma PatchIdsFresh(patch: Digraph, child: int, parent: int, counter: int)
    requires SplicablePatch(patch, child, parent)
    ensures var (c, m) := PatchIds(patch, child, parent, counter);
      && FreshIds(patch, m, counter, c)
      && child in m && m[child] == counter + 1
      && parent in m && m[parent] == AnchorCounter(child, parent, counter)
      && c - counter == |m|
  {
    AnchorIdsFresh(child, parent, counter);
    RelabelFresh(patch.nodes, AnchorIds(child, parent, counter), counter, AnchorCounter(child, parent, counter));
  }

  /** A list without repetition has as many distinct elements as entries. */
  lemma {:induction false} DistinctCount(s: seq<int>)
    requires Distinct(s)
    ensures |set x | x in s| == |s|
  {
    if |s| > 0 {
      var init := s[..|s| - 1];
      var x := s[|s| - 1];
      assert s == init + [x];
      DistinctCount(init);
      assert (set y | y in s) == (set y | y in init) + {x};
    }
  }

  /** `_replace_node` advances the id counter by the number of patch nodes. */
  lemma SpliceCounter(g: Digraph, t: int, patch: Digraph, child: int, parent: int, counter: int)
    requires SplicablePatch(patch, child, parent)
    ensures Splice(g, t, patch, child, parent, counter).counter == counter + |patch.nodes|
  {
    PatchIdsFresh(patch, child, parent, counter);
    var m := PatchIds(patch, child, parent, counter).1;
    DistinctCount(patch.nodes);
    assert forall k :: k in m.Keys <==> k in patch.nodes;
    assert m.Keys == set x | x in patch.nodes;
  }

  /** Relabelling under an injective map keeps a node list free of repetition. */
  lemma MapNodesDistinct(ns: seq<int>, m: map<int, int>)
    requires (forall n :: n in ns ==> n in m) && Injective(m) && Distinct(ns)
    ensures Distinct(MapNodes(ns, m))
  {
    var r := MapNodes(ns, m);
    forall i, j | 0 <= i < j < |r| ensures r[i] != r[j] {
      var a := ns[i];
      var b := ns[j];
      assert a in ns && b in ns && a != b;
      assert r[i] == m[a] && r[j] == m[b];
    }
  }

  /** Relabelling under an injective map keeps an edge list free of repetition. */
  lemma MapEdgesDistinct(es: seq<Edge>, m: map<int, int>)
    requires (forall e :: e in es ==> e.0 in m && e.1 in m) && Injective(m) && Distinct(es)
    ensures Distinct(MapEdges(es, m))
  {
    var r := MapEdges(es, m);
    forall i, j | 0 <= i < j < |r| ensures r[i] != r[j] {
      var a := es[i];
      var b := es[j];
      assert a in es && b in es && a != b;
      assert r[i] == (m[a.0], m[a.1]) && r[j] == (m[b.0], m[b.1]);
      if a.0 != b.0 {
        assert m[a.0] != m[b.0];
      } else {
        assert a.1 != b.1;
        assert m[a.1] != m[b.1];
      }
    }
  }

  /** The edges `remove_node(t)` keeps join two distinct old nodes other than `t`. */
  lemma KeptEdgesProper(g: Digraph, t: int, counter: int)
    requires WellFormed(g) && IdsAtMost(g, counter)
    ensures forall e :: e in EdgesAvoiding(g.edges, t) ==>
      e.0 in g.symbol && e.1 in g.symbol && e.0 != t && e.1 != t && e.0 != e.1 && e.0 <= counter && e.1 <= counter
  {
  }

  /** The relabelled patch edges join two distinct relabelled patch nodes, all above `counter`. */
  lemma PatchEdgesProper(patch: Digraph, m: map<int, int>, counter: int, c: int)
    requires WellFormed(patch) && FreshIds(patch, m, counter, c)
    ensures forall e :: e in MapEdges(EdgeIteration(patch.nodes, patch.edges), m) ==>
      e.0 in MapSymbols(patch, m) && e.1 in MapSymbols(patch, m) && e.0 != e.1 && counter < e.0 && counter < e.1
  {
    var pe := EdgeIteration(patch.nodes, patch.edges);
    var e2 := MapEdges(pe, m);
    forall e | e in e2
      ensures e.0 in MapSymbols(patch, m) && e.1 in MapSymbols(patch, m) && e.0 != e.1 && counter < e.0 && counter < e.1
    {
      var i :| 0 <= i < |e2| && e2[i] == e;
      assert pe[i] in pe;
      assert pe[i].0 in patch.nodes && pe[i].1 in patch.nodes;
    }
  }

  /** The old neighbours of `t` are old nodes other than `t`. */
  lemma NeighboursProper(g: Digraph, t: int, counter: int)
    requires WellFormed(g) && IdsAtMost(g, counter)
    ensures forall p :: (p, t) in g.edges ==> p in g.symbol && p != t && p <= counter
    ensures forall q :: (t, q) in g.edges ==> q in g.symbol && q != t && q <= counter
  {
    forall p | (p, t) in g.edges ensures p in g.symbol && p != t && p <= counter {
      assert (p, t).0 == p;
    }
    forall q | (t, q) in g.edges ensures q in g.symbol && q != t && q <= counter {
      assert (t, q).1 == q;
    }
  }

  /** Relabelled nodes carry ids above `counter`. */
  lemma MapNodesAbove(ns: seq<int>, m: map<int, int>, counter: int, c: int)
    requires (forall n :: n in ns ==> n in m) && ValuesIn(m, counter, c)
    ensures forall y :: y in MapNodes(ns, m) ==> counter < y
  {
    var r := MapNodes(ns, m);
    forall y | y in r ensures counter < y {
      var i :| 0 <= i < |r| && r[i] == y;
    }
  }

  /** The nodes after the splice do not repeat. */
  lemma SpliceNodesDistinct(g: Digraph, t: int, patch: Digraph, m: map<int, int>, counter: int, c: int)
    requires WellFormed(g) && IdsAtMost(g, counter) && WellFormed(patch) && FreshIds(patch, m, counter, c)
    ensures Distinct(SplicedNodes(g, t, patch, m))
  {
    var kept := NodesWithout(g.nodes, t);
    var added := MapNodes(patch.nodes, m);
    MapNodesDistinct(patch.nodes, m);
    MapNodesAbove(patch.nodes, m, counter, c);
    assert forall x :: x in kept ==> x in g.nodes;
    DistinctConcat(kept, added);
  }

  /** The nodes after the splice are exactly the ids that carry a symbol. */
  lemma SpliceNodesExact(g: Digraph, t: int, patch: Digraph, m: map<int, int>, counter: int, c: int)
    requires WellFormed(g) && WellFormed(patch) && FreshIds(patch, m, counter, c)
    ensures forall v :: v in SplicedNodes(g, t, patch, m) <==> v in SplicedSymbols(g, t, patch, m)
  {
    var added := MapNodes(patch.nodes, m);
    forall v | v in added ensures v in MapSymbols(patch, m) {
      var i :| 0 <= i < |added| && added[i] == v;
      var n := patch.nodes[i];
      assert n in patch.nodes && m[n] == v;
    }
    forall v | v in MapSymbols(patch, m) ensures v in added {
      var n :| n in patch.nodes && m[n] == v;
      var i :| 0 <= i < |patch.nodes| && patch.nodes[i] == n;
      assert added[i] == v;
    }
  }

  /** The four edge blocks of the splice: each free of repetition, pairwise disjoint. */
  lemma SpliceEdgesDistinct(e1: seq<Edge>, e2: seq<Edge>, e3: seq<Edge>, e4: seq<Edge>, counter: int, ca: int, pa: int)
    requires Distinct(e1) && Distinct(e2) && Distinct(e3) && Distinct(e4)
    requires forall e :: e in e1 ==> e.0 <= counter && e.1 <= counter
    requires forall e :: e in e2 ==> counter < e.0 && counter < e.1
    requires forall e :: e in e3 ==> e.0 <= counter && e.1 == pa
    requires forall e :: e in e4 ==> e.0 == ca && e.1 <= counter
    requires counter < ca && counter < pa
    ensures Distinct(e1 + e2 + e3 + e4)
  {
    DistinctConcat(e1, e2);
    DistinctConcat(e1 + e2, e3);
    DistinctConcat(e1 + e2 + e3, e4);
  }

  /** The edges after the splice are free of repetition. */
  lemma SpliceEdgesDistinctAll(g: Digraph, t: int, patch: Digraph, m: map<int, int>, counter: int, c: int, ca: int, pa: int)
    requires WellFormed(g) && IdsAtMost(g, counter) && WellFormed(patch) && FreshIds(patch, m, counter, c)
    requires counter < ca && counter < pa
    ensures Distinct(SplicedEdges(g, t, patch, m, ca, pa))
  {
    var pe := EdgeIteration(patch.nodes, patch.edges);
    KeptEdgesProper(g, t, counter);
    PatchEdgesProper(patch, m, counter, c);
    NeighboursProper(g, t, counter);
    MapEdgesDistinct(pe, m);
    SpliceEdgesDistinct(EdgesAvoiding(g.edges, t), MapEdges(pe, m), RedirectIn(g.edges, t, pa), RedirectOut(g.edges, t, ca), counter, ca, pa);
  }

  /** Every edge after the splice joins two distinct nodes of the new graph. */
  lemma SpliceEdgesProper(g: Digraph, t: int, patch: Digraph, m: map<int, int>, counter: int, c: int, ca: int, pa: int)
    requires WellFormed(g) && IdsAtMost(g, counter) && WellFormed(patch) && FreshIds(patch, m, counter, c)
    requires ca in MapSymbols(patch, m) && pa in MapSymbols(patch, m) && counter < ca && counter < pa
    ensures forall e :: e in SplicedEdges(g, t, patch, m, ca, pa) ==>
      e.0 in SplicedSymbols(g, t, patch, m) && e.1 in SplicedSymbols(g, t, patch, m) && e.0 != e.1
  {
    var symbol := SplicedSymbols(g, t, patch, m);
    SplicedSymbolsKeys(g, t, patch, m);
    KeptEdgesInto(g, t, symbol);
    PatchEdgesProper(patch, m, counter, c);
    PatchEdgesInto(MapEdges(EdgeIteration(patch.nodes, patch.edges), m), MapSymbols(patch, m), symbol);
    RedirectedInto(g, t, counter, ca, pa, symbol);
    BlocksProper(EdgesAvoiding(g.edges, t), MapEdges(EdgeIteration(patch.nodes, patch.edges), m),
                 RedirectIn(g.edges, t, pa), RedirectOut(g.edges, t, ca), symbol);
  }

  /** The symbols after the splice: those of the surviving nodes and of the relabelled patch. */
  lemma SplicedSymbolsKeys(g: Digraph, t: int, patch: Digraph, m: map<int, int>)
    requires forall n :: n in patch.nodes ==> n in m && n in patch.symbol
    requires Injective(m)
    ensures forall v :: v in SplicedSymbols(g, t, patch, m) <==> (v in g.symbol && v != t) || v in MapSymbols(patch, m)
  {
  }

  lemma KeptEdgesInto(g: Digraph, t: int, symbol: map<int, Node>)
    requires WellFormed(g) && forall v :: v in g.symbol && v != t ==> v in symbol
    ensures forall e :: e in EdgesAvoiding(g.edges, t) ==> e.0 in symbol && e.1 in symbol && e.0 != e.1
  {
  }

  lemma PatchEdgesInto(es: seq<Edge>, inner: map<int, Node>, symbol: map<int, Node>)
    requires forall e :: e in es ==> e.0 in inner && e.1 in inner && e.0 != e.1
    requires forall v :: v in inner ==> v in symbol
    ensures forall e :: e in es ==> e.0 in symbol && e.1 in symbol && e.0 != e.1
  {
  }

  lemma RedirectedInto(g: Digraph, t: int, counter: int, ca: int, pa: int, symbol: map<int, Node>)
    requires WellFormed(g) && IdsAtMost(g, counter) && counter < ca && counter < pa
    requires ca in symbol && pa in symbol && forall v :: v in g.symbol && v != t ==> v in symbol
    ensures forall e :: e in RedirectIn(g.edges, t, pa) ==> e.0 in symbol && e.1 in symbol && e.0 != e.1
    ensures forall e :: e in RedirectOut(g.edges, t, ca) ==> e.0 in symbol && e.1 in symbol && e.0 != e.1
  {
    NeighboursProper(g, t, counter);
  }

  /** Blocks of edges that each join distinct nodes of `symbol` concatenate to such a list. */
  lemma BlocksProper(e1: seq<Edge>, e2: seq<Edge>, e3: seq<Edge>, e4: seq<Edge>, symbol: map<int, Node>)
    requires forall e :: e in e1 ==> e.0 in symbol && e.1 in symbol && e.0 != e.1
    requires forall e :: e in e2 ==> e.0 in symbol && e.1 in symbol && e.0 != e.1
    requires forall e :: e in e3 ==> e.0 in symbol && e.1 in symbol && e.0 != e.1
    requires forall e :: e in e4 ==> e.0 in symbol && e.1 in symbol && e.0 != e.1
    ensures forall e :: e in e1 + e2 + e3 + e4 ==> e.0 in symbol && e.1 in symbol && e.0 != e.1
  {
  }

  /**
    Splicing a well-formed patch into a well-formed graph whose ids the
    counter has all handed out gives a well-formed graph whose ids the new
    counter has all handed out.
  */
  lemma SpliceWellFormed(g: Digraph, t: int, patch: Digraph, child: int, parent: int, counter: int)
    requires WellFormed(g) && IdsAtMost(g, counter) && SplicablePatch(patch, child, parent)
    ensures WellFormed(Splice(g, t, patch, child, parent, counter).graph)
    ensures IdsAtMost(Splice(g, t, patch, child, parent, counter).graph, Splice(g, t, patch, child, parent, counter).counter)
    ensures counter < Splice(g, t, patch, child, parent, counter).counter
  {
    var (c, m) := PatchIds(patch, child, parent, counter);
    PatchIdsFresh(patch, child, parent, counter);
    var ca := counter + 1;
    var pa := AnchorCounter(child, parent, counter);
    assert ca in MapSymbols(patch, m) && pa in MapSymbols(patch, m);
    SpliceNodesDistinct(g, t, patch, m, counter, c);
    SpliceNodesExact(g, t, patch, m, counter, c);
    SpliceEdgesDistinctAll(g, t, patch, m, counter, c, ca, pa);
    SpliceEdgesProper(g, t, patch, m, counter, c, ca, pa);
    SpliceIdsBounded(g, t, patch, m, counter, c);
  }

  /** The ids after the splice are all at most the new counter. */
  lemma SpliceIdsBounded(g: Digraph, t: int, patch: Digraph, m: map<int, int>, counter: int, c: int)
    requires IdsAtMost(g, counter) && WellFormed(patch) && FreshIds(patch, m, counter, c) && counter <= c
    ensures IdsAtMost(Digraph([], SplicedSymbols(g, t, patch, m), []), c)
  {
    forall v | v in MapSymbols(patch, m) ensures v <= c {
      var n :| n in patch.nodes && m[n] == v;
    }
  }

  // ------------------------------------------------- what a splice does

  /** Removing one node of a list without repetition shortens it by one. */
  lemma {:induction false} NodesWithoutCount(nodes: seq<int>, t: int)
    requires Distinct(nodes) && t in nodes
    ensures |NodesWithout(nodes, t)| == |nodes| - 1
  {
    var init := nodes[..|nodes| - 1];
    var v := nodes[|nodes| - 1];
    assert nodes == init + [v];
    if v == t {
      assert t !in init;
      assert NodesWithout(init, t) == init by {
        NodesWithoutKeeps(init, t);
      }
    } else {
      assert t in init;
      NodesWithoutCount(init, t);
    }
  }

  /** Removing a node a list does not hold leaves the list as it is. */
  lemma {:induction false} NodesWithoutKeeps(nodes: seq<int>, t: int)
    requires t !in nodes
    ensures NodesWithout(nodes, t) == nodes
  {
    if |nodes| > 0 {
      var init := nodes[..|nodes| - 1];
      assert nodes == init + [nodes[|nodes| - 1]];
      NodesWithoutKeeps(init, t);
    }
  }

  /**
    `remove_node(t)` keeps the graph well formed and its ids below the
    counter, drops exactly `t`, and, when `t` is a leaf, exactly the edges
    into `t`.
  */
  lemma RemoveNodeEffect(g: Digraph, t: int, counter: int)
    requires WellFormed(g) && IdsAtMost(g, counter)
    ensures WellFormed(RemoveNode(g, t)) && IdsAtMost(RemoveNode(g, t), counter)
    ensures forall v :: v in RemoveNode(g, t).symbol <==> v in g.symbol && v != t
    ensures !HasChild(g.edges, t) ==> forall e :: e in RemoveNode(g, t).edges <==> e in g.edges && e.1 != t
    ensures t in g.nodes ==> |RemoveNode(g, t).nodes| == |g.nodes| - 1
  {
    if t in g.nodes {
      NodesWithoutCount(g.nodes, t);
    }
  }

  /**
    A splice removes the replaced node and leaves every other node with its
    symbol; each node it adds has an id above the old counter, at most the
    new one, and carries the symbol of a patch node.
  */
  lemma SpliceSymbols(g: Digraph, t: int, patch: Digraph, child: int, parent: int, counter: int)
    requires WellFormed(g) && IdsAtMost(g, counter) && SplicablePatch(patch, child, parent) && t in g.symbol
    ensures var s := Splice(g, t, patch, child, parent, counter);
      && t !in s.graph.symbol
      && (forall v :: v in g.symbol && v != t ==> v in s.graph.symbol && s.graph.symbol[v] == g.symbol[v])
      && (forall v :: v in s.graph.symbol && v !in g.symbol ==>
            counter < v <= s.counter && exists n :: n in patch.nodes && s.graph.symbol[v] == patch.symbol[n])
  {
    var (c, m) := PatchIds(patch, child, parent, counter);
    PatchIdsFresh(patch, child, parent, counter);
    SplicedSymbolsEffect(g, t, patch, m, counter, c);
    assert Splice(g, t, patch, child, parent, counter) ==
      GrammarState(Splice(g, t, patch, child, parent, counter).graph, c);
    assert Splice(g, t, patch, child, parent, counter).graph.symbol == SplicedSymbols(g, t, patch, m);
  }

  /** `SpliceSymbols` for a given relabelling `m` that draws its ids from `(counter, c]`. */
  lemma SplicedSymbolsEffect(g: Digraph, t: int, patch: Digraph, m: map<int, int>, counter: int, c: int)
    requires IdsAtMost(g, counter) && t in g.symbol && WellFormed(patch) && FreshIds(patch, m, counter, c)
    ensures var symbol := SplicedSymbols(g, t, patch, m);
      && t !in symbol
      && (forall v :: v in g.symbol && v != t ==> v in symbol && symbol[v] == g.symbol[v])
      && (forall v :: v in symbol && v !in g.symbol ==>
            counter < v <= c && exists n :: n in patch.nodes && symbol[v] == patch.symbol[n])
  {
    var added := MapSymbols(patch, m);
    var symbol := SplicedSymbols(g, t, patch, m);
    forall v | v in added ensures counter < v <= c {
      var n :| n in patch.nodes && m[n] == v;
    }
    forall v | v in symbol && v !in g.symbol
      ensures counter < v <= c && exists n :: n in patch.nodes && symbol[v] == patch.symbol[n]
    {
      assert v in added;
      var n :| n in patch.nodes && m[n] == v;
      assert symbol[v] == patch.symbol[n];
    }
  }

  /** The splice copies the patch: each patch node and patch edge appears under the new ids. */
  lemma SpliceCopiesPatch(g: Digraph, t: int, patch: Digraph, child: int, parent: int, counter: int)
    requires SplicablePatch(patch, child, parent)
    ensures var m := PatchIds(patch, child, parent, counter).1;
      var h := Splice(g, t, patch, child, parent, counter).graph;
      && (forall n :: n in patch.nodes ==> n in m && m[n] in h.symbol && h.symbol[m[n]] == patch.symbol[n])
      && (forall e :: e in patch.edges ==> e.0 in m && e.1 in m && (m[e.0], m[e.1]) in h.edges)
  {
    var (c, m) := PatchIds(patch, child, parent, counter);
    PatchIdsFresh(patch, child, parent, counter);
    var ca := counter + 1;
    var pa := AnchorCounter(child, parent, counter);
    PatchSymbolsCopied(g, t, patch, m);
    PatchEdgesCopied(patch, m);
    var h := Splice(g, t, patch, child, parent, counter).graph;
    assert h.symbol == SplicedSymbols(g, t, patch, m);
    assert h.edges == SplicedEdges(g, t, patch, m, ca, pa);
    BlockInSplicedEdges(g, t, patch, m, ca, pa);
  }

  lemma PatchSymbolsCopied(g: Digraph, t: int, patch: Digraph, m: map<int, int>)
    requires forall n :: n in patch.nodes ==> n in m && n in patch.symbol
    requires Injective(m)
    ensures forall n :: n in patch.nodes ==>
      m[n] in SplicedSymbols(g, t, patch, m) && SplicedSymbols(g, t, patch, m)[m[n]] == patch.symbol[n]
  {
    var added := MapSymbols(patch, m);
    forall n | n in patch.nodes
      ensures m[n] in SplicedSymbols(g, t, patch, m) && SplicedSymbols(g, t, patch, m)[m[n]] == patch.symbol[n]
    {
      assert m[n] in added;
    }
  }

  lemma PatchEdgesCopied(patch: Digraph, m: map<int, int>)
    requires WellFormed(patch) && forall k :: k in m <==> k in patch.symbol
    ensures forall e :: e in patch.edges ==>
      e.0 in m && e.1 in m && (m[e.0], m[e.1]) in MapEdges(EdgeIteration(patch.nodes, patch.edges), m)
  {
    var pe := EdgeIteration(patch.nodes, patch.edges);
    var copied := MapEdges(pe, m);
    forall e | e in patch.edges ensures e.0 in m && e.1 in m && (m[e.0], m[e.1]) in copied {
      assert e in pe;
      var i :| 0 <= i < |pe| && pe[i] == e;
      assert copied[i] == (m[e.0], m[e.1]);
    }
  }

  lemma BlockInSplicedEdges(g: Digraph, t: int, patch: Digraph, m: map<int, int>, ca: int, pa: int)
    requires forall e :: e in patch.edges ==> e.0 in m && e.1 in m
    ensures forall e :: e in MapEdges(EdgeIteration(patch.nodes, patch.edges), m) ==> e in SplicedEdges(g, t, patch, m, ca, pa)
  {
  }

  /** Every relabelled patch edge is the image of a patch edge. */
  lemma CopiedFromPatch(patch: Digraph, m: map<int, int>)
    requires forall e :: e in patch.edges ==> e.0 in m && e.1 in m
    ensures forall e :: e in MapEdges(EdgeIteration(patch.nodes, patch.edges), m) ==>
      exists q :: q in patch.edges && q.0 in m && q.1 in m && e == (m[q.0], m[q.1])
  {
    var pe := EdgeIteration(patch.nodes, patch.edges);
    var copied := MapEdges(pe, m);
    forall e | e in copied
      ensures exists q :: q in patch.edges && q.0 in m && q.1 in m && e == (m[q.0], m[q.1])
    {
      var i :| 0 <= i < |copied| && copied[i] == e;
      assert pe[i] in pe;
    }
  }

  /**
    The edges after a splice: every edge not touching the replaced node
    stays, each of its parents now points at the parent anchor's new id,
    each of its children hangs from the child anchor's new id, and any other
    edge is the image of a patch edge under the fresh ids.
  */
  lemma SpliceEdges(g: Digraph, t: int, patch: Digraph, child: int, parent: int, counter: int)
    requires WellFormed(g) && IdsAtMost(g, counter) && SplicablePatch(patch, child, parent)
    ensures var h := Splice(g, t, patch, child, parent, counter).graph;
      var ca := counter + 1;
      var pa := AnchorCounter(child, parent, counter);
      var m := PatchIds(patch, child, parent, counter).1;
      && (forall e :: e in g.edges && e.0 != t && e.1 != t ==> e in h.edges)
      && (forall u :: (u, t) in g.edges ==> (u, pa) in h.edges)
      && (forall w :: (t, w) in g.edges ==> (ca, w) in h.edges)
      && (forall e :: e in h.edges ==>
            || (e in g.edges && e.0 != t && e.1 != t)
            || (e.1 == pa && (e.0, t) in g.edges)
            || (e.0 == ca && (t, e.1) in g.edges)
            || (counter < e.0 && counter < e.1 &&
                exists q :: q in patch.edges && q.0 in m && q.1 in m && e == (m[q.0], m[q.1])))
  {
    var (c, m) := PatchIds(patch, child, parent, counter);
    PatchIdsFresh(patch, child, parent, counter);
    PatchEdgesProper(patch, m, counter, c);
    CopiedFromPatch(patch, m);
  }

  /** A splice replaces one node by as many nodes as the patch has. */
  lemma SpliceNodeCount(g: Digraph, t: int, patch: Digraph, child: int, parent: int, counter: int)
    requires WellFormed(g) && t in g.nodes && SplicablePatch(patch, child, parent)
    ensures |Splice(g, t, patch, child, parent, counter).graph.nodes| == |g.nodes| - 1 + |patch.nodes|
  {
    var m := PatchIds(patch, child, parent, counter).1;
    PatchIdsFresh(patch, child, parent, counter);
    NodesWithoutCount(g.nodes, t);
    assert Splice(g, t, patch, child, parent, counter).graph.nodes == NodesWithout(g.nodes, t) + MapNodes(patch.nodes, m);
  }

  /**
    The splice spelled out: the surviving parts of the graph, then the
    patch under the ids the relabelling drew, then the redirected edges.
  */
  lemma SpliceAssembled(g: Digraph, t: int, patch: Digraph, child: int, parent: int, counter: int,
                        m: map<int, int>, c: int, into: seq<Edge>, from: seq<Edge>)
    requires SplicablePatch(patch, child, parent)
    requires (c, m) == PatchIds(patch, child, parent, counter)
    requires into == RedirectIn(g.edges, t, AnchorCounter(child, parent, counter))
    requires from == RedirectOut(g.edges, t, counter + 1)
    ensures Injective(m) && forall n :: n in patch.nodes ==> n in m && n in patch.symbol
    ensures forall e :: e in patch.edges ==> e.0 in m && e.1 in m
    ensures Splice(g, t, patch, child, parent, counter) ==
      GrammarState(Digraph(NodesWithout(g.nodes, t) + MapNodes(patch.nodes, m),
                           (g.symbol - {t}) + MapSymbols(patch, m),
                           EdgesAvoiding(g.edges, t) + MapEdges(EdgeIteration(patch.nodes, patch.edges), m) + into + from),
                   c)
  {
    PatchIdsFresh(patch, child, parent, counter);
  }
}
