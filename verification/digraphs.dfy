/**
  The directed graph a `GraphGrammar` (a networkx `DiGraph`) holds, as a value:
  the node ids in insertion order, the `Node` symbol attached to each id, and
  the edges in insertion order. Filtering the edge list by source gives the
  order networkx lists a node's successors in; filtering by target gives its
  predecessors' order. Rule patches are graphs of the same shape with local ids.
*/
module Digraphs {
  import opened Wrappers
  import opened Symbols

  type Edge = (int, int)

  datatype Digraph = Digraph(nodes: seq<int>, symbol: map<int, Node>, edges: seq<Edge>)

  /** `nx.DiGraph()` */
  const EmptyGraph := Digraph([], map[], [])

  /** The ways the graph operations of the grammar fail. */
  datatype GraphError =
    | NoRoot           // get_root_id: no node of in-degree 0 (UnboundLocalError)
    | IterationLimit   // get_root_based_paths: more than 1000 rounds
    | NoMatch          // closest_node_to_root on no candidate ids (IndexError)
    | UnorderableKeys  // a candidate lies on no root path: None compared with int (TypeError)
    | NoPath           // nx.shortest_path: candidate unreachable from the root
    | NotLeaf          // apply_rule: empty rule on a node with an outgoing edge

  predicate Distinct<T(==)>(s: seq<T>)
  {
    forall i, j :: 0 <= i < j < |s| ==> s[i] != s[j]
  }

  /**
    Every node carries a symbol, edges join existing nodes, neither nodes
    nor edges repeat, and there are no self-loops.
  */
  ghost predicate WellFormed(g: Digraph)
  {
    && Distinct(g.nodes)
    && (forall v :: v in g.symbol <==> v in g.nodes)
    && Distinct(g.edges)
    && (forall e :: e in g.edges ==> e.0 in g.symbol && e.1 in g.symbol && e.0 != e.1)
  }

  /** Two repetition-free lists with no common element concatenate without repetition. */
  lemma DistinctConcat<T>(a: seq<T>, b: seq<T>)
    requires Distinct(a) && Distinct(b) && forall x :: x in a ==> x !in b
    ensures Distinct(a + b)
  {
    forall i, j | 0 <= i < j < |a + b| ensures (a + b)[i] != (a + b)[j] {
      if i < |a| <= j {
        assert (a + b)[i] in a;
        assert (a + b)[j] in b;
      }
    }
  }

  predicate HasParent(edges: seq<Edge>, v: int)
  {
    exists e :: e in edges && e.1 == v
  }

  predicate HasChild(edges: seq<Edge>, v: int)
  {
    exists e :: e in edges && e.0 == v
  }

  /** `list(G.neighbors(v))`: the successors of `v` in edge insertion order. */
  function Children(edges: seq<Edge>, v: int): seq<int>
  {
    if |edges| == 0 then [] else
      var e := edges[|edges| - 1];
      Children(edges[..|edges| - 1], v) + (if e.0 == v then [e.1] else [])
  }

  /** The successors listed are exactly the heads of the edges leaving `v`. */
  lemma {:induction false} ChildrenExact(edges: seq<Edge>, v: int)
    ensures forall c :: c in Children(edges, v) <==> (v, c) in edges
  {
    if |edges| > 0 {
      var e := edges[|edges| - 1];
      ChildrenExact(edges[..|edges| - 1], v);
      assert edges == edges[..|edges| - 1] + [e];
    }
  }

  /** `v` is a leaf: networkx lists no successor of it. */
  predicate IsLeaf(edges: seq<Edge>, v: int)
  {
    |Children(edges, v)| == 0
  }

  /** A node is a leaf exactly when no edge leaves it. */
  lemma LeafExact(edges: seq<Edge>, v: int)
    ensures IsLeaf(edges, v) <==> !HasChild(edges, v)
  {
    ChildrenExact(edges, v);
    if HasChild(edges, v) {
      var e :| e in edges && e.0 == v;
      var c := e.1;
      assert (v, c) == e;
      assert (v, c) in edges;
      assert c in Children(edges, v);
    }
    if !IsLeaf(edges, v) {
      var c := Children(edges, v)[0];
      assert c in Children(edges, v);
      assert (v, c) in edges;
    }
  }

  /** `G.in_edges(t)`, in predecessor order. */
  function InEdges(edges: seq<Edge>, t: int): (r: seq<Edge>)
    ensures forall e :: e in r <==> e in edges && e.1 == t
    ensures Distinct(edges) ==> Distinct(r)
  {
    if |edges| == 0 then [] else
      var e := edges[|edges| - 1];
      assert edges == edges[..|edges| - 1] + [e];
      InEdges(edges[..|edges| - 1], t) + (if e.1 == t then [e] else [])
  }

  /** `G.out_edges(t)`, in successor order. */
  function OutEdges(edges: seq<Edge>, t: int): (r: seq<Edge>)
    ensures forall e :: e in r <==> e in edges && e.0 == t
    ensures Distinct(edges) ==> Distinct(r)
  {
    if |edges| == 0 then [] else
      var e := edges[|edges| - 1];
      assert edges == edges[..|edges| - 1] + [e];
      OutEdges(edges[..|edges| - 1], t) + (if e.0 == t then [e] else [])
  }

  /** The edges `G.remove_node(t)` keeps: those not touching `t`, in their order. */
  function EdgesAvoiding(edges: seq<Edge>, t: int): (r: seq<Edge>)
    ensures forall e :: e in r <==> e in edges && e.0 != t && e.1 != t
    ensures Distinct(edges) ==> Distinct(r)
  {
    if |edges| == 0 then [] else
      var e := edges[|edges| - 1];
      assert edges == edges[..|edges| - 1] + [e];
      EdgesAvoiding(edges[..|edges| - 1], t) + (if e.0 != t && e.1 != t then [e] else [])
  }

  /** The node order after `G.remove_node(t)`. */
  function NodesWithout(nodes: seq<int>, t: int): (r: seq<int>)
    ensures forall v :: v in r <==> v in nodes && v != t
    ensures Distinct(nodes) ==> Distinct(r)
  {
    if |nodes| == 0 then [] else
      var v := nodes[|nodes| - 1];
      assert nodes == nodes[..|nodes| - 1] + [v];
      assert Distinct(nodes) ==> v !in nodes[..|nodes| - 1];
      NodesWithout(nodes[..|nodes| - 1], t) + (if v != t then [v] else [])
  }

  /**
    The ids whose symbol has label `lbl`, in node order: the result of
    `GraphGrammar.find_nodes`.
  */
  function Matching(nodes: seq<int>, symbol: map<int, Node>, lbl: string): (r: seq<int>)
    requires forall v :: v in nodes ==> v in symbol
  {
    if |nodes| == 0 then [] else
      var v := nodes[|nodes| - 1];
      Matching(nodes[..|nodes| - 1], symbol, lbl) + (if symbol[v].name == lbl then [v] else [])
  }

  /** `find_nodes` returns exactly the nodes carrying the label, each once. */
  lemma {:induction false} MatchingExact(nodes: seq<int>, symbol: map<int, Node>, lbl: string)
    requires forall v :: v in nodes ==> v in symbol
    ensures forall v :: v in Matching(nodes, symbol, lbl) <==> v in nodes && symbol[v].name == lbl
    ensures Distinct(nodes) ==> Distinct(Matching(nodes, symbol, lbl))
  {
    if |nodes| > 0 {
      var init := nodes[..|nodes| - 1];
      var v := nodes[|nodes| - 1];
      assert nodes == init + [v];
      MatchingExact(init, symbol, lbl);
      var tail := if symbol[v].name == lbl then [v] else [];
      assert Matching(nodes, symbol, lbl) == Matching(init, symbol, lbl) + tail;
      if Distinct(nodes) {
        assert v !in init;
        DistinctConcat(Matching(init, symbol, lbl), tail);
      }
    }
  }

  /** No node carrying the label: `find_nodes` returns the empty list. */
  lemma {:induction false} MatchingNone(nodes: seq<int>, symbol: map<int, Node>, lbl: string)
    requires forall v :: v in nodes ==> v in symbol && symbol[v].name != lbl
    ensures Matching(nodes, symbol, lbl) == []
  {
    if |nodes| > 0 {
      var v := nodes[|nodes| - 1];
      assert v in nodes;
      MatchingNone(nodes[..|nodes| - 1], symbol, lbl);
    }
  }

  /**
    `get_root_id`: the LAST node, in node order, that has no incoming edge;
    `None` where the loop never assigns `root_id`.
  */
  function RootOf(nodes: seq<int>, edges: seq<Edge>): (r: Option<int>)
    ensures r.None? <==> forall v :: v in nodes ==> HasParent(edges, v)
    ensures r.Some? ==> r.value in nodes && !HasParent(edges, r.value)
    ensures r.Some? ==> exists i :: 0 <= i < |nodes| && nodes[i] == r.value &&
                                    forall j :: i < j < |nodes| ==> HasParent(edges, nodes[j])
  {
    if |nodes| == 0 then None else
      var v := nodes[|nodes| - 1];
      var init := nodes[..|nodes| - 1];
      assert nodes == init + [v];
      if !HasParent(edges, v) then Some(v) else
        var r := RootOf(init, edges);
        if r.Some? then
          var i :| 0 <= i < |init| && init[i] == r.value &&
                   forall j :: i < j < |init| ==> HasParent(edges, init[j]);
          assert nodes[i] == r.value;
          r
        else r
  }

  /** A graph with exactly one node of in-degree zero reports that node as its root. */
  lemma SingleSourceIsRoot(nodes: seq<int>, edges: seq<Edge>, root: int)
    requires root in nodes && !HasParent(edges, root)
    requires forall v :: v in nodes && v != root ==> HasParent(edges, v)
    ensures RootOf(nodes, edges) == Some(root)
  {
  }
}
