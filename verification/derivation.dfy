/**
  `GraphGrammar.apply_rule` as a function of the grammar state (the design
  graph and the id counter) and the rule: find the nodes whose label is the
  rule's, pick the one closest to the root, and either remove it (empty
  rule, leaves only) or splice the rule's patch in its place.
*/
module Derivation {
  import opened Wrappers
  import opened Symbols
  import opened Digraphs
  import opened Canonical
  import opened Rewrite
  import opened Rules

  /** The state of a grammar graph: well formed, and every id already handed out by the counter. */
  ghost predicate ValidState(st: GrammarState)
  {
    WellFormed(st.graph) && IdsAtMost(st.graph, st.counter)
  }

  /** `find_nodes(rule.replaced_node)` on the state's graph. */
  function Candidates(g: Digraph, p: Production): seq<int>
    requires WellFormed(g)
  {
    Matching(g.nodes, g.symbol, p.replaced.name)
  }

  /** `apply_rule(rule)`: the new state, or the error that leaves the graph untouched. */
  function Apply(st: GrammarState, p: Production): (r: Result<GrammarState, GraphError>)
    requires WellFormed(st.graph) && Applicable(p)
  {
    var g := st.graph;
    match Closest(g, Candidates(g, p))
    case Err(e) => Err(e)
    case Ok(t) =>
      if |p.patch.nodes| == 0 then
        if HasChild(g.edges, t) then Err(NotLeaf) else Ok(GrammarState(RemoveNode(g, t), st.counter))
      else Ok(Splice(g, t, p.patch, p.child, p.parent, st.counter))
  }

  /** `apply_rule` once the node to rewrite is known. */
  lemma ApplyUnfold(st: GrammarState, p: Production, t: int)
    requires WellFormed(st.graph) && Applicable(p) && Closest(st.graph, Candidates(st.graph, p)) == Ok(t)
    ensures |p.patch.nodes| == 0 && HasChild(st.graph.edges, t) ==> Apply(st, p) == Err(NotLeaf)
    ensures |p.patch.nodes| == 0 && !HasChild(st.graph.edges, t) ==>
      Apply(st, p) == Ok(GrammarState(RemoveNode(st.graph, t), st.counter))
    ensures |p.patch.nodes| > 0 ==> Apply(st, p) == Ok(Splice(st.graph, t, p.patch, p.child, p.parent, st.counter))
    ensures t in st.graph.nodes
  {
    TargetMatches(st.graph, p);
  }

  /** The node a successful application rewrites carries the rule's label. */
  lemma TargetMatches(g: Digraph, p: Production)
    requires WellFormed(g) && Closest(g, Candidates(g, p)).Ok?
    ensures var t := Closest(g, Candidates(g, p)).value;
      t in g.nodes && t in g.symbol && g.symbol[t].name == p.replaced.name
  {
    MatchingExact(g.nodes, g.symbol, p.replaced.name);
    ClosestInIds(g, Candidates(g, p));
  }

  /** The node `closest_node_to_root` returns is one of the candidates. */
  lemma ClosestInIds(g: Digraph, ids: seq<int>)
    requires WellFormed(g) && Closest(g, ids).Ok?
    ensures Closest(g, ids).value in ids
  {
    ClosestIsNearest(g, ids);
  }

  /**
    `apply_rule` keeps the grammar state valid, and the counter advances by
    exactly the number of patch nodes (not at all for an empty rule).
  */
  lemma ApplyKeepsValid(st: GrammarState, p: Production)
    requires ValidState(st) && Applicable(p) && Apply(st, p).Ok?
    ensures ValidState(Apply(st, p).value)
    ensures Apply(st, p).value.counter == st.counter + |p.patch.nodes|
  {
    var g := st.graph;
    var t := Closest(g, Candidates(g, p)).value;
    if |p.patch.nodes| == 0 {
      RemoveNodeEffect(g, t, st.counter);
    } else {
      SpliceWellFormed(g, t, p.patch, p.child, p.parent, st.counter);
      SpliceCounter(g, t, p.patch, p.child, p.parent, st.counter);
    }
  }

  /**
    A successful application removes the rewritten node, which carried the
    rule's label, leaves every other node and its symbol alone, and replaces
    the one node by as many nodes as the patch has.
  */
  lemma ApplyRewritesTarget(st: GrammarState, p: Production)
    requires ValidState(st) && Applicable(p) && Apply(st, p).Ok?
    ensures var g := st.graph;
      var h := Apply(st, p).value.graph;
      var t := Closest(g, Candidates(g, p)).value;
      && t in g.symbol && g.symbol[t].name == p.replaced.name && t !in h.symbol
      && (forall v :: v in g.symbol && v != t ==> v in h.symbol && h.symbol[v] == g.symbol[v])
      && |h.nodes| == |g.nodes| - 1 + |p.patch.nodes|
  {
    var g := st.graph;
    var t := Closest(g, Candidates(g, p)).value;
    TargetMatches(g, p);
    if |p.patch.nodes| == 0 {
      RemoveNodeEffect(g, t, st.counter);
    } else {
      SpliceSymbols(g, t, p.patch, p.child, p.parent, st.counter);
      SpliceNodeCount(g, t, p.patch, p.child, p.parent, st.counter);
    }
  }

  /**
    Every node an application adds has a fresh id, above the old counter,
    and carries the symbol of a patch node; so a terminal rule adds only
    terminal nodes.
  */
  lemma ApplyAddsPatchNodes(st: GrammarState, p: Production)
    requires ValidState(st) && Applicable(p) && Apply(st, p).Ok?
    ensures var h := Apply(st, p).value;
      forall v :: v in h.graph.symbol && v !in st.graph.symbol ==>
        st.counter < v <= h.counter && exists n :: n in p.patch.nodes && h.graph.symbol[v] == p.patch.symbol[n]
  {
    var g := st.graph;
    var t := Closest(g, Candidates(g, p)).value;
    TargetMatches(g, p);
    if |p.patch.nodes| == 0 {
      RemoveNodeEffect(g, t, st.counter);
    } else {
      SpliceSymbols(g, t, p.patch, p.child, p.parent, st.counter);
    }
  }

  /** A rule whose patch nodes are all terminal adds only terminal nodes. */
  lemma TerminalRuleAddsTerminals(st: GrammarState, p: Production)
    requires ValidState(st) && Applicable(p) && Apply(st, p).Ok?
    requires AllTerminal(p.patch.nodes, p.patch.symbol)
    ensures var h := Apply(st, p).value.graph;
      forall v :: v in h.symbol && v !in st.graph.symbol ==> h.symbol[v].isTerminal
  {
    ApplyAddsPatchNodes(st, p);
  }

  /**
    An empty rule fails with `NotLeaf` exactly when the chosen node has a
    child; otherwise it deletes that node and the edges into it, and draws
    no id.
  */
  lemma EmptyRuleRemovesLeaf(st: GrammarState, p: Production)
    requires ValidState(st) && Applicable(p) && |p.patch.nodes| == 0
    requires Closest(st.graph, Candidates(st.graph, p)).Ok?
    ensures var g := st.graph;
      var t := Closest(g, Candidates(g, p)).value;
      && (Apply(st, p) == Err(NotLeaf) <==> HasChild(g.edges, t))
      && (!HasChild(g.edges, t) ==>
            && Apply(st, p).Ok? && Apply(st, p).value.counter == st.counter
            && (forall v :: v in Apply(st, p).value.graph.symbol <==> v in g.symbol && v != t)
            && (forall e :: e in Apply(st, p).value.graph.edges <==> e in g.edges && e.1 != t))
  {
    var g := st.graph;
    var t := Closest(g, Candidates(g, p)).value;
    RemoveNodeEffect(g, t, st.counter);
  }

  /**
    A non-empty rule reconnects the rewritten node's neighbourhood: its
    parents now point at the parent anchor, its children hang from the child
    anchor, every edge away from it stays, and the patch is copied under
    fresh ids.
  */
  lemma SpliceRuleReconnects(st: GrammarState, p: Production)
    requires ValidState(st) && Applicable(p) && |p.patch.nodes| > 0 && Apply(st, p).Ok?
    ensures var g := st.graph;
      var h := Apply(st, p).value.graph;
      var t := Closest(g, Candidates(g, p)).value;
      var m := PatchIds(p.patch, p.child, p.parent, st.counter).1;
      && p.child in m && p.parent in m
      && (forall e :: e in g.edges && e.0 != t && e.1 != t ==> e in h.edges)
      && (forall u :: (u, t) in g.edges ==> (u, m[p.parent]) in h.edges)
      && (forall w :: (t, w) in g.edges ==> (m[p.child], w) in h.edges)
      && (forall n :: n in p.patch.nodes ==> n in m && m[n] in h.symbol && h.symbol[m[n]] == p.patch.symbol[n])
      && (forall e :: e in p.patch.edges ==> e.0 in m && e.1 in m && (m[e.0], m[e.1]) in h.edges)
  {
    var g := st.graph;
    var t := Closest(g, Candidates(g, p)).value;
    assert Apply(st, p).value == Splice(g, t, p.patch, p.child, p.parent, st.counter);
    PatchIdsFresh(p.patch, p.child, p.parent, st.counter);
    SpliceEdges(g, t, p.patch, p.child, p.parent, st.counter);
    SpliceCopiesPatch(g, t, p.patch, p.child, p.parent, st.counter);
  }

  /**
    A non-empty rule adds no other edge: each edge afterwards is an old edge
    away from the rewritten node, a redirected edge of one of its parents or
    children, or the image of a patch edge under fresh ids.
  */
  lemma SpliceRuleAddsNothingElse(st: GrammarState, p: Production)
    requires ValidState(st) && Applicable(p) && |p.patch.nodes| > 0 && Apply(st, p).Ok?
    ensures var g := st.graph;
      var h := Apply(st, p).value.graph;
      var t := Closest(g, Candidates(g, p)).value;
      var m := PatchIds(p.patch, p.child, p.parent, st.counter).1;
      && p.child in m && p.parent in m
      && (forall e :: e in h.edges ==>
            || (e in g.edges && e.0 != t && e.1 != t)
            || (e.1 == m[p.parent] && (e.0, t) in g.edges)
            || (e.0 == m[p.child] && (t, e.1) in g.edges)
            || (st.counter < e.0 && st.counter < e.1 &&
                exists q :: q in p.patch.edges && q.0 in m && q.1 in m && e == (m[q.0], m[q.1])))
  {
    var g := st.graph;
    var t := Closest(g, Candidates(g, p)).value;
    assert Apply(st, p).value == Splice(g, t, p.patch, p.child, p.parent, st.counter);
    PatchIdsFresh(p.patch, p.child, p.parent, st.counter);
    SpliceEdges(g, t, p.patch, p.child, p.parent, st.counter);
  }

  /** With no node carrying the rule's label, a graph with a root refuses the rule with `NoMatch`. */
  lemma ApplyWithoutMatch(st: GrammarState, p: Production)
    requires WellFormed(st.graph) && Applicable(p)
    requires RootOf(st.graph.nodes, st.graph.edges).Some?
    requires forall v :: v in st.graph.nodes ==> st.graph.symbol[v].name != p.replaced.name
    ensures Apply(st, p) == Err(NoMatch)
  {
    var g := st.graph;
    MatchingNone(g.nodes, g.symbol, p.replaced.name);
  }

  /**
    A non-empty rule applies whenever some node carries its label, every
    such node is reachable from the root, and the root paths can be listed.
  */
  lemma ApplySucceeds(st: GrammarState, p: Production)
    requires WellFormed(st.graph) && Applicable(p) && |p.patch.nodes| > 0
    requires SortedRootBasedPaths(st.graph).Ok?
    requires exists v :: v in st.graph.nodes && st.graph.symbol[v].name == p.replaced.name
    requires forall v :: v in st.graph.nodes && st.graph.symbol[v].name == p.replaced.name ==>
      Reachable(st.graph.edges, RootOf(st.graph.nodes, st.graph.edges).value, v)
    ensures Apply(st, p).Ok?
  {
    var g := st.graph;
    var ids := Candidates(g, p);
    MatchingExact(g.nodes, g.symbol, p.replaced.name);
    var v :| v in g.nodes && g.symbol[v].name == p.replaced.name;
    assert v in ids;
    forall i | 0 <= i < |ids| ensures Reachable(g.edges, RootOf(g.nodes, g.edges).value, ids[i]) {
      assert ids[i] in ids;
    }
    ClosestSucceeds(g, ids);
  }
}
