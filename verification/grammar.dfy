/**
  `GraphGrammar`: the design graph rules are applied to, together with the
  counter that hands out node ids. The graph lives in fields the methods
  update in place; each query method is proved to compute the function of
  the graph value that specifies it, and each updating method to leave the
  state that function describes.
*/
module Grammar {
  import opened Wrappers
  import opened Symbols
  import opened Digraphs
  import opened RootPaths
  import opened StableSort
  import opened Canonical
  import opened Rewrite
  import opened Rules
  import opened Derivation

  /**
    `sort_by_root_path(node_id)` inside `closest_node_to_root`: the index of
    the first path through `v`, or `None` when no path passes through it.
  */
  method PathIndexOf(paths: seq<seq<int>>, v: int) returns (k: Option<nat>)
    ensures k == PathIndex(paths, v)
    ensures k.None? <==> forall p :: p in paths ==> v !in p
    ensures k.Some? ==> k.value < |paths| && v in paths[k.value] && forall j :: 0 <= j < k.value ==> v !in paths[j]
  {
    PathIndexExact(paths, v);
    for i := 0 to |paths|
      invariant forall j :: 0 <= j < i ==> v !in paths[j]
    {
      if v in paths[i] {
        return Some(i);
      }
    }
    return None;
  }

  /**
    One pass of the `for path in paths` loop of `get_root_based_paths`:
    paths ending at a leaf are appended to `finals`, every other path is
    extended by each child of its last node in turn.
  */
  method Round(edges: seq<Edge>, paths: seq<Path>, finals: seq<Path>) returns (next: seq<Path>, found: seq<Path>)
    ensures next == Frontier(edges, paths)
    ensures found == finals + Retired(edges, paths)
  {
    next, found := [], finals;
    for j := 0 to |paths|
      invariant next == Frontier(edges, paths[..j])
      invariant found == finals + Retired(edges, paths[..j])
    {
      var path := paths[j];
      assert paths[..j + 1][..j] == paths[..j];
      var children := Children(edges, Last(path));
      if |children| == 0 {
        found := found + [path];
      } else {
        var longer := ExtendAll(path, children);
        next := next + longer;
      }
    }
    assert paths[..|paths|] == paths;
  }

  /** `for child in children: new_paths.append(path + [child])` */
  method ExtendAll(path: Path, children: seq<int>) returns (longer: seq<Path>)
    ensures longer == Extend(path, children)
  {
    longer := [];
    for k := 0 to |children|
      invariant longer == Extend(path, children[..k])
    {
      assert children[..k + 1][..k] == children[..k];
      longer := longer + [path + [children[k]]];
    }
    assert children[..|children|] == children;
  }

  /** The `while len(paths) > 0` loop of `get_root_based_paths`, from the root. */
  method EnumerateFrom(edges: seq<Edge>, root: int) returns (r: Result<seq<Path>, GraphError>)
    ensures r == Enumerate(edges, [[root]], [], 0)
  {
    var paths: seq<Path> := [[root]];
    var finals: seq<Path> := [];
    var round: nat := 0;
    ghost var goal := Enumerate(edges, paths, finals, round);
    while |paths| > 0
      invariant round <= RoundLimit + 1
      invariant Enumerate(edges, paths, finals, round) == goal
      decreases RoundLimit + 1 - round
    {
      if round > RoundLimit {
        EnumerateOver(edges, paths, finals, round);
        return Err(IterationLimit);
      }
      var next, found := Round(edges, paths, finals);
      EnumerateAdvance(edges, paths, finals, round, next, found);
      paths, finals, round := next, found, round + 1;
    }
    EnumerateDone(edges, paths, finals, round);
    r := Ok(finals);
  }

  /** `[self.get_node_by_id(x).label for x in path]` for each root path, in order. */
  method LabelListsOf(symbol: map<int, Node>, paths: seq<seq<int>>) returns (lists: seq<seq<string>>)
    requires forall p :: p in paths ==> Labelled(symbol, p)
    ensures lists == LabelLists(symbol, paths)
  {
    lists := [];
    for i := 0 to |paths|
      invariant lists == LabelLists(symbol, paths[..i])
    {
      assert paths[..i + 1][..i] == paths[..i];
      lists := lists + [Labels(symbol, paths[i])];
    }
    assert paths[..|paths|] == paths;
  }

  /** Whether every candidate lies on some root path: the path index of each is computed in turn. */
  method AllOnPaths(paths: seq<seq<int>>, ids: seq<int>) returns (placed: bool)
    ensures placed <==> forall i :: 0 <= i < |ids| ==> PathIndex(paths, ids[i]).Some?
  {
    placed := true;
    for i := 0 to |ids|
      invariant placed <==> forall j :: 0 <= j < i ==> PathIndex(paths, ids[j]).Some?
    {
      var k := PathIndexOf(paths, ids[i]);
      placed := placed && k.Some?;
    }
  }

  /** The old edges of `t`, redirected: incoming ones to `pa`, outgoing ones from `ca`. */
  method Redirect(edges: seq<Edge>, t: int, ca: int, pa: int) returns (into: seq<Edge>, from: seq<Edge>)
    ensures into == RedirectIn(edges, t, pa)
    ensures from == RedirectOut(edges, t, ca)
  {
    into, from := [], [];
    for j := 0 to |edges|
      invariant into == RedirectIn(edges[..j], t, pa)
      invariant from == RedirectOut(edges[..j], t, ca)
    {
      var e := edges[j];
      assert edges[..j + 1][..j] == edges[..j];
      if e.1 == t {
        into := into + [(e.0, pa)];
      }
      if e.0 == t {
        from := from + [(ca, e.1)];
      }
    }
    assert edges[..|edges|] == edges;
  }

  class GraphGrammar {
    var nodes: seq<int>
    var symbol: map<int, Node>
    var edges: seq<Edge>
    /** The last id handed out; -1 before the first. */
    var counter: int

    function View(): Digraph
      reads this
    {
      Digraph(nodes, symbol, edges)
    }

    function State(): GrammarState
      reads this
    {
      GrammarState(View(), counter)
    }

    ghost predicate Valid()
      reads this
    {
      ValidState(State())
    }

    /** A graph holding only the root node, with id 0, the first id the counter hands out. */
    constructor ()
      ensures Valid()
      ensures nodes == [0] && symbol == map[0 := ROOT] && edges == [] && counter == 0
    {
      nodes := [];
      symbol := map[];
      edges := [];
      counter := -1;
      new;
      var id := GetUniqId();
      nodes := [id];
      symbol := map[id := ROOT];
    }

    /** `get_uniq_id`: advances the counter and returns it, an id no node of a valid graph has yet. */
    method GetUniqId() returns (id: int)
      modifies this
      ensures counter == old(counter) + 1 && id == counter
      ensures nodes == old(nodes) && symbol == old(symbol) && edges == old(edges)
      ensures IdsAtMost(View(), old(counter)) ==> id !in symbol && forall v :: v in symbol ==> v < id
    {
      counter := counter + 1;
      id := counter;
    }

    /** `find_nodes(pattern)`: the ids whose label is the pattern's, in node order, each once. */
    method FindNodes(pattern: Node) returns (ids: seq<int>)
      requires Valid()
      ensures ids == Matching(nodes, symbol, pattern.name)
      ensures forall v :: v in ids <==> v in nodes && symbol[v].name == pattern.name
      ensures Distinct(ids)
    {
      ids := [];
      for i := 0 to |nodes|
        invariant ids == Matching(nodes[..i], symbol, pattern.name)
      {
        var v := nodes[i];
        assert nodes[..i + 1][..i] == nodes[..i];
        if symbol[v].name == pattern.name {
          ids := ids + [v];
        }
      }
      assert nodes[..|nodes|] == nodes;
      MatchingExact(nodes, symbol, pattern.name);
    }

    /**
      `get_root_id`: the last node, in node order, with no incoming edge;
      `None` when every node has one.
    */
    method GetRootId() returns (root: Option<int>)
      ensures root == RootOf(nodes, edges)
      ensures root.Some? ==> root.value in nodes && !HasParent(edges, root.value)
      ensures root.None? <==> forall v :: v in nodes ==> HasParent(edges, v)
    {
      root := None;
      for i := 0 to |nodes|
        invariant root == RootOf(nodes[..i], edges)
      {
        var v := nodes[i];
        assert nodes[..i + 1][..i] == nodes[..i];
        if !HasParent(edges, v) {
          root := Some(v);
        }
      }
      assert nodes[..|nodes|] == nodes;
    }

    /**
      `get_root_based_paths`: the frontier loop. Each round moves the paths
      ending at a leaf to the result and extends every other path by each
      child in turn; the round counter guards against runaway graphs.
    */
    method GetRootBasedPaths() returns (r: Result<seq<Path>, GraphError>)
      requires Valid()
      ensures r == RootBasedPaths(View())
    {
      var rootId := GetRootId();
      if rootId.None? {
        return Err(NoRoot);
      }
      RootBasedPathsFrom(View(), rootId.value);
      r := EnumerateFrom(edges, rootId.value);
    }

    /** `get_sorted_root_based_paths`: the root paths sorted by labels and then, stably, by length. */
    method GetSortedRootBasedPaths() returns (r: Result<seq<seq<int>>, GraphError>)
      requires Valid()
      ensures r == SortedRootBasedPaths(View())
      ensures r.Ok? ==> ByLengthThenLabels(symbol, r.value)
    {
      var paths := GetRootBasedPaths();
      if paths.Err? {
        return Err(paths.error);
      }
      RootPathsLabelled(View());
      r := Ok(SortPaths(symbol, paths.value));
    }

    /** `get_uniq_representation`: the label lists of the root paths, sorted by their concatenation. */
    method GetUniqRepresentation() returns (r: Result<seq<seq<string>>, GraphError>)
      requires Valid()
      ensures r == Representation(View())
    {
      var paths := GetRootBasedPaths();
      if paths.Err? {
        return Err(paths.error);
      }
      RootPathsLabelled(View());
      var lists := LabelListsOf(symbol, paths.value);
      RepresentationFrom(View());
      r := Ok(Items(SortByKey(KeyLabels(lists))));
    }

    /**
      `closest_node_to_root(ids)`: the root first, then the candidates' path
      indices, which fail on a candidate no root path passes through, and
      then the first candidate of the two sorts.
    */
    method ClosestNodeToRoot(ids: seq<int>) returns (r: Result<int, GraphError>)
      requires Valid()
      ensures r == Closest(View(), ids)
    {
      var root := GetRootId();
      if root.None? {
        return Err(NoRoot);
      }
      if |ids| == 0 {
        return Err(NoMatch);
      }
      var sorted := GetSortedRootBasedPaths();
      if sorted.Err? {
        return Err(sorted.error);
      }
      ClosestFrom(View(), ids);
      var placed := AllOnPaths(sorted.value, ids);
      if !placed {
        return Err(if |ids| >= 2 then UnorderableKeys else NoPath);
      }
      r := Ok(ids[FirstLeast(Ranks(sorted.value, ids))]);
    }

    /**
      `_replace_node(t, rule)`: draw ids for the anchors and then for the
      other patch nodes, redirect the edges of `t` to the anchors, remove
      `t` and add the relabelled patch and the redirected edges.
    */
    method ReplaceNode(t: int, rule: Production)
      requires Valid() && t in nodes && SplicablePatch(rule.patch, rule.child, rule.parent)
      modifies this
      ensures State() == Splice(old(View()), t, rule.patch, rule.child, rule.parent, old(counter))
      ensures Valid()
    {
      var patch, child, parent := rule.patch, rule.child, rule.parent;
      var nodes0, symbol0, edges0 := nodes, symbol, edges;
      ghost var start := counter;
      var ca := GetUniqId();
      var pa := ca;
      if parent != child {
        pa := GetUniqId();
      }
      var anchors := map[child := ca][parent := pa];
      assert anchors == AnchorIds(child, parent, start) && counter == AnchorCounter(child, parent, start);
      var m := RelabelPatch(patch.nodes, anchors);
      var into, from := Redirect(edges0, t, ca, pa);
      ghost var g := Digraph(nodes0, symbol0, edges0);
      assert g == old(View()) && start == old(counter);
      SpliceAssembled(g, t, patch, child, parent, start, m, counter, into, from);
      var h := Digraph(NodesWithout(nodes0, t) + MapNodes(patch.nodes, m),
                       (symbol0 - {t}) + MapSymbols(patch, m),
                       EdgesAvoiding(edges0, t) + MapEdges(EdgeIteration(patch.nodes, patch.edges), m) + into + from);
      SpliceWellFormed(g, t, patch, child, parent, start);
      Install(h, Splice(g, t, patch, child, parent, start));
    }

    /** Stores a new graph with the current counter, once it is known to be the intended state. */
    method Install(h: Digraph, ghost target: GrammarState)
      requires GrammarState(h, counter) == target && ValidState(target)
      modifies this
      ensures State() == target && Valid()
    {
      nodes, symbol, edges := h.nodes, h.symbol, h.edges;
    }

    /**
      The relabelling loop of `_replace_node`: each patch node that has no
      id yet draws the next one from the counter.
    */
    method RelabelPatch(patchNodes: seq<int>, anchors: map<int, int>) returns (m: map<int, int>)
      modifies this
      ensures (counter, m) == Relabel(patchNodes, anchors, old(counter))
      ensures nodes == old(nodes) && symbol == old(symbol) && edges == old(edges)
    {
      m := anchors;
      for i := 0 to |patchNodes|
        invariant nodes == old(nodes) && symbol == old(symbol) && edges == old(edges)
        invariant Relabel(patchNodes[i..], m, counter) == Relabel(patchNodes, anchors, old(counter))
      {
        var n := patchNodes[i];
        assert patchNodes[i..][1..] == patchNodes[i + 1..];
        if n !in m {
          var id := GetUniqId();
          m := m[n := id];
        }
      }
      assert patchNodes[|patchNodes|..] == [];
    }

    /**
      `apply_rule(rule)`: rewrite the node with the rule's label closest to
      the root. An empty rule deletes that node, which must be a leaf; any
      other rule splices its patch in. A failure leaves the graph as it was.
    */
    method ApplyRule(rule: Rule) returns (outcome: Outcome<GraphError>)
      requires Valid() && Applicable(rule.View())
      modifies this
      ensures Valid()
      ensures Apply(old(State()), rule.View()).Err? ==>
        outcome == Fail(Apply(old(State()), rule.View()).error) && State() == old(State())
      ensures Apply(old(State()), rule.View()).Ok? ==>
        outcome == Pass && State() == Apply(old(State()), rule.View()).value
    {
      ghost var st := State();
      var p := rule.View();
      var ids := FindNodes(rule.replacedNode);
      var closest := ClosestNodeToRoot(ids);
      if closest.Err? {
        return Fail(closest.error);
      }
      var t := closest.value;
      ApplyUnfold(st, p, t);
      if |rule.graphInsert.nodes| == 0 {
        outcome := RemoveLeaf(t);
        if outcome.Fail? {
          return;
        }
      } else {
        ReplaceNode(t, p);
        outcome := Pass;
      }
      ApplyKeepsValid(st, p);
    }

    /**
      The empty-rule branch of `apply_rule`: the node is removed when it has
      no outgoing edge, and otherwise the graph is left as it was.
    */
    method RemoveLeaf(t: int) returns (outcome: Outcome<GraphError>)
      modifies this
      ensures HasChild(old(edges), t) ==> outcome == Fail(NotLeaf) && State() == old(State())
      ensures !HasChild(old(edges), t) ==> outcome == Pass && State() == GrammarState(RemoveNode(old(View()), t), old(counter))
    {
      var leaving := OutEdges(edges, t);
      if |leaving| > 0 {
        assert leaving[0] in leaving;
        return Fail(NotLeaf);
      }
      assert !HasChild(edges, t);
      var h := RemoveNode(View(), t);
      nodes, symbol, edges := h.nodes, h.symbol, h.edges;
      outcome := Pass;
    }

    /**
      `__eq__`: another grammar graph is equal when the two representations
      are; `null` stands for an object of any other class, which is unequal.
    */
    method Equals(other: GraphGrammar?) returns (r: Result<bool, GraphError>)
      requires Valid() && (other != null ==> other.Valid())
      ensures r == GraphEquals(View(), if other == null then OtherObject else GrammarOperand(other.View()))
    {
      if other == null {
        return Ok(false);
      }
      var mine := GetUniqRepresentation();
      if mine.Err? {
        return Err(mine.error);
      }
      var theirs := other.GetUniqRepresentation();
      if theirs.Err? {
        return Err(theirs.error);
      }
      r := Ok(mine.value == theirs.value);
    }
  }
}
