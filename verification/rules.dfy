/**
  `Rule`: a production of the graph grammar. Its patch (`graph_insert`)
  replaces a node whose label matches `replaced_node`; the patch nodes with
  the two anchor ids take over the replaced node's incoming edges (parent
  anchor) and outgoing edges (child anchor). Assigning the patch records
  whether the rule is terminal, that is, whether every node it inserts is.
*/
module Rules {
  import opened Wrappers
  import opened Symbols
  import opened Digraphs
  import opened Rewrite

  /** `all([node.is_terminal for node in patch])` over the patch nodes in order. */
  function AllTerminal(nodes: seq<int>, symbol: map<int, Node>): (r: bool)
    requires forall n :: n in nodes ==> n in symbol
    ensures r <==> forall n :: n in nodes ==> symbol[n].isTerminal
  {
    if |nodes| == 0 then true else
      var first := nodes[0];
      assert first in nodes;
      var rest := AllTerminal(nodes[1..], symbol);
      assert forall n :: n in nodes ==> n == first || n in nodes[1..];
      symbol[first].isTerminal && rest
  }

  /** The parts of a rule that `apply_rule` reads. */
  datatype Production = Production(patch: Digraph, replaced: Node, child: int, parent: int)

  /**
    A rule the grammar can apply: a well-formed patch that, unless it is
    empty, holds both anchors.
  */
  ghost predicate Applicable(p: Production)
  {
    WellFormed(p.patch) && (|p.patch.nodes| > 0 ==> SplicablePatch(p.patch, p.child, p.parent))
  }

  class Rule {
    var graphInsert: Digraph
    var replacedNode: Node
    var childAnchor: int
    var parentAnchor: int
    /** `None` until a patch has been assigned. */
    var isTerminal: Option<bool>

    /** The class defaults: an empty patch, the default node, both anchors -1, terminality unset. */
    constructor ()
      ensures graphInsert == EmptyGraph && replacedNode == DefaultNode
      ensures childAnchor == -1 && parentAnchor == -1 && isTerminal == None
    {
      graphInsert := EmptyGraph;
      replacedNode := DefaultNode;
      childAnchor := -1;
      parentAnchor := -1;
      isTerminal := None;
    }

    function View(): Production
      reads this
    {
      Production(graphInsert, replacedNode, childAnchor, parentAnchor)
    }

    /**
      The `graph_insert` setter: stores the patch and records whether every
      patch node is terminal (vacuously so for an empty patch).
    */
    method SetGraphInsert(patch: Digraph)
      requires forall n :: n in patch.nodes ==> n in patch.symbol
      modifies this
      ensures graphInsert == patch
      ensures isTerminal == Some(forall n :: n in patch.nodes ==> patch.symbol[n].isTerminal)
      ensures replacedNode == old(replacedNode)
      ensures childAnchor == old(childAnchor) && parentAnchor == old(parentAnchor)
    {
      isTerminal := Some(AllTerminal(patch.nodes, patch.symbol));
      graphInsert := patch;
    }
  }
}
