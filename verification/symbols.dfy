/**
  The grammar's alphabet: `Node` of rostok/graph_grammar/node.py, a labelled
  symbol that is terminal or not. The physical `block_blueprint` payload
  belongs to the simulator's block builder and is not part of this model.
*/
module Symbols {
  import opened Wrappers

  datatype Node = Node(name: string, isTerminal: bool)

  /** The default `Node()`: label "*", not terminal. */
  const DefaultNode := Node("*", false)

  /** The start symbol every design graph begins from. */
  const ROOT := Node("ROOT", false)

  /** `Node.__eq__` raises when its right operand is not a `Node`. */
  datatype NodeError = WrongOperandType

  /** The right operand of `Node.__eq__`: a `Node` or any other Python object. */
  datatype Operand = NodeOperand(node: Node) | OtherOperand

  /** `Node.__eq__`: symbols are compared by label only. */
  function NodeEquals(n: Node, o: Operand): (r: Result<bool, NodeError>)
    ensures r.Err? <==> o.OtherOperand?
    ensures o.NodeOperand? ==> (r == Ok(true) <==> n.name == o.node.name)
  {
    match o
    case OtherOperand => Err(WrongOperandType)
    case NodeOperand(m) => Ok(n.name == m.name)
  }

  /** Equality ignores terminality: relabelling nothing but `is_terminal` keeps a node equal. */
  lemma EqualityIgnoresTerminality(n: Node, t: bool)
    ensures NodeEquals(n, NodeOperand(Node(n.name, t))) == Ok(true)
  {
  }

  /** On nodes, `__eq__` is an equivalence relation. */
  lemma NodeEqualityIsEquivalence(a: Node, b: Node, c: Node)
    ensures NodeEquals(a, NodeOperand(a)) == Ok(true)
    ensures NodeEquals(a, NodeOperand(b)) == NodeEquals(b, NodeOperand(a))
    ensures NodeEquals(a, NodeOperand(b)) == Ok(true) && NodeEquals(b, NodeOperand(c)) == Ok(true)
            ==> NodeEquals(a, NodeOperand(c)) == Ok(true)
  {
  }

  function PyBoolStr(b: bool): string
  {
    if b then "True" else "False"
  }

  /** The string `Node.__hash__` hashes, as written: the label followed by `str(is_terminal)`. */
  function HashInput(n: Node): (h: string)
    ensures |h| == |n.name| + (if n.isTerminal then 4 else 5)
    ensures h[..|n.name|] == n.name
  {
    n.name + PyBoolStr(n.isTerminal)
  }

  /**
    The hash input disagrees with equality: two nodes that `__eq__` calls
    equal are hashed from different strings, so Python's rule that equal
    objects hash alike is not guaranteed.
  */
  lemma HashInputSplitsEqualNodes()
    ensures NodeEquals(Node("A", true), NodeOperand(Node("A", false))) == Ok(true)
    ensures HashInput(Node("A", true)) != HashInput(Node("A", false))
  {
    assert |HashInput(Node("A", true))| == 5;
    assert |HashInput(Node("A", false))| == 6;
  }

  /** The hash input that agrees with `__eq__`: the label alone. */
  function LabelHashInput(n: Node): string
  {
    n.name
  }

  /** Nodes that `__eq__` calls equal have the same label-only hash input. */
  lemma LabelHashAgreesWithEquality(a: Node, b: Node)
    requires NodeEquals(a, NodeOperand(b)) == Ok(true)
    ensures LabelHashInput(a) == LabelHashInput(b)
  {
  }
}
