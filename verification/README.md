# Graph-grammar rewriting and MCTS bookkeeping of rostok, in Dafny

This project models two sequential pieces of the rostok robot-design
generator and proves properties about them.

**The graph grammar** (`rostok/graph_grammar/node.py`). A design is a directed
graph whose integer-id nodes carry a `Node` symbol: a label and a terminal
flag. A `GraphGrammar` starts as one `ROOT` node with id 0. It changes only
through `apply_rule`, which does three things:

- it finds the nodes whose label matches the rule's `replaced_node`;
- it picks the candidate closest to the root;
- it either deletes that node (empty rule, leaves only) or splices the rule's
  patch graph in its place, under fresh ids from a monotone counter, with
  the old node's incoming edges moved to the parent anchor and its outgoing
  edges to the child anchor.

Root-to-leaf path enumeration, guarded by a 1000-round limit, feeds two
things:

- the sorted path list that `closest_node_to_root` ranks candidates by;
- the canonical label representation that `GraphGrammar.__eq__` compares.

**The MCTS statistics** (`rostok/graph_generators/search_algorithms/mcts.py`).
Four tables are kept and updated in place:

- `Qsa`: the running value of a state-action pair;
- `Nsa`: the visit count of a state-action pair;
- `Ns`: the visit count of a state;
- `Vs`: the cached terminal reward of a state.

`update_Q_function`, `default_policy` and `search` change these tables.
`tree_policy` picks the available action with the highest UCT score.
`get_policy` turns the visit counts into a distribution over the available
actions.

Layout:

| File | Module | Contents |
|---|---|---|
| `wrappers.dfy` | `Wrappers` | `Option`, `Result`, `Outcome` |
| `lex.dfy` | `Lex` | Python's string order (`StrLe`) and `"".join` |
| `stable_sort.dfy` | `StableSort` | the stable `list.sort(key=...)` calls, as insertion sorts on keyed items |
| `symbols.dfy` | `Symbols` | `Node` |
| `digraphs.dfy` | `Digraphs` | the graph value (nodes in insertion order, id-to-symbol map, edges in insertion order), `find_nodes`, `get_root_id` |
| `root_paths.dfy` | `RootPaths` | `get_root_based_paths` as a function |
| `canonical.dfy` | `Canonical` | sorted paths, the representation, `__eq__`, `closest_node_to_root` |
| `rewrite.dfy` | `Rewrite` | `_replace_node` (the splice) and node removal, on graph values |
| `rules.dfy` | `Rules` | the `Rule` class |
| `derivation.dfy` | `Derivation` | `apply_rule` as a function of the state, and what it guarantees |
| `grammar.dfy` | `Grammar` | the `GraphGrammar` class, whose methods update the graph fields in place and are proved to compute the functions above |
| `mcts.dfy` | `MonteCarlo` | the tables, the environment as a value of functions, the `Mcts` class |

**How the grammar is modelled:**

- `GraphGrammar` is a class. Its fields are the node list, the symbol map,
  the edge list and the id counter.
- Each query method loops the way the source does. It is proved equal to a
  function of the graph value.
- `ApplyRule` and `ReplaceNode` are proved to leave exactly the state that
  `Derivation.Apply` / `Rewrite.Splice` describe.
- The lemmas of `Derivation` state what that state is.

**How the MCTS is modelled:**

- `Mcts` is a class whose fields are the four tables.
- The environment (`DesignEnvironment`, not part of this model) is a
  datatype of functions: the availability mask, `next_state` and the
  terminal reward.
- The UCT score is a function parameter.
- A state is terminal when the environment gives it a reward. `Search`
  returns that reward for every terminal state (see Findings).

## Model

| member | source | states |
|---|---|---|
| StableSort.SortByKey | rostok/graph_grammar/node.py:382 | `sort(key=...)` on a string key returns a permutation of the list, ordered by key, and stable: the elements of any one key keep their relative order |
| StableSort.SortByLength | rostok/graph_grammar/node.py:366 | `sort(key=len)` returns a permutation of the list, and stable: the elements of any one length keep their relative order |
| StableSort.SortByLengthAfterKey | rostok/graph_grammar/node.py:365-366 | Sorting by key and then stably by length orders the list by (length, key) |
| Symbols.NodeEquals | rostok/graph_grammar/node.py:24-29 | Comparing with a non-`Node` is an error, and only that; two nodes are equal exactly when their labels are equal |
| Symbols.EqualityIgnoresTerminality | rostok/graph_grammar/node.py:24-29 | Changing only `is_terminal` keeps a node equal to the original |
| Symbols.NodeEqualityIsEquivalence | rostok/graph_grammar/node.py:24-29 | Node equality is reflexive, symmetric and transitive |
| Symbols.HashInput | rostok/graph_grammar/node.py:21-22 | The hashed string is the label followed by `True` or `False` (4 or 5 more characters) |
| Symbols.HashInputSplitsEqualNodes | rostok/graph_grammar/node.py:21-29 | Two nodes that `__eq__` calls equal (label "A", terminal and not) are hashed from different strings |
| Symbols.LabelHashAgreesWithEquality | rostok/graph_grammar/node.py:21-29 | With the label alone as hash input, equal nodes always hash alike |
| Rules.AllTerminal | rostok/graph_grammar/node.py:51-52 | True exactly when every patch node is terminal (so true on an empty patch) |
| Rules.Rule.constructor | rostok/graph_grammar/node.py:38-43 | A fresh rule has an empty patch, the default node, both anchors -1, and unset terminality |
| Rules.Rule.SetGraphInsert | rostok/graph_grammar/node.py:49-57 | Assigning the patch stores it and sets `is_terminal` to whether every patch node is terminal; the other fields are unchanged |
| Digraphs.InEdges | rostok/graph_grammar/node.py:120 | Exactly the edges into the node, without duplicates |
| Digraphs.OutEdges | rostok/graph_grammar/node.py:121 | Exactly the edges out of the node, without duplicates |
| Digraphs.ChildrenExact | rostok/graph_grammar/node.py:321 | `neighbors(v)` lists exactly the targets of `v`'s edges |
| Digraphs.LeafExact | rostok/graph_grammar/node.py:322-325 | A path is retired exactly when its last node has no child |
| Digraphs.MatchingExact | rostok/graph_grammar/node.py:102-109 | `find_nodes` returns exactly the nodes whose label equals the pattern's, each once |
| Digraphs.MatchingNone | rostok/graph_grammar/node.py:102-109 | With no node carrying the label, `find_nodes` returns the empty list |
| Digraphs.RootOf | rostok/graph_grammar/node.py:182-193 | None exactly when every node has a parent; otherwise a node without a parent, and the last such node in node order |
| Digraphs.SingleSourceIsRoot | rostok/graph_grammar/node.py:182-193 | When only one node lacks a parent, that node is the root |
| Digraphs.NodesWithout | rostok/graph_grammar/node.py:148 | `remove_node` keeps exactly the other nodes, in order, without duplicates |
| Digraphs.EdgesAvoiding | rostok/graph_grammar/node.py:148 | `remove_node` keeps exactly the edges that do not touch the node |
| RootPaths.RootBasedPaths | rostok/graph_grammar/node.py:300-332 | No root gives `NoRoot`. On success the result holds exactly the walks from the root to a leaf, and no walk is longer than 1001 nodes. `IterationLimit` is raised only when a walk of 1002 nodes exists |
| RootPaths.Extend | rostok/graph_grammar/node.py:327-328 | Extends the path by each child, in child order |
| RootPaths.ExtendExact | rostok/graph_grammar/node.py:327-328 | A path is an extension exactly when it is the old path plus one child |
| RootPaths.Retired | rostok/graph_grammar/node.py:322-325 | Retires exactly the paths that end at a leaf |
| RootPaths.FrontierExact | rostok/graph_grammar/node.py:317-330 | The new frontier is exactly the one-edge extensions of the non-leaf paths |
| RootPaths.FrontierStep | rostok/graph_grammar/node.py:317-330 | If the frontier holds all walks of length k from the root, the next frontier holds all walks of length k+1 |
| RootPaths.RetiredStep | rostok/graph_grammar/node.py:317-330 | The found paths stay exactly the root-to-leaf walks up to the current length |
| RootPaths.NoLongerWalks | rostok/graph_grammar/node.py:313 | When no walk has length k, no walk has length k or more, so an empty frontier ends the enumeration with every path found |
| RootPaths.EnumerateExact | rostok/graph_grammar/node.py:309-332 | From a frontier of all length-(k+1) walks and all shorter leaf paths, the loop returns every root-to-leaf walk or fails at the round limit |
| RootPaths.ExtendToLeaf | rostok/graph_grammar/node.py:309-332 | When walks are bounded, every walk from the root is a prefix of a returned root-to-leaf path |
| Canonical.RootPathsLabelled | rostok/graph_grammar/node.py:377-380 | Every node on a returned path carries a symbol, so the label lookups are defined |
| Canonical.SortPaths | rostok/graph_grammar/node.py:358-366 | The two stable sorts give a permutation of the paths, ordered by length and then by concatenated labels; paths that tie on both keep their order |
| Canonical.SortedRootBasedPaths | rostok/graph_grammar/node.py:354-367 | A path failure passes through; on success the result is a permutation of the root paths, ordered by (length, concatenated labels) |
| Canonical.SortedPathsKeepTies | rostok/graph_grammar/node.py:354-367 | Root paths of one length and one concatenated label string stay in enumeration order |
| Canonical.LabelLists | rostok/graph_grammar/node.py:378-380 | One label list per path, in path order |
| Canonical.Representation | rostok/graph_grammar/node.py:369-383 | A path failure passes through; on success the result is a permutation of the label lists, ordered by their concatenation |
| Canonical.RepresentationKeepsTies | rostok/graph_grammar/node.py:377-383 | Label lists with the same concatenation stay in the order of their root paths |
| Canonical.SortedLabelLists | rostok/graph_grammar/node.py:382 | Sorting by concatenation permutes the lists, orders them by concatenation, and keeps lists of one concatenation in their order |
| Canonical.GraphEquals | rostok/graph_grammar/node.py:347-352 | A non-`GraphGrammar` is unequal. Errors from either representation pass through. Otherwise the result is true exactly when the representations are equal |
| Canonical.GraphEqualsReflexive | rostok/graph_grammar/node.py:347-352 | A graph equals itself whenever its representation exists |
| Canonical.GraphEqualsSymmetric | rostok/graph_grammar/node.py:347-352 | Equality is symmetric |
| Canonical.SameLabelListsEqual | rostok/graph_grammar/node.py:347-383 | Graphs whose root paths have the same label lists compare equal, whatever their ids |
| Canonical.PathIndexExact | rostok/graph_grammar/node.py:166-171 | `sort_by_root_path` gives the index of the first path through the node, or None exactly when no path passes through it |
| Canonical.DepthIsDistance | rostok/graph_grammar/node.py:173-174 | A node's position on the sorted paths is defined exactly when it is reachable, and equals its shortest-path node count from the root |
| Canonical.FirstLeast | rostok/graph_grammar/node.py:178-180 | The first position whose (distance, path index) key is minimal: the first element after the two stable sorts |
| Canonical.NearestOf | rostok/graph_grammar/node.py:166-180 | Fails exactly when some candidate is on no root path |
| Canonical.Closest | rostok/graph_grammar/node.py:154-180 | No root gives `NoRoot`; no candidate gives `NoMatch` (indexing an empty list); a path failure passes through |
| Canonical.ClosestIsNearest | rostok/graph_grammar/node.py:176-180 | The chosen id is a candidate; no candidate has a smaller (distance, path index) key; every earlier candidate has a strictly larger one |
| Canonical.ClosestUnreachable | rostok/graph_grammar/node.py:166-174 | A `NoPath` or `UnorderableKeys` failure means some candidate is unreachable from the root |
| Canonical.ClosestSucceeds | rostok/graph_grammar/node.py:154-180 | With the paths enumerable and every candidate reachable, a non-empty candidate list yields a node |
| Rewrite.AnchorIdsFresh | rostok/graph_grammar/node.py:123-131 | Ids are drawn for exactly the two anchors, or one id when they coincide. The ids are distinct and above the old counter, and the counter advances by the number drawn |
| Rewrite.RelabelFresh | rostok/graph_grammar/node.py:133-137 | Every other patch node gets its own fresh id above the counter, the anchors keep theirs, and the counter advances by the number of new ids |
| Rewrite.PatchIdsFresh | rostok/graph_grammar/node.py:123-137 | All patch ids are fresh and injective. The child anchor gets counter+1 and the parent anchor its id. The counter advances by the patch size |
| Rewrite.RedirectIn | rostok/graph_grammar/node.py:139-140 | Each former in-edge `(p, target)` becomes `(p, parent anchor)` |
| Rewrite.RedirectOut | rostok/graph_grammar/node.py:141-142 | Each former out-edge `(target, c)` becomes `(child anchor, c)` |
| Rewrite.MapNodes | rostok/graph_grammar/node.py:145-149 | Patch nodes under the relabelling, in patch order |
| Rewrite.MapEdges | rostok/graph_grammar/node.py:145-150 | Patch edges under the relabelling, in order |
| Rewrite.MapSymbols | rostok/graph_grammar/node.py:145-149 | Each relabelled patch node carries its patch symbol, and nothing else is added |
| Rewrite.EdgeIteration | rostok/graph_grammar/node.py:150 | The patch edges listed by source node (how networkx iterates them), exactly the patch edges |
| Rewrite.SpliceCounter | rostok/graph_grammar/node.py:123-137 | The splice draws exactly as many ids as the patch has nodes |
| Rewrite.SpliceWellFormed | rostok/graph_grammar/node.py:111-152 | The splice keeps the graph well formed and every id at most the new counter, and it advances the counter |
| Rewrite.SpliceSymbols | rostok/graph_grammar/node.py:148-149 | The target disappears, every other node keeps its symbol, and every new node has a fresh id and a patch symbol |
| Rewrite.SpliceEdges | rostok/graph_grammar/node.py:139-152 | Edges away from the target stay. In-edges go to the parent anchor and out-edges leave from the child anchor. Every other edge joins two fresh ids and is the image of a patch edge |
| Rewrite.SpliceCopiesPatch | rostok/graph_grammar/node.py:145-150 | Every patch node and edge appears under the relabelling |
| Rewrite.SpliceNodeCount | rostok/graph_grammar/node.py:148-149 | One node is replaced by as many as the patch has |
| Rewrite.RemoveNodeEffect | rostok/graph_grammar/node.py:204 | Removing a node keeps well-formedness. It deletes exactly that node and, for a leaf, exactly the edges into it |
| Derivation.TargetMatches | rostok/graph_grammar/node.py:196-198 | The rewritten node is a graph node whose label is the rule's |
| Derivation.ClosestInIds | rostok/graph_grammar/node.py:178-180 | `closest_node_to_root` returns one of its arguments |
| Derivation.ApplyKeepsValid | rostok/graph_grammar/node.py:195-206 | `apply_rule` keeps the state valid, and the counter grows by exactly the patch size |
| Derivation.ApplyRewritesTarget | rostok/graph_grammar/node.py:195-206 | The labelled target disappears; every other node keeps its symbol; the node count changes by patch size - 1 |
| Derivation.ApplyAddsPatchNodes | rostok/graph_grammar/node.py:123-149 | Every added node has a fresh id between the old and new counter and carries a patch symbol |
| Derivation.TerminalRuleAddsTerminals | rostok/graph_grammar/node.py:195-206 | A rule whose patch nodes are all terminal adds only terminal nodes |
| Derivation.EmptyRuleRemovesLeaf | rostok/graph_grammar/node.py:199-204 | An empty rule fails with `NotLeaf` exactly when the target has a child. Otherwise it removes only that node and its in-edges, and draws no id |
| Derivation.SpliceRuleReconnects | rostok/graph_grammar/node.py:111-152 | `apply_rule` with a non-empty rule redirects the target's edges to the anchors, keeps every edge away from the target, and copies every patch node and edge under fresh ids |
| Derivation.SpliceRuleAddsNothingElse | rostok/graph_grammar/node.py:139-152 | Every edge afterwards is a kept edge, a redirected edge of the target, or the image of a patch edge under fresh ids |
| Derivation.ApplyWithoutMatch | rostok/graph_grammar/node.py:196-198 | With a root and no matching node, the rule fails with `NoMatch` |
| Derivation.ApplySucceeds | rostok/graph_grammar/node.py:195-206 | A non-empty rule applies when some node matches, every matching node is reachable, and the paths can be enumerated |
| Grammar.GraphGrammar.constructor | rostok/graph_grammar/node.py:83-86 | A new grammar has one node, id 0, labelled ROOT, no edges, and counter 0 |
| Grammar.GraphGrammar.GetUniqId | rostok/graph_grammar/node.py:88-90 | Returns the incremented counter, which is above every id in use; the graph is unchanged |
| Grammar.GraphGrammar.FindNodes | rostok/graph_grammar/node.py:92-109 | Returns exactly the ids whose label matches, in node order, each once |
| Grammar.GraphGrammar.GetRootId | rostok/graph_grammar/node.py:182-193 | Returns the last node without a parent, or None (the unbound local) when every node has one |
| Grammar.PathIndexOf | rostok/graph_grammar/node.py:166-171 | The loop returns the index of the first path containing the node, or None |
| Grammar.Round | rostok/graph_grammar/node.py:317-330 | One pass over the frontier computes the next frontier and appends the retired paths |
| Grammar.ExtendAll | rostok/graph_grammar/node.py:327-328 | The inner loop appends the path extended by each child |
| Grammar.EnumerateFrom | rostok/graph_grammar/node.py:309-332 | The while loop with its round counter computes the path enumeration, including the limit failure |
| Grammar.GraphGrammar.GetRootBasedPaths | rostok/graph_grammar/node.py:300-332 | Returns `RootPaths.RootBasedPaths` of the current graph |
| Grammar.GraphGrammar.GetSortedRootBasedPaths | rostok/graph_grammar/node.py:354-367 | Returns the sorted paths, ordered by (length, concatenated labels) |
| Grammar.LabelListsOf | rostok/graph_grammar/node.py:378-380 | The loop builds the label list of each path |
| Grammar.GraphGrammar.GetUniqRepresentation | rostok/graph_grammar/node.py:369-383 | Returns `Canonical.Representation` of the current graph |
| Grammar.AllOnPaths | rostok/graph_grammar/node.py:166-171 | True exactly when every candidate lies on some root path |
| Grammar.GraphGrammar.ClosestNodeToRoot | rostok/graph_grammar/node.py:154-180 | Returns `Canonical.Closest` of the current graph |
| Grammar.Redirect | rostok/graph_grammar/node.py:120-142 | The two loops rewrite the copied in-edges and out-edges to the anchors |
| Grammar.GraphGrammar.RelabelPatch | rostok/graph_grammar/node.py:133-137 | Draws one id per non-anchor patch node; the graph is unchanged |
| Grammar.GraphGrammar.ReplaceNode | rostok/graph_grammar/node.py:111-152 | For a node of the graph, leaves exactly the spliced graph and counter, and the state stays valid |
| Grammar.GraphGrammar.ApplyRule | rostok/graph_grammar/node.py:195-206 | On failure reports the error and leaves the state unchanged; otherwise leaves exactly `Derivation.Apply`'s state. Valid either way |
| Grammar.GraphGrammar.RemoveLeaf | rostok/graph_grammar/node.py:199-204 | A node with an outgoing edge is not removed and `NotLeaf` is reported; otherwise exactly that node and its edges are removed and the counter is kept |
| Grammar.GraphGrammar.Equals | rostok/graph_grammar/node.py:347-352 | Computes `Canonical.GraphEquals` of the two graphs (`null` stands for a non-grammar operand) |
| MonteCarlo.Selected | rostok/graph_generators/search_algorithms/mcts.py:84 | `actions[mask == 1]`: exactly the available actions, strictly increasing |
| MonteCarlo.Updated | rostok/graph_generators/search_algorithms/mcts.py:64-78 | The update keeps the tables consistent (same pairs in `Qsa` and `Nsa`, positive counts) and leaves `Vs` alone |
| MonteCarlo.UpdatedPair | rostok/graph_generators/search_algorithms/mcts.py:64-78 | `Ns[s]` grows by 1. `Nsa[(s,a)]` grows by 1 (or becomes 1). `Qsa[(s,a)]` becomes r on a first visit, and Q + (r - Q)/N with the old count N otherwise |
| MonteCarlo.UpdatedFrame | rostok/graph_generators/search_algorithms/mcts.py:64-78 | No other state's count and no other pair's entries change |
| MonteCarlo.UpdatedCoherent | rostok/graph_generators/search_algorithms/mcts.py:64-78 | The update keeps `Vs` equal to the cached terminal rewards |
| MonteCarlo.RepeatedValue | rostok/graph_generators/search_algorithms/mcts.py:66-73 | After k updates of a new pair, `Nsa` is k and `Qsa` is the running value of the rewards |
| MonteCarlo.RunningIsMean | rostok/graph_generators/search_algorithms/mcts.py:66-70 | That running value is the first reward when there is one, and otherwise the mean of the rewards after the first, because the update divides by the count before incrementing |
| MonteCarlo.UpdateEachEffect | rostok/graph_generators/search_algorithms/mcts.py:86-97 | Updating once per distinct action raises `Ns[s]` by the number of actions and each action's count by 1. A new pair stores its reward, and nothing else changes |
| MonteCarlo.UpdateEachCount | rostok/graph_generators/search_algorithms/mcts.py:86-97 | The state's count grows by the number of updates |
| MonteCarlo.UpdateEachPair | rostok/graph_generators/search_algorithms/mcts.py:86-97 | Each distinct action's pair is updated exactly once, with its own reward |
| MonteCarlo.UpdateEachOtherPair | rostok/graph_generators/search_algorithms/mcts.py:86-97 | Pairs of other states or other actions are untouched |
| MonteCarlo.UpdateEachElsewhere | rostok/graph_generators/search_algorithms/mcts.py:86-97 | No other state's entries change |
| MonteCarlo.Playout | rostok/graph_generators/search_algorithms/mcts.py:88-95 | The playout from an available action ends at a terminal step, and its reward is the reward of that step |
| MonteCarlo.ArgMax | rostok/graph_generators/search_algorithms/mcts.py:106 | `np.argmax`: the first index of a maximal score |
| MonteCarlo.SelectAction | rostok/graph_generators/search_algorithms/mcts.py:101-120 | Defined exactly when an action is available. It returns an available action, the one at the first maximum of the UCT scores |
| MonteCarlo.SearchTerminal | rostok/graph_generators/search_algorithms/mcts.py:43-48 | A search of a terminal state returns its reward and only fills in `Vs` |
| MonteCarlo.SettledAsWrittenMissesZero | rostok/graph_generators/search_algorithms/mcts.py:47-48 | The early return as written is taken exactly for the terminal states whose reward is not 0.0 |
| MonteCarlo.ZeroRewardTerminalUnsettled | rostok/graph_generators/search_algorithms/mcts.py:43-53 | In a live environment, a terminal state with reward 0.0 and no available action is not returned early by the test as written |
| MonteCarlo.SearchFrame | rostok/graph_generators/search_algorithms/mcts.py:41-62 | A search leaves the statistics of states of higher rank untouched |
| MonteCarlo.SearchUpdatesOnce | rostok/graph_generators/search_algorithms/mcts.py:55-62 | On the recursive path, the state's own statistics change only by the single update of (state, best action) with the returned value |
| MonteCarlo.SearchFirstVisit | rostok/graph_generators/search_algorithms/mcts.py:50-99 | A first visit sets `Ns[state]` to the number of available actions and each of their pairs to count 1 with its reward. It returns the mean of the rewards |
| MonteCarlo.FirstUpdates | rostok/graph_generators/search_algorithms/mcts.py:86-97 | Starting from an unseen state, each distinct action's pair gets count 1 and its own reward |
| MonteCarlo.SumScaled | rostok/graph_generators/search_algorithms/mcts.py:38 | Dividing every entry by d divides the sum by d |
| MonteCarlo.SumIndicator | rostok/graph_generators/search_algorithms/mcts.py:36-37 | The mask as 0/1 entries sums to the number of available actions |
| MonteCarlo.Normalized | rostok/graph_generators/search_algorithms/mcts.py:38 | Dividing non-negative entries by their non-zero sum keeps them non-negative and zeros at zero, and sums to 1 |
| MonteCarlo.PolicyDefined | rostok/graph_generators/search_algorithms/mcts.py:29-39 | The policy is a number vector exactly when some action is available |
| MonteCarlo.PolicyIsDistribution | rostok/graph_generators/search_algorithms/mcts.py:29-39 | A defined policy has one non-negative entry per action, 0 for masked actions, and entries summing to 1 |
| MonteCarlo.PolicyUniform | rostok/graph_generators/search_algorithms/mcts.py:35-38 | When no available action has been visited, each available action gets 1/(number available) |
| MonteCarlo.PolicyProportional | rostok/graph_generators/search_algorithms/mcts.py:32-38 | When some available action was visited, each available action gets its visit count over the total |
| MonteCarlo.ScaleInPlace | rostok/graph_generators/search_algorithms/mcts.py:38 | `pi /= d` in place: every entry divided by d |
| MonteCarlo.Mcts.constructor | rostok/graph_generators/search_algorithms/mcts.py:15-27 | All four tables start empty |
| MonteCarlo.Mcts.UpdateQFunction | rostok/graph_generators/search_algorithms/mcts.py:64-78 | The tables become `Updated` of the old tables, so everything proved about `Updated` holds of the method |
| MonteCarlo.Mcts.DefaultPolicy | rostok/graph_generators/search_algorithms/mcts.py:80-99 | Each available action is played out once and updated once with its reward, and the result is the rewards' mean |
| MonteCarlo.Mcts.Search | rostok/graph_generators/search_algorithms/mcts.py:41-62 | The new tables and value are a search step as `Searched` defines it. `Vs[state]` is cached. A terminal state's reward is returned with `Qsa`, `Nsa` and `Ns` unchanged |
| MonteCarlo.Mcts.GetPolicy | rostok/graph_generators/search_algorithms/mcts.py:29-39 | Returns the policy of the current visit counts over the state's mask, and changes nothing |

## Left out

- networkx itself. The graph is a value of three parts: node ids in insertion order, a map from id to `Node`, and edges in insertion order. Successor and predecessor order are the edge list filtered by source or by target. Graph attributes other than the `Node` symbol are not modelled.
- `node_levels_bfs`, `graph_partition_dfs`, `build_unique_blueprint_array`, `get_node_by_id` and `get_ids_in_dfs_order`: outside the grammar core; the first two depend on networkx traversal order.
- The `block_blueprint` payload of `Node`: it belongs to the physics builder and plays no part in equality or rewriting.
- `GraphGrammar.__hash__` and `Rule.__hash__`: they hash Python `str` renderings of networkx objects, which are not modelled.
- Python's `hash` function: `Node.__hash__` is modelled by the string it hashes (`Symbols.HashInput`).
- The library `list.sort` calls are modelled as stable insertion sorts. A stable sort's output is unique, so the result is the same.
- Grammar.GraphGrammar.ApplyRule: requires the rule to be applicable: a well-formed patch that, unless empty, contains both anchor ids. networkx would otherwise add stray nodes without a `Node` attribute.
- Grammar.GraphGrammar.ReplaceNode: requires the same of the rule's patch, and requires `t` to be a node of the graph. With any other id networkx raises `NetworkXError` at node.py:120, which the model does not reproduce; `ApplyRule` only passes a found node.
- Rules.Rule: the patch is a graph value. The `graph_insert` setter (node.py:49-53) stores a reference to the caller's networkx graph, and a rule that never set one shares the class-level default graph (node.py:38). Later mutation of that graph through another name is not modelled. The repository's callers build a fresh graph for each rule.
- Derivation.ValidState: the graph invariant excludes self-loops. Removing a node with a self-loop in networkx behaves differently, and no rule in the repository creates one.
- Grammar.GraphGrammar.Equals: a non-`GraphGrammar` right operand is modelled as `null`.
- `Rule` attribute assignments other than `graph_insert` are plain field writes; the model reads them through `Rules.Rule.View`.
- `DesignEnvironment` is not part of this model. It is a datatype of functions: the mask, `next_state` and the terminal reward.
- `MCTS.save`/`load`: file and pickle I/O.
- `verbosity`: unused by the modelled methods.
- `uct_score`: an uninterpreted function of (Q, c, N(s), N(s,a)). Its `sqrt`/`log` arithmetic is not modelled.
- `np.random.choice` in the playout is an arbitrary choice among the available actions.
- Rewards and Q values are `real`. NumPy's `float32`/`float64` rounding is not modelled.
- MonteCarlo.Mcts.GetPolicy: when no action is available, NumPy divides by zero and returns NaN entries; the model returns `None` there.
- MonteCarlo.Mcts.DefaultPolicy: requires at least one available action, where `np.mean([])` would return NaN. Also requires a live environment (the `Live` predicate), whose playouts end. In a live environment every state that is not terminal has an available action, so `np.random.choice([])`, which raises `ValueError`, is never reached.
- MonteCarlo.Mcts.Search: requires a live environment. Every available action lowers a ghost rank, so the recursion ends, and a state that is not terminal has an available action.
- MonteCarlo.Mcts.Search: settles a state by its terminality, not by the test `Vs[state] != 0.0` of mcts.py:47 (see Findings). As written, a terminal state with reward 0.0 falls through to the playout. With no available action, `default_policy` then averages an empty list and `update_Q` stores NaN in `Qsa`. The model does not reproduce that path.
- `GraphGrammar.__eq__` compares the representations as lists. Label lists with the same concatenation, such as `["AB", "C"]` and `["A", "BC"]`, keep the order of their root paths (`Canonical.RepresentationKeepsTies`), so two graphs that differ only in node insertion order can compare unequal. The model keeps that order sensitivity and proves no isomorphism invariance.
- `get_policy` reads `Nsa` as a `defaultdict`, which inserts a zero entry for an unvisited pair. The model reads the missing key as 0 and inserts nothing. `update_Q_function` tests `Qsa`, not `Nsa`, so it overwrites such an entry with 1, and the stored zero never changes a later result.
- The Q update is modelled as written: Q + (r - Q)/N with the count before the increment. The stored value is therefore not the arithmetic mean of all rewards (`MonteCarlo.RunningIsMean`).

## Findings

| source | as written | input that shows it | evidently intended | confidence | as-written member | corrected member |
|---|---|---|---|---|---|---|
| rostok/graph_grammar/node.py:21-29 | `Node.__hash__` hashes the label together with `str(is_terminal)`, while `__eq__` compares labels only | `Node("A", True)` and `Node("A", False)` are equal but hash the strings "ATrue" and "AFalse" | equal nodes hash alike, as Python requires of `__hash__`; hash the label only | not executed | Symbols.HashInputSplitsEqualNodes | Symbols.LabelHashAgreesWithEquality |
| rostok/graph_generators/search_algorithms/mcts.py:47-48 | the early return tests `self.Vs[state] != 0.0`, so it is skipped for a terminal state whose reward is 0.0 | a state with terminal reward 0.0 and no available action; the playout then averages an empty reward list | return the cached reward of every terminal state | not executed | MonteCarlo.ZeroRewardTerminalUnsettled | MonteCarlo.SearchTerminal |
