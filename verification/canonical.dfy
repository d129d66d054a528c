/**
  The views of a design graph built on its root-based paths:
  `get_sorted_root_based_paths`, `get_uniq_representation`, the graph
  equality `GraphGrammar.__eq__` they drive, and the candidate that
  `closest_node_to_root` picks. All are functions of the graph value; the
  grammar class computes them with its own methods.
*/
module Canonical {
  import opened Wrappers
  import opened Lex
  import opened StableSort
  import opened Symbols
  import opened Digraphs
  import opened RootPaths

  // ----------------------------------------------------------- labels

  /** Every id of the path carries a symbol. */
  predicate Labelled(symbol: map<int, Node>, p: seq<int>)
  {
    forall v :: v in p ==> v in symbol
  }

  /** `[self.get_node_by_id(x).label for x in path]` */
  function Labels(symbol: map<int, Node>, p: seq<int>): (r: seq<string>)
    requires Labelled(symbol, p)
    ensures |r| == |p|
  {
    if |p| == 0 then [] else
      var v := p[|p| - 1];
      assert v in p;
      Labels(symbol, p[..|p| - 1]) + [symbol[v].name]
  }

  /** `secondary_key`: the labels along the path, concatenated. */
  function PathKey(symbol: map<int, Node>, p: seq<int>): string
    requires Labelled(symbol, p)
  {
    Join(Labels(symbol, p))
  }

  /** Every id of a walk from a node of a well-formed graph is a node of it. */
  lemma {:induction false} WalkLabelled(g: Digraph, root: int, p: Path)
    requires WellFormed(g) && root in g.symbol && WalkFrom(g.edges, root, p)
    ensures Labelled(g.symbol, p)
    decreases |p|
  {
    if |p| >= 2 {
      WalkLabelled(g, root, Init(p));
      assert (Last(Init(p)), Last(p)) in g.edges;
      assert p == Init(p) + [Last(p)];
    }
  }

  /** The root-based paths of a well-formed graph run through its nodes only. */
  lemma RootPathsLabelled(g: Digraph)
    requires WellFormed(g) && RootBasedPaths(g).Ok?
    ensures forall p :: p in RootBasedPaths(g).value ==> Labelled(g.symbol, p)
  {
    var root := RootOf(g.nodes, g.edges).value;
    forall p | p in RootBasedPaths(g).value ensures Labelled(g.symbol, p) {
      WalkLabelled(g, root, p);
    }
  }

  // ------------------------------------------------- sorted root paths

  /** Each path paired with its concatenated labels. */
  function KeyPaths(symbol: map<int, Node>, paths: seq<seq<int>>): (r: seq<Keyed<seq<int>>>)
    requires forall p :: p in paths ==> Labelled(symbol, p)
    ensures |r| == |paths|
    ensures forall i :: 0 <= i < |r| ==> r[i].item == paths[i] && r[i].key == PathKey(symbol, paths[i])
  {
    if |paths| == 0 then [] else
      KeyPaths(symbol, paths[..|paths| - 1]) + [Keyed(paths[|paths| - 1], PathKey(symbol, paths[|paths| - 1]))]
  }

  /** Sorted by length and, among paths of one length, by concatenated labels. */
  ghost predicate ByLengthThenLabels(symbol: map<int, Node>, ps: seq<seq<int>>)
    requires forall p :: p in ps ==> Labelled(symbol, p)
  {
    forall i, j :: 0 <= i < j < |ps| ==>
      |ps[i]| < |ps[j]| || (|ps[i]| == |ps[j]| && StrLe(PathKey(symbol, ps[i]), PathKey(symbol, ps[j])))
  }

  /** The test that picks the labelled paths of `n` nodes whose concatenated labels are `k`. */
  function PathClass(symbol: map<int, Node>, n: nat, k: string): seq<int> -> bool
  {
    q => |q| == n && Labelled(symbol, q) && PathKey(symbol, q) == k
  }

  /**
    The two stable sorts of `get_sorted_root_based_paths`, on a list of
    labelled paths. Paths that tie on both length and concatenated labels
    stay in the order they were enumerated in.
  */
  function SortPaths(symbol: map<int, Node>, paths: seq<seq<int>>): (r: seq<seq<int>>)
    requires forall p :: p in paths ==> Labelled(symbol, p)
    ensures multiset(r) == multiset(paths)
    ensures forall p :: p in r ==> Labelled(symbol, p)
    ensures ByLengthThenLabels(symbol, r)
    ensures forall n: nat, k :: Filter(r, PathClass(symbol, n, k)) == Filter(paths, PathClass(symbol, n, k))
  {
    var keyed := KeyPaths(symbol, paths);
    var sorted := SortByLength(SortByKey(keyed));
    SortByLengthAfterKey(SortByKey(keyed));
    SortedKeysAreLabelKeys(symbol, keyed, sorted);
    ItemsPermute(sorted, keyed);
    assert Items(keyed) == paths;
    SortedItems(symbol, sorted);
    SortPathsKeepsTies(symbol, paths);
    Items(sorted)
  }

  /** Both sorts are stable, so paths of one length and one key keep their order. */
  lemma SortPathsKeepsTies(symbol: map<int, Node>, paths: seq<seq<int>>)
    requires forall p :: p in paths ==> Labelled(symbol, p)
    ensures var sorted := SortByLength(SortByKey(KeyPaths(symbol, paths)));
      forall n: nat, k :: Filter(Items(sorted), PathClass(symbol, n, k)) == Filter(paths, PathClass(symbol, n, k))
  {
    forall n: nat, k
      ensures Filter(Items(SortByLength(SortByKey(KeyPaths(symbol, paths)))), PathClass(symbol, n, k))
           == Filter(paths, PathClass(symbol, n, k))
    {
      SortPathsKeepsTie(symbol, paths, n, k);
    }
  }

  lemma SortPathsKeepsTie(symbol: map<int, Node>, paths: seq<seq<int>>, n: nat, k: string)
    requires forall p :: p in paths ==> Labelled(symbol, p)
    ensures Filter(Items(SortByLength(SortByKey(KeyPaths(symbol, paths)))), PathClass(symbol, n, k))
         == Filter(paths, PathClass(symbol, n, k))
  {
    var keyed := KeyPaths(symbol, paths);
    var sorted := SortByLength(SortByKey(keyed));
    LengthKeyTieIsOneClass<int>(n, k);
    assert Filter(sorted, LengthKeyTie(n, k)) == Filter(keyed, LengthKeyTie(n, k));
    SortedKeysAreLabelKeys(symbol, keyed, sorted);
    KeyedPathsInClass(symbol, sorted, n, k);
    KeyedPathsInClass(symbol, keyed, n, k);
    assert Items(keyed) == paths;
  }

  /** On paths keyed by their labels, the (length, key) class picks the items of the path class. */
  lemma KeyedPathsInClass(symbol: map<int, Node>, s: seq<Keyed<seq<int>>>, n: nat, k: string)
    requires forall i :: 0 <= i < |s| ==> Labelled(symbol, s[i].item) && s[i].key == PathKey(symbol, s[i].item)
    ensures Items(Filter(s, LengthKeyTie(n, k))) == Filter(Items(s), PathClass(symbol, n, k))
  {
    forall i | 0 <= i < |s| ensures LengthKeyTie(n, k)(s[i]) == PathClass(symbol, n, k)(s[i].item) {
    }
    ItemsFilter(s, LengthKeyTie(n, k), PathClass(symbol, n, k));
  }

  /** Keyed paths sorted by (length, key), whose keys are their labels, give paths sorted by (length, labels). */
  lemma SortedItems(symbol: map<int, Node>, sorted: seq<Keyed<seq<int>>>)
    requires forall i :: 0 <= i < |sorted| ==> Labelled(symbol, sorted[i].item) && sorted[i].key == PathKey(symbol, sorted[i].item)
    requires LengthThenKeySorted(sorted)
    ensures forall p :: p in Items(sorted) ==> Labelled(symbol, p)
    ensures ByLengthThenLabels(symbol, Items(sorted))
  {
    var r := Items(sorted);
    forall i, j | 0 <= i < j < |r|
      ensures |r[i]| < |r[j]| || (|r[i]| == |r[j]| && StrLe(PathKey(symbol, r[i]), PathKey(symbol, r[j])))
    {
      assert r[i] == sorted[i].item && r[j] == sorted[j].item;
    }
  }

  /**
    `get_sorted_root_based_paths`: the root-based paths stably sorted by
    concatenated labels and then stably by length. It fails as the path
    enumeration does.
  */
  function SortedRootBasedPaths(g: Digraph): (r: Result<seq<seq<int>>, GraphError>)
    requires WellFormed(g)
    ensures RootBasedPaths(g).Err? ==> r == Err(RootBasedPaths(g).error)
    ensures RootBasedPaths(g).Ok? ==> r.Ok? && multiset(r.value) == multiset(RootBasedPaths(g).value)
    ensures r.Err? ==> r.error in {NoRoot, IterationLimit}
    ensures r.Ok? ==> forall p :: p in r.value ==> Labelled(g.symbol, p)
    ensures r.Ok? ==> ByLengthThenLabels(g.symbol, r.value)
  {
    match RootBasedPaths(g)
    case Err(e) => Err(e)
    case Ok(paths) =>
      RootPathsLabelled(g);
      Ok(SortPaths(g.symbol, paths))
  }

  /** Root-based paths that tie on both length and concatenated labels keep their enumeration order. */
  lemma SortedPathsKeepTies(g: Digraph, paths: seq<seq<int>>)
    requires WellFormed(g) && RootBasedPaths(g) == Ok(paths)
    ensures SortedRootBasedPaths(g).Ok?
    ensures forall n: nat, k ::
      Filter(SortedRootBasedPaths(g).value, PathClass(g.symbol, n, k)) == Filter(paths, PathClass(g.symbol, n, k))
  {
    RootPathsLabelled(g);
    assert SortedRootBasedPaths(g) == Ok(SortPaths(g.symbol, paths));
  }

  /** A reordering of keyed paths still pairs each path with its own concatenated labels. */
  lemma SortedKeysAreLabelKeys(symbol: map<int, Node>, keyed: seq<Keyed<seq<int>>>, sorted: seq<Keyed<seq<int>>>)
    requires forall i :: 0 <= i < |keyed| ==> Labelled(symbol, keyed[i].item) && keyed[i].key == PathKey(symbol, keyed[i].item)
    requires multiset(sorted) == multiset(keyed)
    ensures forall i :: 0 <= i < |sorted| ==> Labelled(symbol, sorted[i].item) && sorted[i].key == PathKey(symbol, sorted[i].item)
  {
    forall i | 0 <= i < |sorted|
      ensures Labelled(symbol, sorted[i].item) && sorted[i].key == PathKey(symbol, sorted[i].item)
    {
      assert sorted[i] in multiset(keyed);
      var j :| 0 <= j < |keyed| && keyed[j] == sorted[i];
    }
  }

  // --------------------------------------------------- representation

  /** The label sequence of each path, in path order. */
  function LabelLists(symbol: map<int, Node>, paths: seq<seq<int>>): (r: seq<seq<string>>)
    requires forall p :: p in paths ==> Labelled(symbol, p)
    ensures |r| == |paths|
    ensures forall i :: 0 <= i < |r| ==> r[i] == Labels(symbol, paths[i])
  {
    if |paths| == 0 then [] else
      LabelLists(symbol, paths[..|paths| - 1]) + [Labels(symbol, paths[|paths| - 1])]
  }

  /** Each label list paired with its concatenation. */
  function KeyLabels(lists: seq<seq<string>>): (r: seq<Keyed<seq<string>>>)
    ensures |r| == |lists|
    ensures forall i :: 0 <= i < |r| ==> r[i] == Keyed(lists[i], Join(lists[i]))
  {
    if |lists| == 0 then [] else KeyLabels(lists[..|lists| - 1]) + [Keyed(lists[|lists| - 1], Join(lists[|lists| - 1]))]
  }

  /** The test that picks the label lists whose concatenation is `k`. */
  function JoinsTo(k: string): seq<string> -> bool
  {
    l => Join(l) == k
  }

  /**
    `get_uniq_representation`: the label sequences of the root-based paths,
    stably sorted by their concatenation.
  */
  function Representation(g: Digraph): (r: Result<seq<seq<string>>, GraphError>)
    requires WellFormed(g)
    ensures RootBasedPaths(g).Err? ==> r == Err(RootBasedPaths(g).error)
    ensures RootBasedPaths(g).Ok? ==> (r.Ok? &&
      (RootPathsLabelled(g);
       multiset(r.value) == multiset(LabelLists(g.symbol, RootBasedPaths(g).value))))
    ensures r.Ok? ==> forall i, j :: 0 <= i < j < |r.value| ==> StrLe(Join(r.value[i]), Join(r.value[j]))
  {
    match RootBasedPaths(g)
    case Err(e) => Err(e)
    case Ok(paths) =>
      RootPathsLabelled(g);
      var lists := LabelLists(g.symbol, paths);
      SortedLabelLists(lists);
      Ok(Items(SortByKey(KeyLabels(lists))))
  }

  /**
    Sorting label lists by their concatenation reorders them into
    concatenation order, and lists of one concatenation keep their order.
  */
  lemma SortedLabelLists(lists: seq<seq<string>>)
    ensures var r := Items(SortByKey(KeyLabels(lists)));
      && multiset(r) == multiset(lists)
      && (forall i, j :: 0 <= i < j < |r| ==> StrLe(Join(r[i]), Join(r[j])))
      && forall k :: Filter(r, JoinsTo(k)) == Filter(lists, JoinsTo(k))
  {
    var keyed := KeyLabels(lists);
    var sorted := SortByKey(keyed);
    SortedKeysAreJoins(keyed, sorted);
    ItemsPermute(sorted, keyed);
    assert Items(keyed) == lists;
    var r := Items(sorted);
    forall i, j | 0 <= i < j < |r| ensures StrLe(Join(r[i]), Join(r[j])) {
      assert r[i] == sorted[i].item && r[j] == sorted[j].item;
    }
    forall k ensures Filter(r, JoinsTo(k)) == Filter(lists, JoinsTo(k)) {
      LabelListsKeepTie(lists, k);
    }
  }

  lemma LabelListsKeepTie(lists: seq<seq<string>>, k: string)
    ensures Filter(Items(SortByKey(KeyLabels(lists))), JoinsTo(k)) == Filter(lists, JoinsTo(k))
  {
    var keyed := KeyLabels(lists);
    var sorted := SortByKey(keyed);
    KeyTieIsOneKey<seq<string>>(k);
    assert Filter(sorted, KeyTie(k)) == Filter(keyed, KeyTie(k));
    SortedKeysAreJoins(keyed, sorted);
    KeyedListsInClass(sorted, k);
    KeyedListsInClass(keyed, k);
    assert Items(keyed) == lists;
  }

  /** On label lists keyed by their concatenation, the key class picks the lists of that concatenation. */
  lemma KeyedListsInClass(s: seq<Keyed<seq<string>>>, k: string)
    requires forall i :: 0 <= i < |s| ==> s[i].key == Join(s[i].item)
    ensures Items(Filter(s, KeyTie(k))) == Filter(Items(s), JoinsTo(k))
  {
    forall i | 0 <= i < |s| ensures KeyTie(k)(s[i]) == JoinsTo(k)(s[i].item) {
    }
    ItemsFilter(s, KeyTie(k), JoinsTo(k));
  }

  /** Label lists with one concatenation keep the order of their root-based paths. */
  lemma RepresentationKeepsTies(g: Digraph, paths: seq<seq<int>>)
    requires WellFormed(g) && RootBasedPaths(g) == Ok(paths)
    ensures forall p :: p in paths ==> Labelled(g.symbol, p)
    ensures Representation(g).Ok?
    ensures forall k :: Filter(Representation(g).value, JoinsTo(k)) == Filter(LabelLists(g.symbol, paths), JoinsTo(k))
  {
    RootPathsLabelled(g);
    SortedLabelLists(LabelLists(g.symbol, paths));
  }

  /** A reordering of keyed label lists still pairs each list with its concatenation. */
  lemma SortedKeysAreJoins(keyed: seq<Keyed<seq<string>>>, sorted: seq<Keyed<seq<string>>>)
    requires forall i :: 0 <= i < |keyed| ==> keyed[i].key == Join(keyed[i].item)
    requires multiset(sorted) == multiset(keyed)
    ensures forall i :: 0 <= i < |sorted| ==> sorted[i].key == Join(sorted[i].item)
  {
    forall i | 0 <= i < |sorted| ensures sorted[i].key == Join(sorted[i].item) {
      assert sorted[i] in multiset(keyed);
      var j :| 0 <= j < |keyed| && keyed[j] == sorted[i];
    }
  }

  // ------------------------------------------------- closest to the root

  /** The first position of `v` on `p`. */
  function IndexOf(p: seq<int>, v: int): (r: nat)
    requires v in p
    ensures r < |p| && p[r] == v
    ensures forall k :: 0 <= k < r ==> p[k] != v
  {
    if p[0] == v then 0 else IndexOf(p[1..], v) + 1
  }

  /**
    `sort_by_root_path`: the index in the sorted path list of the first path
    through `v`, or `None` when no path passes through it.
  */
  function PathIndex(paths: seq<seq<int>>, v: int): Option<nat>
  {
    if |paths| == 0 then None
    else if v in paths[0] then Some(0)
    else
      match PathIndex(paths[1..], v)
      case None => None
      case Some(k) => Some(k + 1)
  }

  /** `PathIndex` finds the first path through `v`, and finds none only when no path passes through it. */
  lemma {:induction false} PathIndexExact(paths: seq<seq<int>>, v: int)
    ensures PathIndex(paths, v).None? <==> forall p :: p in paths ==> v !in p
    ensures PathIndex(paths, v).Some? ==>
      var k := PathIndex(paths, v).value;
      k < |paths| && v in paths[k] && forall j :: 0 <= j < k ==> v !in paths[j]
  {
    if |paths| > 0 && v !in paths[0] {
      PathIndexExact(paths[1..], v);
      assert paths == [paths[0]] + paths[1..];
    }
  }

  /**
    The number of nodes on the shortest way from the root to `v`, read off
    the root paths: the least position of `v` on a path through it, plus one.
  */
  function Depth(paths: seq<seq<int>>, v: int): Option<nat>
  {
    if |paths| == 0 then None else
      var p := paths[|paths| - 1];
      var rest := Depth(paths[..|paths| - 1], v);
      if v !in p then rest
      else if rest.None? || IndexOf(p, v) + 1 < rest.value then Some(IndexOf(p, v) + 1)
      else rest
  }

  /** `Depth` is the least position of `v`, plus one, over the paths through it. */
  lemma {:induction false} DepthExact(paths: seq<seq<int>>, v: int)
    ensures Depth(paths, v).None? <==> forall p :: p in paths ==> v !in p
    ensures Depth(paths, v).Some? ==> exists p :: p in paths && v in p && IndexOf(p, v) + 1 == Depth(paths, v).value
    ensures Depth(paths, v).Some? ==> forall p :: p in paths && v in p ==> Depth(paths, v).value <= IndexOf(p, v) + 1
  {
    if |paths| > 0 {
      var init := paths[..|paths| - 1];
      DepthExact(init, v);
      assert paths == init + [paths[|paths| - 1]];
    }
  }

  /** The sort key of a candidate after both sorts: distance first, then path index. */
  function RankOf(paths: seq<seq<int>>, v: int): (nat, nat)
    requires PathIndex(paths, v).Some?
  {
    PathIndexExact(paths, v);
    DepthExact(paths, v);
    (Depth(paths, v).value, PathIndex(paths, v).value)
  }

  predicate RankLess(a: (nat, nat), b: (nat, nat))
  {
    a.0 < b.0 || (a.0 == b.0 && a.1 < b.1)
  }

  /** The ranks of all candidates, in candidate order. */
  function Ranks(paths: seq<seq<int>>, ids: seq<int>): (r: seq<(nat, nat)>)
    requires forall i :: 0 <= i < |ids| ==> PathIndex(paths, ids[i]).Some?
    ensures |r| == |ids|
    ensures forall i :: 0 <= i < |ids| ==> r[i] == RankOf(paths, ids[i])
  {
    if |ids| == 0 then [] else
      var init := ids[..|ids| - 1];
      assert forall i :: 0 <= i < |init| ==> init[i] == ids[i];
      Ranks(paths, init) + [RankOf(paths, ids[|ids| - 1])]
  }

  /**
    The position two stable sorts by rank put first: a least rank and, among
    equal least ranks, the earliest position.
  */
  function FirstLeast(ranks: seq<(nat, nat)>): (k: nat)
    requires |ranks| > 0
    ensures k < |ranks|
    ensures forall i :: 0 <= i < |ranks| ==> !RankLess(ranks[i], ranks[k])
    ensures forall i :: 0 <= i < k ==> RankLess(ranks[k], ranks[i])
  {
    if |ranks| == 1 then 0 else
      var k := FirstLeast(ranks[1..]) + 1;
      assert ranks[k] == ranks[1..][k - 1];
      if RankLess(ranks[k], ranks[0]) then k else 0
  }

  /**
    The two sorts of `closest_node_to_root` over the sorted root paths. Every
    candidate's path index is computed before any comparison: a candidate on
    no root path makes the first sort compare `None` once there are two
    candidates or more, and makes `nx.shortest_path` fail when it is the only
    one. Otherwise the first candidate of the sorted list is returned.
  */
  function NearestOf(paths: seq<seq<int>>, ids: seq<int>): (r: Result<int, GraphError>)
    requires |ids| > 0
    ensures r.Err? <==> exists i :: 0 <= i < |ids| && PathIndex(paths, ids[i]).None?
  {
    if exists i :: 0 <= i < |ids| && PathIndex(paths, ids[i]).None? then
      Err(if |ids| >= 2 then UnorderableKeys else NoPath)
    else
      Ok(ids[FirstLeast(Ranks(paths, ids))])
  }

  /**
    `closest_node_to_root`. The root is looked up first, and its absence is
    the first failure. No candidate leaves the sorts empty, and reading the
    first element fails. A failure to enumerate the paths comes next.
  */
  function Closest(g: Digraph, ids: seq<int>): (r: Result<int, GraphError>)
    requires WellFormed(g)
    ensures RootOf(g.nodes, g.edges).None? ==> r == Err(NoRoot)
    ensures RootOf(g.nodes, g.edges).Some? && |ids| == 0 ==> r == Err(NoMatch)
    ensures |ids| > 0 && SortedRootBasedPaths(g).Err? ==> r == Err(SortedRootBasedPaths(g).error)
  {
    match RootOf(g.nodes, g.edges)
    case None => Err(NoRoot)
    case Some(_) =>
      if |ids| == 0 then Err(NoMatch) else
        match SortedRootBasedPaths(g)
        case Err(e) => Err(e)
        case Ok(paths) => NearestOf(paths, ids)
  }

  /**
    The candidate `closest_node_to_root` returns is one of the given ids,
    no given id is strictly nearer the root or, equally near, on an earlier
    sorted root path, and every id before it in the list is strictly
    further in that order: the first element of the two stable sorts.
  */
  lemma ClosestIsNearest(g: Digraph, ids: seq<int>)
    requires WellFormed(g) && Closest(g, ids).Ok?
    ensures SortedRootBasedPaths(g).Ok?
    ensures var r := Closest(g, ids).value;
            var paths := SortedRootBasedPaths(g).value;
            && PathIndex(paths, r).Some?
            && (exists k :: 0 <= k < |ids| && ids[k] == r &&
                  forall i :: 0 <= i < k ==> RankLess(RankOf(paths, r), RankOf(paths, ids[i])))
            && forall i :: 0 <= i < |ids| ==> !RankLess(RankOf(paths, ids[i]), RankOf(paths, r))
  {
    assert RootOf(g.nodes, g.edges).Some? && |ids| > 0;
    assert SortedRootBasedPaths(g).Ok?;
    var paths := SortedRootBasedPaths(g).value;
    assert Closest(g, ids) == NearestOf(paths, ids);
    NearestOfIsNearest(paths, ids);
  }

  /** The first candidate after the two sorts has the least rank, and is the earliest with it. */
  lemma NearestOfIsNearest(paths: seq<seq<int>>, ids: seq<int>)
    requires |ids| > 0 && NearestOf(paths, ids).Ok?
    ensures var r := NearestOf(paths, ids).value;
            && PathIndex(paths, r).Some?
            && (exists k :: 0 <= k < |ids| && ids[k] == r &&
                  forall i :: 0 <= i < k ==> RankLess(RankOf(paths, r), RankOf(paths, ids[i])))
            && forall i :: 0 <= i < |ids| ==> !RankLess(RankOf(paths, ids[i]), RankOf(paths, r))
  {
    var ranks := Ranks(paths, ids);
    var k := FirstLeast(ranks);
    assert NearestOf(paths, ids).value == ids[k];
    assert ranks[k] == RankOf(paths, ids[k]);
  }

  /** A failing comparison or a missing path comes from a candidate on no sorted root path. */
  lemma Unplaced(g: Digraph, ids: seq<int>) returns (i: nat)
    requires WellFormed(g)
    requires Closest(g, ids) == Err(NoPath) || Closest(g, ids) == Err(UnorderableKeys)
    ensures SortedRootBasedPaths(g).Ok?
    ensures i < |ids| && PathIndex(SortedRootBasedPaths(g).value, ids[i]).None?
  {
    assert RootOf(g.nodes, g.edges).Some? && |ids| > 0;
    assert SortedRootBasedPaths(g).Ok?;
    var paths := SortedRootBasedPaths(g).value;
    assert NearestOf(paths, ids).Err?;
    i :| 0 <= i < |ids| && PathIndex(paths, ids[i]).None?;
  }

  /** `v` is reached from the root by the walk `w`. */
  ghost predicate WalkTo(edges: seq<Edge>, root: int, v: int, w: Path)
  {
    WalkFrom(edges, root, w) && Last(w) == v
  }

  /** `paths` lists exactly the root-to-leaf walks, and no walk from the root is longer than the round limit allows. */
  ghost predicate EnumeratedFrom(edges: seq<Edge>, root: int, paths: seq<seq<int>>)
  {
    && (forall p :: p in paths ==> |p| > 0)
    && (forall p: Path :: p in paths <==> RootToLeaf(edges, root, p))
    && (forall p :: WalkFrom(edges, root, p) ==> |p| <= RoundLimit + 1)
  }

  /** The sorted root paths are such a listing. */
  lemma SortedPathsEnumerated(g: Digraph)
    requires WellFormed(g) && SortedRootBasedPaths(g).Ok?
    ensures EnumeratedFrom(g.edges, RootOf(g.nodes, g.edges).value, SortedRootBasedPaths(g).value)
  {
    var paths := SortedRootBasedPaths(g).value;
    var all := RootBasedPaths(g).value;
    forall p | p in paths ensures |p| > 0 {
      assert p in multiset(all);
    }
    forall p: Path ensures p in paths <==> p in all {
      assert p in paths <==> p in multiset(all);
    }
  }

  /** The prefix of a listed path up to the first visit of `v` is a walk from the root to `v`. */
  lemma PrefixWalk(edges: seq<Edge>, root: int, paths: seq<seq<int>>, p: seq<int>, v: int)
    requires EnumeratedFrom(edges, root, paths)
    requires p in paths && v in p
    ensures exists w :: WalkTo(edges, root, v, w) && |w| == IndexOf(p, v) + 1
  {
    var q: Path := p;
    WalkPrefix(edges, root, q, IndexOf(p, v) + 1);
    var w: Path := q[..IndexOf(p, v) + 1];
    assert Last(w) == v;
  }

  /** A walk from the root to `v` runs along a listed path that visits `v` no later than the walk ends. */
  lemma WalkOnPath(edges: seq<Edge>, root: int, paths: seq<seq<int>>, v: int, w: Path)
    requires EnumeratedFrom(edges, root, paths)
    requires WalkTo(edges, root, v, w)
    ensures Depth(paths, v).Some? && Depth(paths, v).value <= |w|
  {
    var q := ExtendToLeaf(edges, root, w);
    assert q[|w| - 1] == w[|w| - 1];
    assert v in q;
    DepthExact(paths, v);
  }

  /**
    Over such a listing a node lies on a path exactly when the root reaches
    it, and `Depth` is the node count of a shortest walk from the root to
    it: the key `len(nx.shortest_path(...))`.
  */
  lemma DepthIsDistance(edges: seq<Edge>, root: int, paths: seq<seq<int>>, v: int)
    requires EnumeratedFrom(edges, root, paths)
    ensures Depth(paths, v).Some? <==> exists w :: WalkTo(edges, root, v, w)
    ensures Depth(paths, v).Some? ==> exists w :: WalkTo(edges, root, v, w) && |w| == Depth(paths, v).value
    ensures forall w :: WalkTo(edges, root, v, w) ==> Depth(paths, v).Some? && Depth(paths, v).value <= |w|
  {
    DepthExact(paths, v);
    if Depth(paths, v).Some? {
      var p :| p in paths && v in p && IndexOf(p, v) + 1 == Depth(paths, v).value;
      PrefixWalk(edges, root, paths, p, v);
    }
    forall w | WalkTo(edges, root, v, w) ensures Depth(paths, v).Some? && Depth(paths, v).value <= |w| {
      WalkOnPath(edges, root, paths, v, w);
    }
  }

  /**
    `closest_node_to_root` fails with `NoPath` or `UnorderableKeys` only
    when some candidate cannot be reached from the root.
  */
  lemma ClosestUnreachable(g: Digraph, ids: seq<int>)
    requires WellFormed(g)
    requires Closest(g, ids) == Err(NoPath) || Closest(g, ids) == Err(UnorderableKeys)
    ensures SortedRootBasedPaths(g).Ok?
    ensures exists i :: 0 <= i < |ids| && forall w :: !WalkTo(g.edges, RootOf(g.nodes, g.edges).value, ids[i], w)
  {
    var paths := SortedRootBasedPaths(g).value;
    var i := Unplaced(g, ids);
    SortedPathsEnumerated(g);
    UnplacedUnreachable(g.edges, RootOf(g.nodes, g.edges).value, paths, ids[i]);
  }

  /** Some walk from the root reaches `v`. */
  ghost predicate Reachable(edges: seq<Edge>, root: int, v: int)
  {
    exists w :: WalkTo(edges, root, v, w)
  }

  /**
    Conversely, `closest_node_to_root` succeeds on a non-empty list of
    candidates all reachable from the root, once the paths are enumerated.
  */
  lemma ClosestSucceeds(g: Digraph, ids: seq<int>)
    requires WellFormed(g) && SortedRootBasedPaths(g).Ok? && |ids| > 0
    requires forall i :: 0 <= i < |ids| ==> Reachable(g.edges, RootOf(g.nodes, g.edges).value, ids[i])
    ensures Closest(g, ids).Ok?
  {
    var paths := SortedRootBasedPaths(g).value;
    SortedPathsEnumerated(g);
    AllPlaced(g.edges, RootOf(g.nodes, g.edges).value, paths, ids);
    NearestOfPlaced(paths, ids);
    ClosestFrom(g, ids);
  }

  /** With every candidate on some path, the two sorts pick a candidate. */
  lemma NearestOfPlaced(paths: seq<seq<int>>, ids: seq<int>)
    requires |ids| > 0 && forall i :: 0 <= i < |ids| ==> PathIndex(paths, ids[i]).Some?
    ensures NearestOf(paths, ids).Ok?
  {
  }

  /** Over a listing of the root paths, candidates the root reaches all lie on one of them. */
  lemma AllPlaced(edges: seq<Edge>, root: int, paths: seq<seq<int>>, ids: seq<int>)
    requires EnumeratedFrom(edges, root, paths)
    requires forall i :: 0 <= i < |ids| ==> Reachable(edges, root, ids[i])
    ensures forall i :: 0 <= i < |ids| ==> PathIndex(paths, ids[i]).Some?
  {
    forall i | 0 <= i < |ids| ensures PathIndex(paths, ids[i]).Some? {
      var v := ids[i];
      assert Reachable(edges, root, v);
      var w :| WalkTo(edges, root, v, w);
      ReachablePlaced(edges, root, paths, ids[i], w);
    }
  }

  /** Over a listing of the root paths, a node the root reaches lies on one of them. */
  lemma ReachablePlaced(edges: seq<Edge>, root: int, paths: seq<seq<int>>, v: int, w: Path)
    requires EnumeratedFrom(edges, root, paths) && WalkTo(edges, root, v, w)
    ensures PathIndex(paths, v).Some?
  {
    WalkOnPath(edges, root, paths, v, w);
    DepthExact(paths, v);
    PathIndexExact(paths, v);
  }

  /** Over a listing of the root paths, a node on none of them is unreachable from the root. */
  lemma UnplacedUnreachable(edges: seq<Edge>, root: int, paths: seq<seq<int>>, v: int)
    requires EnumeratedFrom(edges, root, paths) && PathIndex(paths, v).None?
    ensures forall w :: !WalkTo(edges, root, v, w)
  {
    PathIndexExact(paths, v);
    DepthExact(paths, v);
    DepthIsDistance(edges, root, paths, v);
  }

  // ---------------------------------------------------------- equality

  /** The right operand of `GraphGrammar.__eq__`: a grammar graph or any other object. */
  datatype GrammarOperand = GrammarOperand(graph: Digraph) | OtherObject

  /**
    `GraphGrammar.__eq__`: another grammar graph is equal when the two
    representations are; any other object is unequal. The left
    representation is computed first, so its failure is the one raised.
  */
  function GraphEquals(g: Digraph, o: GrammarOperand): (r: Result<bool, GraphError>)
    requires WellFormed(g) && (o.GrammarOperand? ==> WellFormed(o.graph))
    ensures o.OtherObject? ==> r == Ok(false)
    ensures o.GrammarOperand? && Representation(g).Err? ==> r == Err(Representation(g).error)
    ensures o.GrammarOperand? && Representation(g).Ok? && Representation(o.graph).Err? ==>
      r == Err(Representation(o.graph).error)
    ensures o.GrammarOperand? && Representation(g).Ok? && Representation(o.graph).Ok? ==>
      r.Ok? && (r.value <==> Representation(g).value == Representation(o.graph).value)
  {
    match o
    case OtherObject => Ok(false)
    case GrammarOperand(h) =>
      match Representation(g)
      case Err(e) => Err(e)
      case Ok(mine) =>
        match Representation(h)
        case Err(e) => Err(e)
        case Ok(theirs) => Ok(mine == theirs)
  }

  /** Equality is reflexive on every graph whose representation can be computed. */
  lemma GraphEqualsReflexive(g: Digraph)
    requires WellFormed(g)
    ensures Representation(g).Ok? ==> GraphEquals(g, GrammarOperand(g)) == Ok(true)
    ensures Representation(g).Err? ==> GraphEquals(g, GrammarOperand(g)).Err?
  {
  }

  /** Equality is symmetric whenever both representations can be computed. */
  lemma GraphEqualsSymmetric(g: Digraph, h: Digraph)
    requires WellFormed(g) && WellFormed(h)
    requires Representation(g).Ok? && Representation(h).Ok?
    ensures GraphEquals(g, GrammarOperand(h)) == GraphEquals(h, GrammarOperand(g))
  {
  }

  /** Graphs whose root-based paths carry the same label sequences in the same order are equal. */
  lemma SameLabelListsEqual(g: Digraph, h: Digraph)
    requires WellFormed(g) && WellFormed(h)
    requires RootBasedPaths(g).Ok? && RootBasedPaths(h).Ok?
    requires (RootPathsLabelled(g); RootPathsLabelled(h);
      LabelLists(g.symbol, RootBasedPaths(g).value) == LabelLists(h.symbol, RootBasedPaths(h).value))
    ensures GraphEquals(g, GrammarOperand(h)) == Ok(true)
  {
  }

  // ------------------------------------------------------ unfoldings

  /** On success the representation is the sorted label lists of the root paths. */
  lemma RepresentationFrom(g: Digraph)
    requires WellFormed(g) && RootBasedPaths(g).Ok?
    ensures (RootPathsLabelled(g);
      Representation(g) == Ok(Items(SortByKey(KeyLabels(LabelLists(g.symbol, RootBasedPaths(g).value))))))
  {
  }

  /** Once the root exists, candidates are given and the paths are listed, the pick is the nearest. */
  lemma ClosestFrom(g: Digraph, ids: seq<int>)
    requires WellFormed(g) && RootOf(g.nodes, g.edges).Some? && |ids| > 0 && SortedRootBasedPaths(g).Ok?
    ensures Closest(g, ids) == NearestOf(SortedRootBasedPaths(g).value, ids)
  {
  }
}
