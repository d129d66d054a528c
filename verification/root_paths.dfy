/**
  `GraphGrammar.get_root_based_paths`: the frontier enumeration of every
  path from the root to a node without children, with its runaway guard.
  Round k of the loop holds exactly the walks of k + 1 nodes that leave the
  root; each walk ending at a leaf moves to the result, every other walk is
  extended by each child in successor order.
*/
module RootPaths {
  import opened Wrappers
  import opened Digraphs

  /** A path is never empty: it starts at the root. */
  type Path = p: seq<int> | |p| > 0 witness [0]

  /** `path[-1]` */
  function Last(p: Path): int
  {
    p[|p| - 1]
  }

  /** `path[:-1]`, for a path of two or more nodes. */
  function Init(p: Path): Path
    requires |p| >= 2
  {
    p[..|p| - 1]
  }

  /** The loop raises once its round counter has passed this value. */
  const RoundLimit: nat := 1000

  /** A path whose every id is joined to the next by an edge. */
  ghost predicate IsWalk(edges: seq<Edge>, p: Path)
  {
    |p| == 1 || ((Last(Init(p)), Last(p)) in edges && IsWalk(edges, Init(p)))
  }

  ghost predicate WalkFrom(edges: seq<Edge>, root: int, p: Path)
  {
    IsWalk(edges, p) && p[0] == root
  }

  /** A root-based path: a walk from the root that ends at a leaf. */
  ghost predicate RootToLeaf(edges: seq<Edge>, root: int, p: Path)
  {
    WalkFrom(edges, root, p) && IsLeaf(edges, Last(p))
  }

  lemma {:induction false} WalkPrefix(edges: seq<Edge>, root: int, p: Path, k: nat)
    requires WalkFrom(edges, root, p) && 1 <= k <= |p|
    ensures WalkFrom(edges, root, p[..k])
    decreases |p|
  {
    if k < |p| {
      assert Init(p)[..k] == p[..k];
      WalkPrefix(edges, root, Init(p), k);
    } else {
      assert p[..k] == p;
    }
  }

  lemma WalkExtend(edges: seq<Edge>, root: int, p: Path, c: int)
    requires WalkFrom(edges, root, p) && (Last(p), c) in edges
    ensures WalkFrom(edges, root, p + [c])
  {
    assert Init(p + [c]) == p;
  }

  /** `[path + [child] for child in children]` */
  function Extend(p: Path, children: seq<int>): (r: seq<Path>)
    ensures |r| == |children|
    ensures forall k :: 0 <= k < |r| ==> r[k] == p + [children[k]]
  {
    if |children| == 0 then [] else
      Extend(p, children[..|children| - 1]) + [p + [children[|children| - 1]]]
  }

  /**
    The paths one pass of the `for path in paths` loop moves to
    `final_paths`, in order: those that end at a leaf.
  */
  function Retired(edges: seq<Edge>, paths: seq<Path>): (r: seq<Path>)
    ensures forall q :: q in r <==> q in paths && IsLeaf(edges, Last(q))
  {
    if |paths| == 0 then [] else
      var p := paths[|paths| - 1];
      assert paths == paths[..|paths| - 1] + [p];
      Retired(edges, paths[..|paths| - 1]) + (if IsLeaf(edges, Last(p)) then [p] else [])
  }

  /**
    The `new_paths` one pass of the loop builds: every path that does not
    end at a leaf, extended by each child of its last node in turn.
  */
  function Frontier(edges: seq<Edge>, paths: seq<Path>): seq<Path>
  {
    if |paths| == 0 then [] else
      var p := paths[|paths| - 1];
      var children := Children(edges, Last(p));
      Frontier(edges, paths[..|paths| - 1]) + (if |children| == 0 then [] else Extend(p, children))
  }

  /** The `while len(paths) > 0` loop, from a frontier, the paths found so far and a round counter. */
  function Enumerate(edges: seq<Edge>, paths: seq<Path>, finals: seq<Path>, counter: nat): Result<seq<Path>, GraphError>
    requires counter <= RoundLimit + 1
    decreases RoundLimit + 1 - counter
  {
    if |paths| == 0 then Ok(finals)
    else if counter > RoundLimit then Err(IterationLimit)
    else Enumerate(edges, Frontier(edges, paths), finals + Retired(edges, paths), counter + 1)
  }

  /**
    `get_root_based_paths`. On success it returns exactly the root-to-leaf
    paths; it fails when there is no root, and with `IterationLimit` exactly
    when some walk from the root has more than RoundLimit + 1 nodes.
  */
  function RootBasedPaths(g: Digraph): (r: Result<seq<Path>, GraphError>)
    ensures RootOf(g.nodes, g.edges).None? ==> r == Err(NoRoot)
    ensures r.Ok? ==> RootOf(g.nodes, g.edges).Some?
    ensures r.Ok? ==> forall p :: p in r.value <==> RootToLeaf(g.edges, RootOf(g.nodes, g.edges).value, p)
    ensures r.Ok? ==> forall p :: WalkFrom(g.edges, RootOf(g.nodes, g.edges).value, p) ==> |p| <= RoundLimit + 1
    ensures r == Err(IterationLimit) ==>
      exists p :: WalkFrom(g.edges, RootOf(g.nodes, g.edges).value, p) && |p| == RoundLimit + 2
    ensures r.Err? ==> r.error in {NoRoot, IterationLimit}
  {
    match RootOf(g.nodes, g.edges)
    case None => Err(NoRoot)
    case Some(root) =>
      forall p | WalkFrom(g.edges, root, p) && |p| == 1 ensures p == [root] {
      }
      EnumerateExact(g.edges, root, [[root]], [], 0);
      Enumerate(g.edges, [[root]], [], 0)
  }

  // ------------------------------------------------------------- the proof

  /** The extensions of `p` are exactly the paths one node longer than `p` that end at a listed child. */
  lemma ExtendExact(p: Path, children: seq<int>)
    ensures forall q :: q in Extend(p, children) <==> |q| >= 2 && Init(q) == p && Last(q) in children
  {
    ExtendSound(p, children);
    ExtendComplete(p, children);
  }

  lemma ExtendSound(p: Path, children: seq<int>)
    ensures forall q :: q in Extend(p, children) ==> |q| >= 2 && Init(q) == p && Last(q) in children
  {
    var ext := Extend(p, children);
    forall q | q in ext ensures |q| >= 2 && Init(q) == p && Last(q) in children {
      var m :| 0 <= m < |ext| && ext[m] == q;
      var c := children[m];
      assert q == p + [c];
      assert q[..|q| - 1] == p;
      assert c in children;
    }
  }

  lemma ExtendComplete(p: Path, children: seq<int>)
    ensures forall q :: |q| >= 2 && Init(q) == p && Last(q) in children ==> q in Extend(p, children)
  {
    var ext := Extend(p, children);
    forall q | |q| >= 2 && Init(q) == p && Last(q) in children ensures q in ext {
      var m :| 0 <= m < |children| && children[m] == Last(q);
      assert q == p + [Last(q)];
      assert ext[m] == q;
    }
  }

  /** `q` is a listed path followed by one more edge. */
  ghost predicate OneEdgeOn(edges: seq<Edge>, paths: seq<Path>, q: Path)
  {
    |q| >= 2 && Init(q) in paths && (Last(Init(q)), Last(q)) in edges
  }

  /**
    The new frontier holds exactly the one-edge extensions of the paths of
    the old one.
  */
  lemma {:induction false} FrontierExact(edges: seq<Edge>, paths: seq<Path>)
    ensures forall q :: q in Frontier(edges, paths) <==> OneEdgeOn(edges, paths, q)
  {
    if |paths| > 0 {
      var init := paths[..|paths| - 1];
      var p := paths[|paths| - 1];
      var children := Children(edges, Last(p));
      var ext := Extend(p, children);
      assert Frontier(edges, paths) == Frontier(edges, init) + ext;
      assert paths == init + [p];
      FrontierExact(edges, init);
      ChildrenExact(edges, Last(p));
      ExtendExact(p, children);
      forall q: Path ensures q in Frontier(edges, paths) <==> OneEdgeOn(edges, paths, q) {
        assert q in Frontier(edges, paths) <==> q in Frontier(edges, init) || q in ext;
        assert OneEdgeOn(edges, paths, q) <==> OneEdgeOn(edges, init, q) || (|q| >= 2 && Init(q) == p && Last(q) in children);
      }
    }
  }

  /** A walk of two or more nodes is a shorter walk followed by one edge. */
  lemma WalkSnoc(edges: seq<Edge>, root: int, q: Path)
    requires |q| >= 2
    ensures WalkFrom(edges, root, q) <==> WalkFrom(edges, root, Init(q)) && (Last(Init(q)), Last(q)) in edges
  {
  }

  /** `paths` lists exactly the walks of `k` nodes from the root. */
  ghost predicate WalksOfLength(edges: seq<Edge>, root: int, paths: seq<Path>, k: nat)
  {
    forall p :: p in paths <==> WalkFrom(edges, root, p) && |p| == k
  }

  /** `finals` lists exactly the root-to-leaf paths of at most `k` nodes. */
  ghost predicate LeafPathsUpTo(edges: seq<Edge>, root: int, finals: seq<Path>, k: nat)
  {
    forall p :: p in finals <==> RootToLeaf(edges, root, p) && |p| <= k
  }

  /** If the frontier is exactly the walks of k nodes from the root, the next one is exactly those of k + 1. */
  lemma FrontierStep(edges: seq<Edge>, root: int, paths: seq<Path>, k: nat)
    requires k >= 1
    requires WalksOfLength(edges, root, paths, k)
    ensures WalksOfLength(edges, root, Frontier(edges, paths), k + 1)
  {
    FrontierExact(edges, paths);
    forall q | q in Frontier(edges, paths) ensures WalkFrom(edges, root, q) && |q| == k + 1 {
      WalkSnoc(edges, root, q);
    }
    forall q | WalkFrom(edges, root, q) && |q| == k + 1 ensures q in Frontier(edges, paths) {
      WalkSnoc(edges, root, q);
      assert Init(q) in paths;
    }
  }

  /**
    If the results so far are exactly the root-to-leaf paths of at most k - 1
    nodes and the frontier is exactly the walks of k nodes, the results after
    one more pass are exactly the root-to-leaf paths of at most k nodes.
  */
  lemma RetiredStep(edges: seq<Edge>, root: int, paths: seq<Path>, finals: seq<Path>, k: nat)
    requires k >= 1
    requires WalksOfLength(edges, root, paths, k)
    requires LeafPathsUpTo(edges, root, finals, k - 1)
    ensures LeafPathsUpTo(edges, root, finals + Retired(edges, paths), k)
  {
  }

  /** Once no walk has k nodes, no walk has more. */
  lemma NoLongerWalks(edges: seq<Edge>, root: int, k: nat)
    requires k >= 1
    requires forall p :: !(WalkFrom(edges, root, p) && |p| == k)
    ensures forall p :: WalkFrom(edges, root, p) ==> |p| < k
  {
    forall p | WalkFrom(edges, root, p) ensures |p| < k {
      if |p| >= k {
        WalkPrefix(edges, root, p, k);
      }
    }
  }

  /** What the enumeration promises about its outcome, for a graph whose root is `root`. */
  ghost predicate Promised(edges: seq<Edge>, root: int, r: Result<seq<Path>, GraphError>)
  {
    && (r.Ok? ==> forall p :: p in r.value <==> RootToLeaf(edges, root, p))
    && (r.Ok? ==> forall p :: WalkFrom(edges, root, p) ==> |p| <= RoundLimit + 1)
    && (r.Err? ==> r.error == IterationLimit && exists p :: WalkFrom(edges, root, p) && |p| == RoundLimit + 2)
  }

  /**
    The loop invariant of the enumeration: the frontier is exactly the walks
    of counter + 1 nodes from the root, and the paths found so far are
    exactly the root-to-leaf paths of at most counter nodes.
  */
  lemma {:induction false} EnumerateExact(edges: seq<Edge>, root: int, paths: seq<Path>, finals: seq<Path>, counter: nat)
    requires counter <= RoundLimit + 1
    requires WalksOfLength(edges, root, paths, counter + 1)
    requires LeafPathsUpTo(edges, root, finals, counter)
    ensures Promised(edges, root, Enumerate(edges, paths, finals, counter))
    decreases RoundLimit + 1 - counter, 1
  {
    if |paths| == 0 {
      NoLongerWalks(edges, root, counter + 1);
    } else if counter > RoundLimit {
      assert WalkFrom(edges, root, paths[0]);
    } else {
      EnumerateStep(edges, root, paths, finals, counter);
    }
  }

  /** One more pass of the loop keeps its invariant. */
  lemma {:induction false} EnumerateStep(edges: seq<Edge>, root: int, paths: seq<Path>, finals: seq<Path>, counter: nat)
    requires counter <= RoundLimit && |paths| > 0
    requires WalksOfLength(edges, root, paths, counter + 1)
    requires LeafPathsUpTo(edges, root, finals, counter)
    ensures Promised(edges, root, Enumerate(edges, paths, finals, counter))
    decreases RoundLimit + 1 - counter, 0
  {
    var next, found := Frontier(edges, paths), finals + Retired(edges, paths);
    FrontierStep(edges, root, paths, counter + 1);
    RetiredStep(edges, root, paths, finals, counter + 1);
    EnumerateExact(edges, root, next, found, counter + 1);
    assert Enumerate(edges, paths, finals, counter) == Enumerate(edges, next, found, counter + 1);
  }

  // ------------------------------------------- walks reach root-based paths

  /**
    When no walk from the root has more than RoundLimit + 1 nodes, every
    walk from the root is the start of some root-based path.
  */
  lemma {:induction false} ExtendToLeaf(edges: seq<Edge>, root: int, w: Path) returns (q: Path)
    requires forall p :: WalkFrom(edges, root, p) ==> |p| <= RoundLimit + 1
    requires WalkFrom(edges, root, w)
    ensures RootToLeaf(edges, root, q) && |w| <= |q| && q[..|w|] == w
    decreases RoundLimit + 1 - |w|
  {
    if IsLeaf(edges, Last(w)) {
      q := w;
    } else {
      var c := Children(edges, Last(w))[0];
      ChildrenExact(edges, Last(w));
      assert c in Children(edges, Last(w));
      WalkExtend(edges, root, w, c);
      q := ExtendToLeaf(edges, root, w + [c]);
      assert q[..|w|] == q[..|w| + 1][..|w|];
    }
  }

  /** With `root` as the graph's root, the path listing is the loop run from `[[root]]`. */
  lemma RootBasedPathsFrom(g: Digraph, root: int)
    requires RootOf(g.nodes, g.edges) == Some(root)
    ensures RootBasedPaths(g) == Enumerate(g.edges, [[root]], [], 0)
  {
  }

  /** A round past the limit fails. */
  lemma EnumerateOver(edges: seq<Edge>, paths: seq<Path>, finals: seq<Path>, counter: nat)
    requires counter == RoundLimit + 1 && |paths| > 0
    ensures Enumerate(edges, paths, finals, counter) == Err(IterationLimit)
  {
  }

  /** Any other round moves on to the next frontier with the leaf paths collected. */
  lemma EnumerateAdvance(edges: seq<Edge>, paths: seq<Path>, finals: seq<Path>, counter: nat,
                         next: seq<Path>, found: seq<Path>)
    requires counter <= RoundLimit && |paths| > 0
    requires next == Frontier(edges, paths) && found == finals + Retired(edges, paths)
    ensures Enumerate(edges, next, found, counter + 1) == Enumerate(edges, paths, finals, counter)
  {
  }

  /** An empty frontier ends the loop with the paths collected so far. */
  lemma EnumerateDone(edges: seq<Edge>, paths: seq<Path>, finals: seq<Path>, counter: nat)
    requires counter <= RoundLimit + 1 && |paths| == 0
    ensures Enumerate(edges, paths, finals, counter) == Ok(finals)
  {
  }
}
