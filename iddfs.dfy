/** Iterative deepening: a depth-limited search for paths of exactly
    `depth` edges, run for depth 0, 1, ..., up to a bound. */
module Deepening {
  import opened Wrappers
  import opened Graphs

  /** What `iddfs` returns: the path found (if any) and the depth at which
      it was found, or the bound when none was. */
  datatype Deepened = Deepened(path: Option<Path>, depth: int)

  /** `p` goes from `node` to `goal` in exactly `depth` edges, and the nodes
      after `node` are pairwise distinct and avoid `branch`. */
  ghost predicate BranchPath(g: Graph, p: Path, node: Node, goal: Node, depth: nat, branch: set<Node>) {
    && |p| == depth + 1
    && WalkBetween(g, p, node, goal)
    && Simple(p[1..])
    && forall i :: 1 <= i < |p| ==> p[i] !in branch
  }

  /** Prefixing a branch path from a neighbour `v` of `node` that avoids
      `branch + {v}` gives a branch path from `node`. */
  lemma ConsBranchPath(g: Graph, node: Node, v: Node, p: Path, goal: Node, depth: nat, branch: set<Node>)
    requires Adjacent(g, node, v) && v !in branch
    requires BranchPath(g, p, v, goal, depth, branch + {v})
    ensures BranchPath(g, [node] + p, node, goal, depth + 1, branch)
  {
    var q := [node] + p;
    assert q[1..] == p;
    forall i | 0 <= i < |q| - 1 ensures Adjacent(g, q[i], q[i + 1]) {
      if i > 0 { assert Adjacent(g, p[i - 1], p[i]); }
    }
    forall i, j | 0 <= i < j < |p| ensures p[i] != p[j] {
      if i > 0 { assert p[1..][i - 1] == p[i] && p[1..][j - 1] == p[j]; }
      else { assert p[j] !in branch + {v}; }
    }
  }

  /** `dls(node, goal, depth, visited)`: at depth 0, `[node]` when `node`
      is the goal; above 0, the first neighbour not on the current branch
      from which a path of one edge fewer reaches the goal, prefixed with
      `node`. A node equal to the goal above depth 0 is not a result: only
      paths of exactly `depth` edges are found. */
  function DlsSearch(g: Graph, node: Node, goal: Node, depth: nat, branch: set<Node>): (r: Option<Path>)
    requires Closed(g) && (depth == 0 || node in g)
    ensures r.Some? ==> BranchPath(g, r.value, node, goal, depth, branch)
    decreases depth, 1, 0
  {
    if depth == 0 then
      if node == goal then Some([node]) else None
    else
      FirstAmong(g, node, Neighbors(g, node), goal, depth, branch)
  }

  /** The loop over `G.neighbors(node)` in `dls`, from the neighbours in
      `nbrs` onwards. */
  function FirstAmong(g: Graph, node: Node, nbrs: seq<Node>, goal: Node, depth: nat, branch: set<Node>): (r: Option<Path>)
    requires Closed(g) && depth > 0 && node in g
    requires forall v :: v in nbrs ==> v in Neighbors(g, node)
    ensures r.Some? ==> BranchPath(g, r.value, node, goal, depth, branch)
    decreases depth, 0, |nbrs|
  {
    if nbrs == [] then None
    else
      var v := nbrs[0];
      assert v in nbrs;
      if v in branch then FirstAmong(g, node, nbrs[1..], goal, depth, branch)
      else
        var found := DlsSearch(g, v, goal, depth - 1, branch + {v});
        if found.Some? then
          ConsBranchPath(g, node, v, found.value, goal, depth - 1, branch);
          Some([node] + found.value)
        else FirstAmong(g, node, nbrs[1..], goal, depth, branch)
  }

  /** Depth-limited search is complete: whenever a branch path of exactly
      `depth` edges exists, it finds one. */
  lemma {:induction false} DlsComplete(g: Graph, node: Node, goal: Node, depth: nat, branch: set<Node>, w: Path)
    requires Closed(g) && (depth == 0 || node in g)
    requires BranchPath(g, w, node, goal, depth, branch)
    ensures DlsSearch(g, node, goal, depth, branch).Some?
    decreases depth, 1, 0
  {
    if depth > 0 {
      assert Adjacent(g, w[0], w[1]);
      FirstAmongComplete(g, node, Neighbors(g, node), goal, depth, branch, w);
    }
  }

  /** The neighbour loop finds a path when the second node of a branch path
      is among the neighbours it has still to try. */
  lemma {:induction false} FirstAmongComplete(g: Graph, node: Node, nbrs: seq<Node>, goal: Node,
                                              depth: nat, branch: set<Node>, w: Path)
    requires Closed(g) && depth > 0 && node in g
    requires forall v :: v in nbrs ==> v in Neighbors(g, node)
    requires BranchPath(g, w, node, goal, depth, branch) && w[1] in nbrs
    ensures FirstAmong(g, node, nbrs, goal, depth, branch).Some?
    decreases depth, 0, |nbrs|
  {
    var v := nbrs[0];
    if v in branch {
      assert w[1] != v;
      FirstAmongComplete(g, node, nbrs[1..], goal, depth, branch, w);
    } else if DlsSearch(g, v, goal, depth - 1, branch + {v}).None? {
      if v == w[1] {
        var t := w[1..];
        assert IsWalk(g, t) by {
          forall i | 0 <= i < |t| - 1 ensures Adjacent(g, t[i], t[i + 1]) {
            assert Adjacent(g, w[i + 1], w[i + 2]);
          }
        }
        forall i | 1 <= i < |t| ensures t[i] !in branch + {v} {
          assert w[1..][0] == w[1] && w[1..][i] == w[i + 1];
        }
        assert t[1..] == w[2..];
        assert Simple(t[1..]) by {
          forall i, j | 0 <= i < j < |t| - 1 ensures t[1..][i] != t[1..][j] {
            assert w[1..][i + 1] == w[i + 2] && w[1..][j + 1] == w[j + 2];
          }
        }
        assert Adjacent(g, node, v);
        DlsComplete(g, v, goal, depth - 1, branch + {v}, t);
      } else {
        FirstAmongComplete(g, node, nbrs[1..], goal, depth, branch, w);
      }
    }
  }

  /** A walk can be shortened to a simple walk between the same end points. */
  lemma {:induction false} ShortenToSimple(g: Graph, w: Path)
    requires IsWalk(g, w)
    ensures exists q :: WalkBetween(g, q, w[0], Last(w)) && Simple(q) && |q| <= |w|
    decreases |w|
  {
    if Simple(w) {
      assert WalkBetween(g, w, w[0], Last(w));
    } else {
      var i, j :| 0 <= i < j < |w| && w[i] == w[j];
      Shortcut(g, w, i, j);
      ShortenToSimple(g, w[..i] + w[j..]);
    }
  }

  /** If every walk from `start` to `goal` has at least `depth` edges and the
      search at `depth` finds nothing, every such walk has more. */
  lemma NothingAtDepth(g: Graph, start: Node, goal: Node, depth: nat)
    requires Closed(g) && (depth == 0 || start in g)
    requires forall w :: WalkBetween(g, w, start, goal) ==> |w| > depth
    requires DlsSearch(g, start, goal, depth, {start}).None?
    ensures forall w :: WalkBetween(g, w, start, goal) ==> |w| > depth + 1
  {
    forall w | WalkBetween(g, w, start, goal) ensures |w| > depth + 1 {
      if |w| == depth + 1 {
        ShortenToSimple(g, w);
        var q :| WalkBetween(g, q, start, goal) && Simple(q) && |q| <= |w|;
        assert |q| == depth + 1;
        forall i | 1 <= i < |q| ensures q[i] !in {start} {
          assert q[0] == start;
        }
        assert Simple(q[1..]) by {
          forall i, j | 0 <= i < j < |q| - 1 ensures q[1..][i] != q[1..][j] {
            assert q[1..][i] == q[i + 1] && q[1..][j] == q[j + 1];
          }
        }
        DlsComplete(g, start, goal, depth, {start}, q);
      }
    }
  }

  /** A branch path that starts inside its branch is simple. */
  lemma BranchPathSimple(g: Graph, p: Path, start: Node, goal: Node, depth: nat)
    requires BranchPath(g, p, start, goal, depth, {start})
    ensures Simple(p)
  {
    forall i, j | 0 <= i < j < |p| ensures p[i] != p[j] {
      if i > 0 { assert p[1..][i - 1] == p[i] && p[1..][j - 1] == p[j]; }
    }
  }

  /** `dls` as written: the same loop over the neighbours, returning from
      inside it as soon as a recursive call finds a path. */
  method Dls(g: Graph, node: Node, goal: Node, depth: nat, branch: set<Node>) returns (r: Option<Path>)
    requires Closed(g) && (depth == 0 || node in g)
    ensures r == DlsSearch(g, node, goal, depth, branch)
    decreases depth
  {
    if depth == 0 && node == goal {
      return Some([node]);
    }
    if depth > 0 {
      var nbrs := Neighbors(g, node);
      for i := 0 to |nbrs|
        invariant FirstAmong(g, node, nbrs[i..], goal, depth, branch) == DlsSearch(g, node, goal, depth, branch)
      {
        var v := nbrs[i];
        assert nbrs[i..][0] == v && nbrs[i..][1..] == nbrs[i + 1..];
        if v !in branch {
          assert v in nbrs;
          var found := Dls(g, v, goal, depth - 1, branch + {v});
          if found.Some? {
            return Some([node] + found.value);
          }
        }
      }
    }
    return None;
  }

  /** `iddfs(start, goal, max_depth)`: run `dls` from `start` with the branch
      `{start}` at depths 0 to `max_depth` and return the first path found
      with its depth, or no path with `max_depth`. The first call above depth
      0 asks the graph for the neighbours of `start`, which faults when
      `start` is not in it. The result has the fewest edges of any walk. */
  method Iddfs(g: Graph, start: Node, goal: Node, maxDepth: int) returns (r: Result<Deepened>)
    requires Closed(g)
    ensures r.Err? <==> start !in g && start != goal && maxDepth >= 1
    ensures r.Err? ==> r.failure == NodeNotInGraph(start)
    ensures start == goal && maxDepth >= 0 ==> r == Ok(Deepened(Some([start]), 0))
    ensures r.Ok? && r.value.path.Some? ==>
              var p, d := r.value.path.value, r.value.depth;
              && 0 <= d <= maxDepth && |p| == d + 1
              && (d == 0 || start in g) && r.value.path == DlsSearch(g, start, goal, d, {start})
              && WalkBetween(g, p, start, goal) && Simple(p)
              && (forall e :: 0 <= e < d ==> DlsSearch(g, start, goal, e, {start}).None?)
              && forall w :: WalkBetween(g, w, start, goal) ==> |p| <= |w|
    ensures r.Ok? && r.value.path.None? ==>
              r.value.depth == maxDepth && forall w :: WalkBetween(g, w, start, goal) ==> |w| - 1 > maxDepth
  {
    var depth := 0;
    assert WalkBetween(g, [start], start, start);
    while depth <= maxDepth
      invariant 0 <= depth && (maxDepth >= 0 ==> depth <= maxDepth + 1)
      invariant forall w :: WalkBetween(g, w, start, goal) ==> |w| > depth
      invariant start !in g && start != goal ==> depth <= 1
      decreases maxDepth - depth
    {
      if depth > 0 && start !in g {
        return Err(NodeNotInGraph(start));
      }
      var path := Dls(g, start, goal, depth, {start});
      if path.Some? {
        BranchPathSimple(g, path.value, start, goal, depth);
        return Ok(Deepened(path, depth));
      }
      NothingAtDepth(g, start, goal, depth);
      depth := depth + 1;
    }
    return Ok(Deepened(None, maxDepth));
  }
}
