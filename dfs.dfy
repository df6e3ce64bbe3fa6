/** Depth-first search: the same loop as breadth-first search, but the
    frontier is a LIFO stack of whole paths. */
module DepthFirst {
  import opened Wrappers
  import opened Graphs
  import opened Frontiers

  /** Neighbour `v` of an expanded node is expanded too, or a path to it
      waits on the stack. */
  ghost predicate Covered(stack: seq<Path>, visited: set<Node>, v: Node) {
    v in visited || exists p :: p in stack && p != [] && Last(p) == v
  }

  /** The state of the `dfs` loop at the top of each iteration. */
  ghost predicate DfsInvariant(g: Graph, start: Node, goal: Node, stack: seq<Path>, visited: set<Node>) {
    && visited <= g.Keys
    && goal !in visited
    && FrontierWalks(g, start, stack)
    && (forall v :: v in visited ==> Reachable(g, start, v))
    && (forall u, v :: u in visited && v in Neighbors(g, u) ==> Covered(stack, visited, v))
    && ((visited == {} && stack == [[start]]) || start in visited)
  }

  /** Walking along `w` from an expanded node `w[k]`, one reaches a node
      that some stacked path ends at. */
  lemma {:induction false} CutFrom(g: Graph, start: Node, goal: Node, stack: seq<Path>,
                                   visited: set<Node>, w: Path, k: nat)
    requires DfsInvariant(g, start, goal, stack, visited)
    requires WalkBetween(g, w, start, goal)
    requires k < |w| && w[k] in visited
    ensures stack != []
    decreases |w| - k
  {
    assert k < |w| - 1;
    assert Adjacent(g, w[k], w[k + 1]);
    assert Covered(stack, visited, w[k + 1]);
    if w[k + 1] in visited {
      CutFrom(g, start, goal, stack, visited, w, k + 1);
    }
  }

  /** With an empty stack, no walk leads from `start` to `goal`. */
  lemma Exhausted(g: Graph, start: Node, goal: Node, visited: set<Node>)
    requires DfsInvariant(g, start, goal, [], visited)
    ensures Explored(g, start, visited, |visited|) && Answered(g, start, goal, None)
  {
    if Reachable(g, start, goal) {
      var w :| WalkBetween(g, w, start, goal);
      CutFrom(g, start, goal, [], visited, w, 0);
    }
    SubsetCard(visited, g.Keys);
  }

  /** The state when the top path reaches the goal. */
  lemma FoundOnTop(g: Graph, start: Node, goal: Node, stack: seq<Path>, visited: set<Node>)
    requires DfsInvariant(g, start, goal, stack, visited)
    requires stack != [] && stack[|stack| - 1] != [] && Last(stack[|stack| - 1]) == goal
    ensures Explored(g, start, visited, |visited|) && Answered(g, start, goal, Some(stack[|stack| - 1]))
    ensures start == goal ==> visited == {} && stack[|stack| - 1] == [start]
  {
    assert stack[|stack| - 1] in stack;
    SubsetCard(visited, g.Keys);
  }

  /** Popping a path whose end is already expanded keeps the invariant. */
  lemma DiscardStep(g: Graph, start: Node, goal: Node, stack: seq<Path>, visited: set<Node>)
    requires DfsInvariant(g, start, goal, stack, visited)
    requires stack != [] && stack[|stack| - 1] != [] && Last(stack[|stack| - 1]) in visited
    ensures DfsInvariant(g, start, goal, stack[..|stack| - 1], visited)
  {
    var n := |stack|;
    var rest := stack[..n - 1];
    PopTop(g, start, stack);
    forall u, v | u in visited && v in Neighbors(g, u) ensures Covered(rest, visited, v) {
      assert Covered(stack, visited, v);
      if v !in visited {
        var p :| p in stack && p != [] && Last(p) == v;
        var j :| 0 <= j < n && stack[j] == p;
        assert j != n - 1;
        assert rest[j] == p;
      }
    }
  }

  /** A stacked path ending at `v` shows `v` covered. */
  lemma CoveredBy(stack: seq<Path>, visited: set<Node>, v: Node, p: Path)
    requires p in stack && p != [] && Last(p) == v
    ensures Covered(stack, visited, v)
  {
  }

  /** The stack after expanding the top path's end node: the rest of the
      stack followed by one extension per neighbour. */
  function Pushed(g: Graph, stack: seq<Path>): seq<Path>
    requires stack != [] && stack[|stack| - 1] != [] && Last(stack[|stack| - 1]) in g
  {
    var path := stack[|stack| - 1];
    stack[..|stack| - 1] + Extensions(path, Neighbors(g, Last(path)))
  }

  /** The expanded node's neighbours are covered by its pushed extensions. */
  lemma NewNodeCovered(g: Graph, stack: seq<Path>, visited: set<Node>, v: Node)
    requires stack != [] && stack[|stack| - 1] != [] && Last(stack[|stack| - 1]) in g
    requires v in Neighbors(g, Last(stack[|stack| - 1]))
    ensures Covered(Pushed(g, stack), visited + {Last(stack[|stack| - 1])}, v)
  {
    var n := |stack|;
    var path := stack[n - 1];
    var nbrs := Neighbors(g, Last(path));
    var k :| 0 <= k < |nbrs| && nbrs[k] == v;
    var q := Pushed(g, stack);
    assert q == stack[..n - 1] + Extensions(path, nbrs);
    assert q[n - 1 + k] == path + [v];
    CoveredBy(q, visited + {Last(path)}, v, path + [v]);
  }

  /** A neighbour covered before stays covered: if its witness was the
      popped path, its end node is now expanded. */
  lemma OldNodeCovered(g: Graph, stack: seq<Path>, visited: set<Node>, v: Node)
    requires stack != [] && stack[|stack| - 1] != [] && Last(stack[|stack| - 1]) in g
    requires Covered(stack, visited, v)
    ensures Covered(Pushed(g, stack), visited + {Last(stack[|stack| - 1])}, v)
  {
    var n := |stack|;
    var path := stack[n - 1];
    if v !in visited + {Last(path)} {
      var p :| p in stack && p != [] && Last(p) == v;
      var j :| 0 <= j < n && stack[j] == p;
      assert j != n - 1;
      var q := Pushed(g, stack);
      assert q[j] == p;
      CoveredBy(q, visited + {Last(path)}, v, p);
    }
  }

  /** Pushing the extensions of the top path keeps its end node's
      neighbours covered, and every other node's as before. */
  lemma ExpandCovered(g: Graph, stack: seq<Path>, visited: set<Node>)
    requires stack != [] && stack[|stack| - 1] != [] && Last(stack[|stack| - 1]) in g
    requires visited <= g.Keys
    requires forall u, v :: u in visited && v in Neighbors(g, u) ==> Covered(stack, visited, v)
    ensures var node := Last(stack[|stack| - 1]);
            forall u, v :: u in visited + {node} && v in Neighbors(g, u) ==> Covered(Pushed(g, stack), visited + {node}, v)
  {
    var node := Last(stack[|stack| - 1]);
    forall u, v | u in visited + {node} && v in Neighbors(g, u) ensures Covered(Pushed(g, stack), visited + {node}, v) {
      if u == node {
        NewNodeCovered(g, stack, visited, v);
      } else {
        OldNodeCovered(g, stack, visited, v);
      }
    }
  }

  /** Expanding the top path's end node and pushing its extensions keeps
      the invariant. */
  lemma ExpandStep(g: Graph, start: Node, goal: Node, stack: seq<Path>, visited: set<Node>)
    requires Closed(g)
    requires DfsInvariant(g, start, goal, stack, visited)
    requires stack != [] && stack[|stack| - 1] != [] && Last(stack[|stack| - 1]) in g
    requires Last(stack[|stack| - 1]) !in visited && Last(stack[|stack| - 1]) != goal
    ensures DfsInvariant(g, start, goal, Pushed(g, stack), visited + {Last(stack[|stack| - 1])})
  {
    var path := stack[|stack| - 1];
    PopTop(g, start, stack);
    ExtendWalks(g, start, stack[..|stack| - 1], path);
    PoppedReachable(g, start, stack, path, visited);
    ExpandCovered(g, stack, visited);
  }

  /** `dfs(start, goal)`: pop the top path; return it when it ends at the
      goal; otherwise, the first time its end node is seen, expand that node
      by pushing one extension per neighbour, so that the last neighbour is
      explored first. Exhausting the stack returns no path; only `start` can
      make the graph fault. */
  method Dfs(g: Graph, start: Node, goal: Node) returns (r: Result<Traversal>, ghost closed: set<Node>)
    requires Closed(g)
    ensures r.Err? <==> start !in g && start != goal
    ensures r.Err? ==> r.failure == NodeNotInGraph(start)
    ensures start == goal ==> r == Ok(Traversal(Some([start]), 0))
    ensures r.Ok? ==> Explored(g, start, closed, r.value.expanded) && Answered(g, start, goal, r.value.path)
  {
    var stack: seq<Path> := [[start]];
    var visited: set<Node> := {};
    while stack != []
      invariant DfsInvariant(g, start, goal, stack, visited)
      invariant start !in g && start != goal ==> visited == {} && stack == [[start]]
      decreases |g.Keys - visited|, |stack|
    {
      ghost var before := stack;
      PopTop(g, start, stack);
      var path := stack[|stack| - 1];
      stack := stack[..|stack| - 1];
      var node := path[|path| - 1];
      if node == goal {
        FoundOnTop(g, start, goal, before, visited);
        return Ok(Traversal(Some(path), |visited|)), visited;
      }
      if node !in visited {
        ghost var seen := visited;
        visited := visited + {node};
        if node !in g {
          OutsideIsStart(g, start, before, path);
          return Err(NodeNotInGraph(node)), visited;
        }
        ExpandStep(g, start, goal, before, seen);
        stack := AppendExtensions(stack, path, Neighbors(g, node));
        UnexpandedShrinks(g.Keys, seen, node);
      } else {
        DiscardStep(g, start, goal, before, visited);
      }
    }
    Exhausted(g, start, goal, visited);
    return Ok(Traversal(None, |visited|)), visited;
  }
}
