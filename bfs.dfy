/** Breadth-first search over a FIFO queue of whole paths, gated by a set of
    expanded nodes. */
module BreadthFirst {
  import opened Wrappers
  import opened Graphs
  import opened Frontiers

  /** The expansion of `u` has been followed up for neighbour `v`: either `v`
      was expanded no later than one level below `u`, or a path to `v` of at
      most that length waits in the queue. */
  ghost predicate FollowedUp(queue: seq<Path>, visited: set<Node>, level: map<Node, nat>, u: Node, v: Node)
    requires u in level
  {
    (v in visited && v in level && level[v] <= level[u] + 1)
    || exists p :: p in queue && p != [] && Last(p) == v && |p| <= level[u] + 1
  }

  /** The expanded nodes are reachable graph nodes other than the goal, each
      with a level. */
  ghost predicate Expansions(g: Graph, start: Node, goal: Node, visited: set<Node>, level: map<Node, nat>) {
    && visited <= g.Keys
    && level.Keys == visited
    && goal !in visited
    && (forall v :: v in visited ==> Reachable(g, start, v))
  }

  /** The queue holds walks from `start`, ordered by length and spanning at
      most two lengths, none shorter than any expanded node's level. */
  ghost predicate Layered(g: Graph, start: Node, queue: seq<Path>, visited: set<Node>, level: map<Node, nat>)
    requires level.Keys == visited
  {
    && FrontierWalks(g, start, queue)
    && (forall i, j :: 0 <= i <= j < |queue| ==> |queue[i]| <= |queue[j]| <= |queue[i]| + 1)
    && (forall v, p :: v in visited && p in queue ==> level[v] <= |p|)
  }

  /** The state of the `bfs` loop at the top of each iteration; `level[v]`
      is the number of nodes on the path with which `v` was expanded. */
  ghost predicate BfsInvariant(g: Graph, start: Node, goal: Node, queue: seq<Path>,
                               visited: set<Node>, level: map<Node, nat>)
  {
    && Expansions(g, start, goal, visited, level)
    && Layered(g, start, queue, visited, level)
    && (forall u, v :: u in visited && v in Neighbors(g, u) ==> FollowedUp(queue, visited, level, u, v))
    && ((visited == {} && queue == [[start]]) || (start in visited && level[start] == 1))
  }

  /** Walking along `w` from an expanded node `w[k]` whose level is at most
      k + 1, one reaches a queued path no longer than `w`. */
  lemma {:induction false} CutFrom(g: Graph, start: Node, goal: Node, queue: seq<Path>,
                                   visited: set<Node>, level: map<Node, nat>, w: Path, k: nat)
    requires BfsInvariant(g, start, goal, queue, visited, level)
    requires WalkBetween(g, w, start, goal)
    requires k < |w| && w[k] in visited && level[w[k]] <= k + 1
    ensures exists p :: p in queue && |p| <= |w|
    decreases |w| - k
  {
    assert k < |w| - 1;
    assert Adjacent(g, w[k], w[k + 1]);
    assert FollowedUp(queue, visited, level, w[k], w[k + 1]);
    if w[k + 1] in visited && level[w[k + 1]] <= level[w[k]] + 1 {
      CutFrom(g, start, goal, queue, visited, level, w, k + 1);
    }
  }

  /** Every walk from `start` to `goal` is at least as long as the path at
      the front of the queue; with an empty queue there is no such walk. */
  lemma FrontIsShortest(g: Graph, start: Node, goal: Node, queue: seq<Path>,
                        visited: set<Node>, level: map<Node, nat>, w: Path)
    requires BfsInvariant(g, start, goal, queue, visited, level)
    requires WalkBetween(g, w, start, goal)
    ensures queue != [] && |queue[0]| <= |w|
  {
    if visited == {} {
      assert queue[0] == [start];
    } else {
      CutFrom(g, start, goal, queue, visited, level, w, 0);
      var p :| p in queue && |p| <= |w|;
      var j :| 0 <= j < |queue| && queue[j] == p;
      assert |queue[0]| <= |queue[j]|;
    }
  }

  /** Popping a path whose end is already expanded keeps the invariant. */
  lemma DiscardStep(g: Graph, start: Node, goal: Node, queue: seq<Path>,
                    visited: set<Node>, level: map<Node, nat>)
    requires BfsInvariant(g, start, goal, queue, visited, level)
    requires queue != [] && Last(queue[0]) in visited
    ensures BfsInvariant(g, start, goal, queue[1..], visited, level)
  {
    var path, rest := queue[0], queue[1..];
    forall i, j | 0 <= i <= j < |rest| ensures |rest[i]| <= |rest[j]| <= |rest[i]| + 1 {
      assert rest[i] == queue[i + 1] && rest[j] == queue[j + 1];
    }
    forall u, v | u in visited && v in Neighbors(g, u)
      ensures FollowedUp(rest, visited, level, u, v)
    {
      assert FollowedUp(queue, visited, level, u, v);
      if !(v in visited && level[v] <= level[u] + 1) {
        var p :| p in queue && p != [] && Last(p) == v && |p| <= level[u] + 1;
        var j :| 0 <= j < |queue| && queue[j] == p;
        assert j != 0;
        assert rest[j - 1] == p;
      }
    }
  }

  /** The queue after expanding the front path's end node: the rest of the
      queue followed by one extension per neighbour. */
  function Expanded(g: Graph, queue: seq<Path>): seq<Path>
    requires queue != [] && queue[0] != [] && Last(queue[0]) in g
  {
    queue[1..] + Extensions(queue[0], Neighbors(g, Last(queue[0])))
  }

  /** Queued extensions are one node longer than the front path, so queue
      lengths stay sorted and within one of each other. */
  lemma ExpandSorted(g: Graph, queue: seq<Path>)
    requires queue != [] && queue[0] != [] && Last(queue[0]) in g
    requires forall i, j :: 0 <= i <= j < |queue| ==> |queue[i]| <= |queue[j]| <= |queue[i]| + 1
    ensures var q := Expanded(g, queue);
            forall i, j :: 0 <= i <= j < |q| ==> |q[i]| <= |q[j]| <= |q[i]| + 1
  {
    var rest, queue' := queue[1..], Expanded(g, queue);
    forall i, j | 0 <= i <= j < |queue'| ensures |queue'[i]| <= |queue'[j]| <= |queue'[i]| + 1 {
      if j < |rest| {
        assert queue'[i] == queue[i + 1] && queue'[j] == queue[j + 1];
      } else if i < |rest| {
        assert queue'[i] == queue[i + 1];
        assert |queue[0]| <= |queue[i + 1]|;
      }
    }
  }

  /** Every queued path after the expansion is at least as long as the
      level of every expanded node, the new one included. */
  lemma ExpandLevels(g: Graph, queue: seq<Path>, visited: set<Node>, level: map<Node, nat>)
    requires queue != [] && queue[0] != [] && Last(queue[0]) in g
    requires level.Keys == visited
    requires forall i, j :: 0 <= i <= j < |queue| ==> |queue[i]| <= |queue[j]| <= |queue[i]| + 1
    requires forall v, p :: v in visited && p in queue ==> level[v] <= |p|
    ensures var level' := level[Last(queue[0]) := |queue[0]|];
            forall v, p :: v in level' && p in Expanded(g, queue) ==> level'[v] <= |p|
  {
    var rest, queue' := queue[1..], Expanded(g, queue);
    var level' := level[Last(queue[0]) := |queue[0]|];
    assert queue[0] in queue;
    forall v, p | v in level' && p in queue' ensures level'[v] <= |p| {
      var j :| 0 <= j < |queue'| && queue'[j] == p;
      if j < |rest| {
        assert p == queue[j + 1];
        assert |queue[0]| <= |queue[j + 1]|;
      }
    }
  }

  /** A queued path to `v` no longer than one edge past `u` shows `v`
      followed up. */
  lemma FollowedUpBy(queue: seq<Path>, visited: set<Node>, level: map<Node, nat>, u: Node, v: Node, p: Path)
    requires u in level
    requires p in queue && p != [] && Last(p) == v && |p| <= level[u] + 1
    ensures FollowedUp(queue, visited, level, u, v)
  {
  }

  /** The expanded node's neighbours are followed up by its queued extensions. */
  lemma NewNodeFollowedUp(g: Graph, queue: seq<Path>, visited: set<Node>, level: map<Node, nat>, v: Node)
    requires queue != [] && queue[0] != [] && Last(queue[0]) in g
    requires v in Neighbors(g, Last(queue[0]))
    ensures var node := Last(queue[0]);
            FollowedUp(Expanded(g, queue), visited + {node}, level[node := |queue[0]|], node, v)
  {
    var path := queue[0];
    var node := Last(path);
    var nbrs := Neighbors(g, node);
    var level' := level[node := |path|];
    var k :| 0 <= k < |nbrs| && nbrs[k] == v;
    var extended := Extensions(path, nbrs);
    var q := Expanded(g, queue);
    assert q == queue[1..] + extended;
    assert q[|queue| - 1 + k] == path + [v];
    FollowedUpBy(q, visited + {node}, level', node, v, path + [v]);
  }

  /** A neighbour that an earlier expansion had followed up stays followed
      up: if its witness was the popped path, it is now expanded itself. */
  lemma OldNodeFollowedUp(g: Graph, queue: seq<Path>, visited: set<Node>, level: map<Node, nat>, u: Node, v: Node)
    requires queue != [] && queue[0] != [] && Last(queue[0]) in g && Last(queue[0]) !in visited
    requires level.Keys == visited && u in visited
    requires FollowedUp(queue, visited, level, u, v)
    ensures var node := Last(queue[0]);
            FollowedUp(Expanded(g, queue), visited + {node}, level[node := |queue[0]|], u, v)
  {
    if !(v in visited && level[v] <= level[u] + 1) {
      var p :| p in queue && p != [] && Last(p) == v && |p| <= level[u] + 1;
      var j :| 0 <= j < |queue| && queue[j] == p;
      if j > 0 {
        assert Expanded(g, queue)[j - 1] == p;
      }
    }
  }

  /** After the expansion, every expanded node's neighbours are followed up. */
  lemma ExpandFollowedUp(g: Graph, queue: seq<Path>, visited: set<Node>, level: map<Node, nat>)
    requires queue != [] && queue[0] != [] && Last(queue[0]) in g && Last(queue[0]) !in visited
    requires visited <= g.Keys && level.Keys == visited
    requires forall u, v :: u in visited && v in Neighbors(g, u) ==> FollowedUp(queue, visited, level, u, v)
    ensures var node := Last(queue[0]);
            var visited', level' := visited + {node}, level[node := |queue[0]|];
            forall u, v :: u in visited' && v in Neighbors(g, u) ==> FollowedUp(Expanded(g, queue), visited', level', u, v)
  {
    var node := Last(queue[0]);
    forall u, v | u in visited + {node} && v in Neighbors(g, u)
      ensures FollowedUp(Expanded(g, queue), visited + {node}, level[node := |queue[0]|], u, v)
    {
      if u == node {
        NewNodeFollowedUp(g, queue, visited, level, v);
      } else {
        OldNodeFollowedUp(g, queue, visited, level, u, v);
      }
    }
  }

  /** Expanding the front path's end node and queuing its extensions keeps
      the invariant. */
  lemma ExpandStep(g: Graph, start: Node, goal: Node, queue: seq<Path>,
                   visited: set<Node>, level: map<Node, nat>)
    requires Closed(g)
    requires BfsInvariant(g, start, goal, queue, visited, level)
    requires queue != [] && queue[0] != [] && Last(queue[0]) in g
    requires Last(queue[0]) !in visited && Last(queue[0]) != goal
    ensures BfsInvariant(g, start, goal, Expanded(g, queue),
                         visited + {Last(queue[0])}, level[Last(queue[0]) := |queue[0]|])
  {
    var path := queue[0];
    ExpandLayered(g, start, queue, visited, level);
    ExpandExpansions(g, start, goal, queue, visited, level);
    ExpandFollowedUp(g, queue, visited, level);
    if visited == {} {
      assert path == [start];
    }
  }

  /** The queue after the expansion is still layered by length. */
  lemma ExpandLayered(g: Graph, start: Node, queue: seq<Path>, visited: set<Node>, level: map<Node, nat>)
    requires Closed(g) && level.Keys == visited && Layered(g, start, queue, visited, level)
    requires queue != [] && queue[0] != [] && Last(queue[0]) in g
    ensures Layered(g, start, Expanded(g, queue), visited + {Last(queue[0])}, level[Last(queue[0]) := |queue[0]|])
  {
    var path, rest := queue[0], queue[1..];
    assert path in queue;
    assert FrontierWalks(g, start, rest) by {
      forall p | p in rest ensures p != [] && WalkBetween(g, p, start, Last(p)) && (Last(p) in g || p == [start]) {
        var j :| 0 <= j < |rest| && rest[j] == p;
        assert queue[j + 1] == p;
      }
    }
    ExtendWalks(g, start, rest, path);
    ExpandSorted(g, queue);
    ExpandLevels(g, queue, visited, level);
  }

  /** Expanding the front path's end node, which is not the goal, adds a
      reachable graph node. */
  lemma ExpandExpansions(g: Graph, start: Node, goal: Node, queue: seq<Path>, visited: set<Node>, level: map<Node, nat>)
    requires Expansions(g, start, goal, visited, level) && FrontierWalks(g, start, queue)
    requires queue != [] && queue[0] != [] && Last(queue[0]) in g && Last(queue[0]) != goal
    ensures Expansions(g, start, goal, visited + {Last(queue[0])}, level[Last(queue[0]) := |queue[0]|])
  {
    PoppedReachable(g, start, queue, queue[0], visited);
  }

  /** The state when the front path reaches the goal: that path is a walk
      from `start` to `goal` no longer than any other, so it visits no node
      twice, and when `start` is the goal nothing has been expanded yet. */
  lemma FoundAtFront(g: Graph, start: Node, goal: Node, queue: seq<Path>,
                     visited: set<Node>, level: map<Node, nat>)
    requires BfsInvariant(g, start, goal, queue, visited, level)
    requires queue != [] && queue[0] != [] && Last(queue[0]) == goal
    ensures Explored(g, start, visited, |visited|) && Answered(g, start, goal, Some(queue[0]))
    ensures forall w :: WalkBetween(g, w, start, goal) ==> |queue[0]| <= |w|
    ensures Simple(queue[0])
    ensures start == goal ==> visited == {} && queue[0] == [start]
  {
    assert queue[0] in queue;
    forall w | WalkBetween(g, w, start, goal) ensures |queue[0]| <= |w| {
      FrontIsShortest(g, start, goal, queue, visited, level, w);
    }
    ShortestWalkIsSimple(g, queue[0], start, goal);
    SubsetCard(visited, g.Keys);
  }

  /** The state when the queue runs empty: the goal is unreachable. */
  lemma Exhausted(g: Graph, start: Node, goal: Node, visited: set<Node>, level: map<Node, nat>)
    requires BfsInvariant(g, start, goal, [], visited, level)
    ensures Explored(g, start, visited, |visited|) && Answered(g, start, goal, None)
  {
    if Reachable(g, start, goal) {
      var w :| WalkBetween(g, w, start, goal);
      FrontIsShortest(g, start, goal, [], visited, level, w);
    }
    SubsetCard(visited, g.Keys);
  }

  /** `bfs(start, goal)`: pop the front path; return it when it ends at the
      goal; otherwise, the first time its end node is seen, expand that node
      by queuing one extension per neighbour. Exhausting the queue returns no
      path. Asking the graph for the neighbours of a node it does not contain
      is a fault, which only `start` can trigger. */
  method Bfs(g: Graph, start: Node, goal: Node) returns (r: Result<Traversal>, ghost closed: set<Node>)
    requires Closed(g)
    ensures r.Err? <==> start !in g && start != goal
    ensures r.Err? ==> r.failure == NodeNotInGraph(start)
    ensures start == goal ==> r == Ok(Traversal(Some([start]), 0))
    ensures r.Ok? ==> Explored(g, start, closed, r.value.expanded) && Answered(g, start, goal, r.value.path)
    ensures r.Ok? && r.value.path.Some? ==>
              && Simple(r.value.path.value)
              && forall w :: WalkBetween(g, w, start, goal) ==> |r.value.path.value| <= |w|
  {
    var queue: seq<Path> := [[start]];
    var visited: set<Node> := {};
    ghost var level: map<Node, nat> := map[];
    while queue != []
      invariant BfsInvariant(g, start, goal, queue, visited, level)
      invariant start !in g && start != goal ==> visited == {} && queue == [[start]]
      decreases |g.Keys - visited|, |queue|
    {
      ghost var before := queue;
      var path := queue[0];
      queue := queue[1..];
      var node := path[|path| - 1];
      if node == goal {
        FoundAtFront(g, start, goal, before, visited, level);
        return Ok(Traversal(Some(path), |visited|)), visited;
      }
      if node !in visited {
        ghost var seen := visited;
        visited := visited + {node};
        if node !in g {
          OutsideIsStart(g, start, before, path);
          return Err(NodeNotInGraph(node)), visited;
        }
        ExpandStep(g, start, goal, before, seen, level);
        level := level[node := |path|];
        queue := AppendExtensions(queue, path, Neighbors(g, node));
        UnexpandedShrinks(g.Keys, seen, node);
      } else {
        DiscardStep(g, start, goal, before, visited, level);
      }
    }
    Exhausted(g, start, goal, visited, level);
    return Ok(Traversal(None, |visited|)), visited;
  }

}
