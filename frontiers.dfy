/** What the three frontier searches share: frontier entries that carry whole
    paths, the extension of a path by each neighbour, and the count of
    expanded nodes. */
module Frontiers {
  import opened Wrappers
  import opened Graphs

  /** What `bfs` and `dfs` return: the path found, if any, and the number of
      expanded nodes `len(visited)`. */
  datatype Traversal = Traversal(path: Option<Path>, expanded: nat)

  /** The paths `path + [neighbor]` for each neighbour, in order. */
  function Extensions(path: Path, nbrs: seq<Node>): (r: seq<Path>)
    ensures |r| == |nbrs|
    ensures forall i :: 0 <= i < |nbrs| ==> r[i] == path + [nbrs[i]]
  {
    seq(|nbrs|, i requires 0 <= i < |nbrs| => path + [nbrs[i]])
  }

  /** What a search promises about the nodes it expanded: they are graph
      nodes reachable from `start`, and their count, reported as
      `expanded`, is at most the number of graph nodes. */
  ghost predicate Explored(g: Graph, start: Node, closed: set<Node>, expanded: nat) {
    && expanded == |closed| <= |g|
    && closed <= g.Keys
    && forall v :: v in closed ==> Reachable(g, start, v)
  }

  /** A search's answer: a walk from `start` to `goal` when it returns a
      path, and no such walk exists when it returns none. */
  ghost predicate Answered(g: Graph, start: Node, goal: Node, path: Option<Path>) {
    && (path.Some? ==> WalkBetween(g, path.value, start, goal))
    && (path.None? ==> !Reachable(g, start, goal))
  }

  /** Every path on the frontier is a walk from `start` whose end is either
      a graph node or `start` itself. */
  ghost predicate FrontierWalks(g: Graph, start: Node, frontier: seq<Path>) {
    forall p :: p in frontier ==> p != [] && WalkBetween(g, p, start, Last(p)) && (Last(p) in g || p == [start])
  }

  /** Taking the top path off a stack of walks leaves a stack of walks. */
  lemma PopTop(g: Graph, start: Node, stack: seq<Path>)
    requires FrontierWalks(g, start, stack) && stack != []
    ensures stack[|stack| - 1] in stack && stack[|stack| - 1] != []
    ensures FrontierWalks(g, start, stack[..|stack| - 1])
  {
    assert stack[|stack| - 1] in stack;
    var rest := stack[..|stack| - 1];
    forall p | p in rest ensures p != [] && WalkBetween(g, p, start, Last(p)) && (Last(p) in g || p == [start]) {
      var j :| 0 <= j < |rest| && rest[j] == p;
      assert stack[j] == p;
      assert p in stack;
    }
  }

  /** Appending the extensions of a frontier walk whose end is a graph node
      keeps every frontier entry a walk from `start`. */
  lemma ExtendWalks(g: Graph, start: Node, rest: seq<Path>, path: Path)
    requires Closed(g) && FrontierWalks(g, start, rest)
    requires path != [] && WalkBetween(g, path, start, Last(path)) && Last(path) in g
    ensures FrontierWalks(g, start, rest + Extensions(path, Neighbors(g, Last(path))))
  {
    var nbrs := Neighbors(g, Last(path));
    var frontier := rest + Extensions(path, nbrs);
    forall p | p in frontier ensures p != [] && WalkBetween(g, p, start, Last(p)) && (Last(p) in g || p == [start]) {
      var j :| 0 <= j < |frontier| && frontier[j] == p;
      if j < |rest| {
        assert p in rest;
      } else {
        var v := nbrs[j - |rest|];
        assert p == path + [v];
        assert Adjacent(g, Last(path), v);
        PathCostExtend(g, path, v);
        assert p[0] == path[0] && Last(p) == v;
      }
    }
  }

  /** A path taken from the frontier leads from `start` to its end node. */
  lemma PoppedReachable(g: Graph, start: Node, frontier: seq<Path>, path: Path, visited: set<Node>)
    requires FrontierWalks(g, start, frontier) && path in frontier
    requires forall v :: v in visited ==> Reachable(g, start, v)
    ensures path != [] && forall v :: v in visited + {Last(path)} ==> Reachable(g, start, v)
  {
    assert WalkBetween(g, path, start, Last(path));
  }

  /** Only the initial path `[start]` can end outside the graph. */
  lemma OutsideIsStart(g: Graph, start: Node, frontier: seq<Path>, path: Path)
    requires FrontierWalks(g, start, frontier) && path in frontier
    requires path != [] && Last(path) !in g
    ensures path == [start] && start !in g
  {
  }

  /** `frontier.append(path + [neighbor])` for each neighbour in turn. */
  method AppendExtensions(frontier: seq<Path>, path: Path, nbrs: seq<Node>) returns (r: seq<Path>)
    ensures r == frontier + Extensions(path, nbrs)
  {
    r := frontier;
    for i := 0 to |nbrs|
      invariant r == frontier + Extensions(path, nbrs[..i])
    {
      var newPath := path + [nbrs[i]];
      r := r + [newPath];
    }
    assert nbrs[..|nbrs|] == nbrs;
  }

  /** Expanding a node that was not yet expanded leaves fewer unexpanded nodes. */
  lemma UnexpandedShrinks<T>(all: set<T>, done: set<T>, x: T)
    requires x in all && x !in done
    ensures |all - (done + {x})| < |all - done|
  {
    assert all - (done + {x}) == (all - done) - {x};
  }

  /** A subset has no more elements than its superset. */
  lemma {:induction false} SubsetCard<T>(a: set<T>, b: set<T>)
    requires a <= b
    ensures |a| <= |b|
  {
    if a != {} {
      var x :| x in a;
      SubsetCard(a - {x}, b - {x});
    }
  }
}
