/** The comparison table: the four searches run on one origin and
    destination, one row each, with the number of steps of the path found. */
module Report {
  import opened Wrappers
  import opened Frontiers
  import opened Graphs
  import opened BreadthFirst
  import opened DepthFirst
  import opened UniformCost
  import opened Deepening

  /** The steps column: the number of edges of the path, or "-". */
  datatype Steps = Count(n: nat) | NotApplicable

  /** One row of the table; `cost` is shown for UCS only, and `nodes` holds
      the expanded count, or the depth for IDDFS. */
  datatype Row = Row(algorithm: string, path: Option<Path>, steps: Steps, cost: Option<nat>, nodes: int)

  /** `len(path) - 1 if path else "-"`: a missing or empty path has no steps. */
  function StepsOf(path: Option<Path>): (r: Steps)
    ensures r.Count? <==> path.Some? && path.value != []
    ensures r.Count? ==> r.n + 1 == |path.value|
  {
    if path.Some? && path.value != [] then Count(|path.value| - 1) else NotApplicable
  }

  /** Two walks between the same end points, each no longer than any such
      walk, have the same length. */
  lemma ShortestAgree(g: Graph, a: Node, b: Node, p: Path, q: Path)
    requires WalkBetween(g, p, a, b) && forall w :: WalkBetween(g, w, a, b) ==> |p| <= |w|
    requires WalkBetween(g, q, a, b) && forall w :: WalkBetween(g, w, a, b) ==> |q| <= |w|
    ensures |p| == |q|
  {
  }

  /** The rows the handler builds from the four results, in order. */
  function Rows(b: Traversal, d: Traversal, u: Priced, i: Deepened): (rows: seq<Row>)
    ensures |rows| == 4
  {
    [ Row("BFS", b.path, StepsOf(b.path), None, b.expanded),
      Row("DFS", d.path, StepsOf(d.path), None, d.expanded),
      Row("UCS", u.path, StepsOf(u.path), Some(u.cost), u.expanded),
      Row("IDDFS", i.path, StepsOf(i.path), None, i.depth) ]
  }

  /** A row's steps are those of its path, and the path shown, if any, is a
      walk from `origin` to `dest`. */
  ghost predicate Consistent(g: Graph, origin: Node, dest: Node, row: Row) {
    row.steps == StepsOf(row.path) && (row.path.Some? ==> WalkBetween(g, row.path.value, origin, dest))
  }

  /** What the table promises about the searches from `origin` to `dest`
      with depth bound `maxDepth`: every row is consistent; BFS, DFS and UCS
      find a path exactly when one exists; only UCS shows a cost, the exact
      cost of its path or 0 without one; the first three rows count at most
      every node of the graph as expanded; the BFS step count is the fewest
      edges of any walk and the UCS cost the least cost of any walk; IDDFS
      shows a path of at most `maxDepth` steps, equal to the BFS steps and
      to the depth it reports, or else reports `maxDepth` and no walk has
      that few edges. */
  ghost predicate Comparison(g: Graph, origin: Node, dest: Node, maxDepth: int, rows: seq<Row>) {
    && |rows| == 4
    && rows[0].algorithm == "BFS" && rows[1].algorithm == "DFS"
    && rows[2].algorithm == "UCS" && rows[3].algorithm == "IDDFS"
    && Consistent(g, origin, dest, rows[0]) && Consistent(g, origin, dest, rows[1])
    && Consistent(g, origin, dest, rows[2]) && Consistent(g, origin, dest, rows[3])
    && (rows[0].path.Some? <==> Reachable(g, origin, dest))
    && (rows[1].path.Some? <==> Reachable(g, origin, dest))
    && (rows[2].path.Some? <==> Reachable(g, origin, dest))
    && rows[0].cost.None? && rows[1].cost.None? && rows[2].cost.Some? && rows[3].cost.None?
    && (rows[2].path.Some? ==> rows[2].cost.value == PathCost(g, rows[2].path.value))
    && (rows[2].path.None? ==> rows[2].cost == Some(0))
    && 0 <= rows[0].nodes <= |g| && 0 <= rows[1].nodes <= |g| && 0 <= rows[2].nodes <= |g|
    && (rows[0].steps.Count? ==> forall w :: WalkBetween(g, w, origin, dest) ==> rows[0].steps.n + 1 <= |w|)
    && (rows[2].path.Some? ==> forall w :: WalkBetween(g, w, origin, dest) ==> rows[2].cost.value <= PathCost(g, w))
    && (rows[3].path.Some? ==>
          rows[3].steps == rows[0].steps && rows[3].steps.Count? && rows[3].steps.n == rows[3].nodes <= maxDepth)
    && (rows[3].path.None? ==>
          rows[3].nodes == maxDepth && forall w :: WalkBetween(g, w, origin, dest) ==> |w| - 1 > maxDepth)
  }

  /** The four results, as their searches promise them, make a table that
      keeps the promises of `Comparison`. */
  lemma RowsCompare(g: Graph, origin: Node, dest: Node, maxDepth: int, b: Traversal, d: Traversal, u: Priced, i: Deepened)
    requires Answered(g, origin, dest, b.path) && b.expanded <= |g|
    requires b.path.Some? ==> forall w :: WalkBetween(g, w, origin, dest) ==> |b.path.value| <= |w|
    requires Answered(g, origin, dest, d.path) && d.expanded <= |g|
    requires Answered(g, origin, dest, u.path) && u.expanded <= |g|
    requires u.path.Some? ==> u.cost == PathCost(g, u.path.value)
    requires u.path.Some? ==> forall w :: WalkBetween(g, w, origin, dest) ==> u.cost <= PathCost(g, w)
    requires u.path.None? ==> u.cost == 0
    requires i.path.Some? ==> 0 <= i.depth <= maxDepth && |i.path.value| == i.depth + 1 &&
                              WalkBetween(g, i.path.value, origin, dest) &&
                              forall w :: WalkBetween(g, w, origin, dest) ==> |i.path.value| <= |w|
    requires i.path.None? ==> i.depth == maxDepth && forall w :: WalkBetween(g, w, origin, dest) ==> |w| - 1 > maxDepth
    ensures Comparison(g, origin, dest, maxDepth, Rows(b, d, u, i))
  {
    if i.path.Some? {
      ShortestAgree(g, origin, dest, b.path.value, i.path.value);
    }
  }

  /** Between the same two nodes of an undirected map, a walk with the
      fewest edges one way has as many edges as one the other way. */
  lemma FewestSwapped(g: Graph, a: Node, b: Node, p: Path, q: Path)
    requires Undirected(g)
    requires WalkBetween(g, p, a, b) && forall w :: WalkBetween(g, w, a, b) ==> |p| <= |w|
    requires WalkBetween(g, q, b, a) && forall w :: WalkBetween(g, w, b, a) ==> |q| <= |w|
    ensures |p| == |q|
  {
    ReverseWalk(g, p, a, b);
    ReverseWalk(g, q, b, a);
  }

  /** Between the same two nodes of an undirected map, a cheapest walk one
      way costs as much as a cheapest walk the other way. */
  lemma CheapestSwapped(g: Graph, a: Node, b: Node, p: Path, q: Path)
    requires Undirected(g)
    requires WalkBetween(g, p, a, b) && forall w :: WalkBetween(g, w, a, b) ==> PathCost(g, p) <= PathCost(g, w)
    requires WalkBetween(g, q, b, a) && forall w :: WalkBetween(g, w, b, a) ==> PathCost(g, q) <= PathCost(g, w)
    ensures PathCost(g, p) == PathCost(g, q)
  {
    ReverseWalk(g, p, a, b);
    ReverseWalk(g, q, b, a);
  }

  /** A walk of at most `maxDepth` edges one way gives one the other way. */
  lemma WithinDepthSwapped(g: Graph, a: Node, b: Node, p: Path, maxDepth: int)
    requires Undirected(g) && WalkBetween(g, p, a, b) && |p| - 1 <= maxDepth
    ensures exists w :: WalkBetween(g, w, b, a) && |w| - 1 <= maxDepth
  {
    ReverseWalk(g, p, a, b);
  }

  /** On the undirected road map the table for the opposite direction
      agrees: each search finds a path both ways or neither, with the same
      BFS and IDDFS step counts and the same UCS cost. */
  lemma SwappedEnds(g: Graph, origin: Node, dest: Node, maxDepth: int, rows: seq<Row>, back: seq<Row>)
    requires Undirected(g)
    requires Comparison(g, origin, dest, maxDepth, rows) && Comparison(g, dest, origin, maxDepth, back)
    ensures forall k :: 0 <= k < 4 ==> (rows[k].path.Some? <==> back[k].path.Some?)
    ensures rows[0].steps == back[0].steps && rows[3].steps == back[3].steps
    ensures rows[2].cost == back[2].cost
  {
    if Reachable(g, origin, dest) {
      ReachableSymmetric(g, origin, dest);
      FewestSwapped(g, origin, dest, rows[0].path.value, back[0].path.value);
      CheapestSwapped(g, origin, dest, rows[2].path.value, back[2].path.value);
    } else if Reachable(g, dest, origin) {
      ReachableSymmetric(g, dest, origin);
    }
    if rows[3].path.Some? {
      WithinDepthSwapped(g, origin, dest, rows[3].path.value, maxDepth);
    }
    if back[3].path.Some? {
      WithinDepthSwapped(g, dest, origin, back[3].path.value, maxDepth);
    }
  }

  /** The button handler: run `bfs`, `dfs`, `ucs` and `iddfs` in that order
      and build one row per search. A graph fault in any search aborts the
      whole run; only the first, `bfs`, can raise one. */
  method RunAll(g: Graph, origin: Node, dest: Node, maxDepth: int) returns (r: Result<seq<Row>>)
    requires Closed(g)
    ensures r.Err? <==> origin !in g && origin != dest
    ensures r.Err? ==> r.failure == NodeNotInGraph(origin)
    ensures r.Ok? ==> Comparison(g, origin, dest, maxDepth, r.value)
  {
    var b, _ := Bfs(g, origin, dest);
    if b.Err? {
      return Err(b.failure);
    }
    var d, _ := Dfs(g, origin, dest);
    var u, _ := Ucs(g, origin, dest);
    var i := Iddfs(g, origin, dest, maxDepth);
    RowsCompare(g, origin, dest, maxDepth, b.value, d.value, u.value, i.value);
    return Ok(Rows(b.value, d.value, u.value, i.value));
  }
}
