/** Shared result wrappers: the "no path" marker and the fault the graph raises
    for a node it does not contain. */
module Wrappers {

  datatype Option<+T> = None | Some(value: T)

  /** The fault `Graph.neighbors` raises when it is asked about a node the
      graph does not contain. */
  datatype Failure = NodeNotInGraph(node: string)

  datatype Result<+T> = Ok(value: T) | Err(failure: Failure)
}

/** The road map: an undirected weighted graph given as an adjacency map.
    Each node lists its neighbours in the order in which the graph enumerates
    them, each with the weight of the connecting edge. */
module Graphs {

  type Node = string

  datatype Edge = Edge(to: Node, weight: nat)

  type Graph = map<Node, seq<Edge>>

  type Path = seq<Node>

  function Last(p: Path): Node
    requires p != []
  {
    p[|p| - 1]
  }

  /** The target nodes of an adjacency list, in order. */
  function Targets(es: seq<Edge>): (r: seq<Node>)
    ensures |r| == |es|
    ensures forall i :: 0 <= i < |es| ==> r[i] == es[i].to
  {
    if es == [] then [] else [es[0].to] + Targets(es[1..])
  }

  /** The neighbours of `u`, in enumeration order. */
  function Neighbors(g: Graph, u: Node): seq<Node>
    requires u in g
  {
    Targets(g[u])
  }

  predicate Adjacent(g: Graph, u: Node, v: Node) {
    u in g && v in Neighbors(g, u)
  }

  /** The weight stored with the first edge towards `v`. */
  function WeightIn(es: seq<Edge>, v: Node): (w: nat)
    requires v in Targets(es)
    ensures exists i :: 0 <= i < |es| && es[i] == Edge(v, w)
  {
    if es[0].to == v then es[0].weight else WeightIn(es[1..], v)
  }

  /** The weight of edge {u, v}. */
  function Weight(g: Graph, u: Node, v: Node): nat
    requires Adjacent(g, u, v)
  {
    WeightIn(g[u], v)
  }

  /** Every neighbour is itself a node of the graph. */
  ghost predicate Closed(g: Graph) {
    forall u, v :: u in g && v in Neighbors(g, u) ==> v in g
  }

  /** Every edge can be travelled both ways, with the same weight, as in the
      undirected graph the road map is built as. */
  ghost predicate Undirected(g: Graph) {
    forall u, v :: Adjacent(g, u, v) ==> Adjacent(g, v, u) && Weight(g, v, u) == Weight(g, u, v)
  }

  /** `p` is a walk in `g`: non-empty, and each consecutive pair is an edge. */
  ghost predicate IsWalk(g: Graph, p: Path) {
    p != [] && forall i :: 0 <= i < |p| - 1 ==> Adjacent(g, p[i], p[i + 1])
  }

  /** `p` is a walk from `a` to `b`. */
  ghost predicate WalkBetween(g: Graph, p: Path, a: Node, b: Node) {
    IsWalk(g, p) && p[0] == a && Last(p) == b
  }

  ghost predicate Reachable(g: Graph, a: Node, b: Node) {
    exists p :: WalkBetween(g, p, a, b)
  }

  /** No node occurs twice in `p`. */
  ghost predicate Simple(p: Path) {
    forall i, j :: 0 <= i < j < |p| ==> p[i] != p[j]
  }

  /** The sum of the edge weights along a walk. */
  function PathCost(g: Graph, p: Path): nat
    requires IsWalk(g, p)
  {
    if |p| == 1 then 0 else Weight(g, p[0], p[1]) + PathCost(g, p[1..])
  }

  /** A walk split at node k costs the sum of its two halves. */
  lemma {:induction false} PathCostSplit(g: Graph, p: Path, k: nat)
    requires IsWalk(g, p) && k < |p|
    ensures IsWalk(g, p[..k + 1]) && IsWalk(g, p[k..])
    ensures PathCost(g, p) == PathCost(g, p[..k + 1]) + PathCost(g, p[k..])
  {
    var pre, post := p[..k + 1], p[k..];
    assert IsWalk(g, pre) by {
      forall i | 0 <= i < k ensures Adjacent(g, pre[i], pre[i + 1]) {
        assert Adjacent(g, p[i], p[i + 1]);
      }
    }
    assert IsWalk(g, post) by {
      forall i | 0 <= i < |p| - k - 1 ensures Adjacent(g, post[i], post[i + 1]) {
        assert Adjacent(g, p[k + i], p[k + i + 1]);
      }
    }
    if k > 0 {
      var tail := p[1..];
      assert IsWalk(g, tail) by {
        forall i | 0 <= i < |p| - 2 ensures Adjacent(g, tail[i], tail[i + 1]) {
          assert Adjacent(g, p[i + 1], p[i + 2]);
        }
      }
      PathCostSplit(g, p[1..], k - 1);
      assert p[1..][..k] == p[..k + 1][1..];
      assert p[1..][k - 1..] == p[k..];
    }
  }

  /** Extending a walk by one edge adds that edge's weight to its cost. */
  lemma PathCostExtend(g: Graph, p: Path, v: Node)
    requires IsWalk(g, p) && Adjacent(g, Last(p), v)
    ensures IsWalk(g, p + [v])
    ensures PathCost(g, p + [v]) == PathCost(g, p) + Weight(g, Last(p), v)
  {
    var q := p + [v];
    assert IsWalk(g, q) by {
      forall i | 0 <= i < |q| - 1 ensures Adjacent(g, q[i], q[i + 1]) {
        if i < |p| - 1 { assert Adjacent(g, p[i], p[i + 1]); }
      }
    }
    PathCostSplit(g, q, |p| - 1);
    assert q[..|p|] == p;
    assert q[|p| - 1..] == [Last(p), v];
  }

  /** A walk that visits some node twice can be shortcut between the two
      visits; the result is a shorter walk between the same end points. */
  lemma Shortcut(g: Graph, p: Path, i: nat, j: nat)
    requires IsWalk(g, p) && i < j < |p| && p[i] == p[j]
    ensures WalkBetween(g, p[..i] + p[j..], p[0], Last(p))
    ensures |p[..i] + p[j..]| < |p|
  {
    var q := p[..i] + p[j..];
    forall k | 0 <= k < |q| - 1 ensures Adjacent(g, q[k], q[k + 1]) {
      if k < i - 1 {
        assert Adjacent(g, p[k], p[k + 1]);
      } else if k == i - 1 {
        assert q[k] == p[i - 1] && q[k + 1] == p[j];
        assert Adjacent(g, p[i - 1], p[i]);
      } else {
        assert q[k] == p[k - i + j] && q[k + 1] == p[k - i + j + 1];
        assert Adjacent(g, p[k - i + j], p[k - i + j + 1]);
      }
    }
    if i == 0 { assert q[0] == p[j] == p[0]; }
  }

  /** A walk with the fewest edges between its end points visits no node twice. */
  lemma ShortestWalkIsSimple(g: Graph, p: Path, a: Node, b: Node)
    requires WalkBetween(g, p, a, b)
    requires forall q :: WalkBetween(g, q, a, b) ==> |p| <= |q|
    ensures Simple(p)
  {
    forall i, j | 0 <= i < j < |p| ensures p[i] != p[j] {
      if p[i] == p[j] {
        Shortcut(g, p, i, j);
      }
    }
  }

  /** The nodes of `p` in the opposite order. */
  function Reverse(p: Path): (r: Path)
    ensures |r| == |p|
    ensures forall i :: 0 <= i < |p| ==> r[i] == p[|p| - 1 - i]
  {
    if p == [] then [] else Reverse(p[1..]) + [p[0]]
  }

  /** In an undirected graph a walk can be travelled backwards, between the
      same end points swapped and at the same cost. */
  lemma {:induction false} ReverseWalk(g: Graph, p: Path, a: Node, b: Node)
    requires Undirected(g) && WalkBetween(g, p, a, b)
    ensures WalkBetween(g, Reverse(p), b, a)
    ensures PathCost(g, Reverse(p)) == PathCost(g, p)
    decreases |p|
  {
    if |p| > 1 {
      var tail := p[1..];
      assert IsWalk(g, tail) by {
        forall i | 0 <= i < |tail| - 1 ensures Adjacent(g, tail[i], tail[i + 1]) {
          assert Adjacent(g, p[i + 1], p[i + 2]);
        }
      }
      ReverseWalk(g, tail, p[1], b);
      var q := Reverse(tail);
      assert Adjacent(g, p[0], p[1]);
      PathCostExtend(g, q, p[0]);
      assert Reverse(p) == q + [p[0]];
    } else {
      assert Reverse(p) == p;
    }
  }

  /** In an undirected graph reachability is symmetric. */
  lemma ReachableSymmetric(g: Graph, a: Node, b: Node)
    requires Undirected(g) && Reachable(g, a, b)
    ensures Reachable(g, b, a)
  {
    var p :| WalkBetween(g, p, a, b);
    ReverseWalk(g, p, a, b);
  }
}
