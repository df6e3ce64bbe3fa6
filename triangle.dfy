/** The searches' contracts pinned down on a concrete road map: the triangle
    A-B (10), B-C (10), A-C (30), where the route with fewest roads and the
    cheapest route differ. */
module Triangle {
  import opened Wrappers
  import opened Graphs
  import opened BreadthFirst
  import opened UniformCost
  import opened Deepening

  function Map(): (g: Graph)
    ensures g.Keys == {"A", "B", "C"}
  {
    map["A" := [Edge("B", 10), Edge("C", 30)],
        "B" := [Edge("A", 10), Edge("C", 10)],
        "C" := [Edge("A", 30), Edge("B", 10)]]
  }

  /** The neighbours and weights of the triangle. */
  lemma Roads()
    ensures Neighbors(Map(), "A") == ["B", "C"]
    ensures Neighbors(Map(), "B") == ["A", "C"]
    ensures Neighbors(Map(), "C") == ["A", "B"]
    ensures Adjacent(Map(), "A", "B") && Weight(Map(), "A", "B") == 10
    ensures Adjacent(Map(), "B", "C") && Weight(Map(), "B", "C") == 10
    ensures Adjacent(Map(), "A", "C") && Weight(Map(), "A", "C") == 30
    ensures Adjacent(Map(), "B", "A") && Weight(Map(), "B", "A") == 10
    ensures Adjacent(Map(), "C", "A") && Weight(Map(), "C", "A") == 30
    ensures Adjacent(Map(), "C", "B") && Weight(Map(), "C", "B") == 10
  {
    var g := Map();
    assert Targets(g["A"]) == ["B", "C"];
    assert Targets(g["B"]) == ["A", "C"];
    assert Targets(g["C"]) == ["A", "B"];
  }

  /** Every road of the triangle is at least 10 long, and every node's
      neighbours are nodes of the triangle. */
  lemma RoadsAtLeastTen()
    ensures Closed(Map())
    ensures forall u, v :: Adjacent(Map(), u, v) ==> Weight(Map(), u, v) >= 10
  {
    Roads();
    forall u, v | Adjacent(Map(), u, v) ensures Weight(Map(), u, v) >= 10 {
      assert u == "A" || u == "B" || u == "C";
      assert v in Neighbors(Map(), u);
    }
  }

  /** A walk over roads of length at least 10 costs at least 10 per road. */
  lemma {:induction false} CostAtLeastTenPerRoad(g: Graph, w: Path)
    requires IsWalk(g, w)
    requires forall u, v :: Adjacent(g, u, v) ==> Weight(g, u, v) >= 10
    ensures PathCost(g, w) >= 10 * (|w| - 1)
    decreases |w|
  {
    if |w| > 1 {
      assert Adjacent(g, w[0], w[1]);
      CostAtLeastTenPerRoad(g, w[1..]);
    }
  }

  /** The only walks from A to C with at most two roads are [A, C] and
      [A, B, C]. */
  lemma ShortWalks(w: Path)
    requires WalkBetween(Map(), w, "A", "C") && |w| <= 3
    ensures w == ["A", "C"] || w == ["A", "B", "C"]
  {
    Roads();
    assert |w| != 1;
    if |w| == 3 {
      assert Adjacent(Map(), w[0], w[1]) && Adjacent(Map(), w[1], w[2]);
      assert w[1] in ["B", "C"];
      assert w[1] != "C";
      assert w == [w[0], w[1], w[2]];
    } else {
      assert w == [w[0], w[1]];
    }
  }

  /** BFS finds the one-road route A-C, the fewest roads, while UCS finds
      the two-road route A-B-C, the cheapest at 20 against 30; iterative
      deepening with no depth to spend finds no route from A to C, and the
      one-node route from A to A. */
  method Compare() returns (bfsPath: Option<Path>, ucsPath: Option<Path>, ucsCost: nat,
                            shallow: Deepened, trivial: Deepened)
    ensures bfsPath == Some(["A", "C"])
    ensures ucsPath == Some(["A", "B", "C"]) && ucsCost == 20
    ensures shallow == Deepened(None, 0)
    ensures trivial == Deepened(Some(["A"]), 0)
  {
    var g := Map();
    Roads();
    RoadsAtLeastTen();
    var direct, viaB: Path := ["A", "C"], ["A", "B", "C"];
    assert WalkBetween(g, direct, "A", "C");
    assert WalkBetween(g, viaB, "A", "C");
    assert PathCost(g, viaB) == 20 by {
      assert viaB[1..] == ["B", "C"];
      assert ["B", "C"][1..] == ["C"];
    }

    var b, _ := Bfs(g, "A", "C");
    var p := b.value.path.value;
    assert |p| <= |direct|;
    ShortWalks(p);
    bfsPath := b.value.path;

    var u, _ := Ucs(g, "A", "C");
    var q := u.value.path.value;
    CostAtLeastTenPerRoad(g, q);
    ShortWalks(q);
    assert q != direct by {
      assert direct[1..] == ["C"];
    }
    ucsPath, ucsCost := u.value.path, u.value.cost;

    var s := Iddfs(g, "A", "C", 0);
    shallow := s.value;
    var t := Iddfs(g, "A", "A", 0);
    trivial := t.value;
  }
}
