/** Uniform-cost search over a frontier of (accumulated cost, path) entries
    that is stable-sorted by cost before every pop. */
module UniformCost {
  import opened Wrappers
  import opened Graphs
  import opened Frontiers

  /** A frontier entry: the accumulated cost and the path it was paid for. */
  datatype Entry = Entry(cost: nat, path: Path)

  /** What `ucs` returns: the path found (if any), its cost (0 when there is
      none) and the number of expanded nodes. */
  datatype Priced = Priced(path: Option<Path>, cost: nat, expanded: nat)

  ghost predicate SortedByCost(s: seq<Entry>) {
    forall i, j :: 0 <= i < j < |s| ==> s[i].cost <= s[j].cost
  }

  /** The entries of cost `c`, in their order in `s`. */
  function OfCost(s: seq<Entry>, c: nat): seq<Entry> {
    if s == [] then [] else (if s[0].cost == c then [s[0]] else []) + OfCost(s[1..], c)
  }

  /** Inserts `e` in front of the first entry that costs at least as much. */
  function InsertByCost(e: Entry, s: seq<Entry>): (r: seq<Entry>)
    ensures |r| == |s| + 1
    ensures multiset(r) == multiset(s) + multiset{e}
    ensures forall x :: x in r <==> x == e || x in s
  {
    if s == [] then [e]
    else if e.cost <= s[0].cost then [e] + s
    else
      assert s == [s[0]] + s[1..];
      [s[0]] + InsertByCost(e, s[1..])
  }

  /** Inserting into a sorted queue keeps it sorted. */
  lemma {:induction false} InsertSorted(e: Entry, s: seq<Entry>)
    requires SortedByCost(s)
    ensures SortedByCost(InsertByCost(e, s))
  {
    if s != [] && e.cost > s[0].cost {
      var t := s[1..];
      assert SortedByCost(t) by {
        forall i, j | 0 <= i < j < |t| ensures t[i].cost <= t[j].cost {
          assert t[i] == s[i + 1] && t[j] == s[j + 1];
        }
      }
      InsertSorted(e, t);
      var u := InsertByCost(e, t);
      var r := [s[0]] + u;
      forall i, j | 0 <= i < j < |r| ensures r[i].cost <= r[j].cost {
        if i == 0 {
          assert r[j] == u[j - 1] && r[j] in u;
          if r[j] != e {
            var k :| 0 <= k < |t| && t[k] == r[j];
            assert s[k + 1] == r[j];
          }
        } else {
          assert r[i] == u[i - 1] && r[j] == u[j - 1];
        }
      }
    }
  }

  /** Insertion is stable: `e` goes after no entry of its own cost, so the
      entries of each cost keep their order. */
  lemma {:induction false} InsertStable(e: Entry, s: seq<Entry>)
    ensures forall c :: OfCost(InsertByCost(e, s), c) == (if e.cost == c then [e] else []) + OfCost(s, c)
  {
    var r := InsertByCost(e, s);
    if s == [] {
    } else if e.cost <= s[0].cost {
      assert r[1..] == s;
    } else {
      InsertStable(e, s[1..]);
      assert r[1..] == InsertByCost(e, s[1..]);
    }
  }

  /** `queue.sort(key=lambda x: x[0])`: Python's sort is stable, so this is
      an insertion sort that keeps entries of equal cost in their order. */
  function SortByCost(q: seq<Entry>): (r: seq<Entry>)
    ensures |r| == |q|
    ensures SortedByCost(r)
    ensures multiset(r) == multiset(q)
    ensures forall x :: x in r <==> x in q
    ensures forall c :: OfCost(r, c) == OfCost(q, c)
  {
    if q == [] then []
    else
      var s := SortByCost(q[1..]);
      InsertSorted(q[0], s);
      InsertStable(q[0], s);
      assert q == [q[0]] + q[1..];
      InsertByCost(q[0], s)
  }

  /** The first entry of cost `c` in `s` is the first element of OfCost(s, c). */
  lemma {:induction false} FirstOfCost(s: seq<Entry>, c: nat)
    requires OfCost(s, c) != []
    ensures exists i :: 0 <= i < |s| && s[i] == OfCost(s, c)[0] && s[i].cost == c &&
                        forall j :: 0 <= j < i ==> s[j].cost != c
  {
    if s[0].cost != c {
      FirstOfCost(s[1..], c);
      var i :| 0 <= i < |s[1..]| && s[1..][i] == OfCost(s[1..], c)[0] && s[1..][i].cost == c &&
               forall j :: 0 <= j < i ==> s[1..][j].cost != c;
      assert s[i + 1] == s[1..][i];
      forall j | 0 <= j < i + 1 ensures s[j].cost != c {
        if j > 0 { assert s[j] == s[1..][j - 1]; }
      }
    }
  }

  /** The front of a sorted queue costs no more than any of its entries. */
  lemma FrontIsCheapest(s: seq<Entry>)
    requires s != [] && SortedByCost(s)
    ensures forall x :: x in s ==> s[0].cost <= x.cost
  {
    forall x | x in s ensures s[0].cost <= x.cost {
      var k :| 0 <= k < |s| && s[k] == x;
      if k > 0 { assert s[0].cost <= s[k].cost; }
    }
  }

  /** Sorting and taking the front entry pops a cheapest entry, and among
      the cheapest the one queued first. */
  lemma PopsCheapestEarliest(q: seq<Entry>)
    requires q != []
    ensures var e := SortByCost(q)[0];
            e in q &&
            (forall x :: x in q ==> e.cost <= x.cost) &&
            exists i :: 0 <= i < |q| && q[i] == e &&
                        forall j :: 0 <= j < i ==> q[j].cost > e.cost
  {
    var s := SortByCost(q);
    var e := s[0];
    var c := e.cost;
    assert e in s;
    FrontIsCheapest(s);
    assert OfCost(s, c) == [e] + OfCost(s[1..], c);
    assert OfCost(q, c) == OfCost(s, c);
    FirstOfCost(q, c);
    var i :| 0 <= i < |q| && q[i] == OfCost(q, c)[0] && q[i].cost == c &&
             forall j :: 0 <= j < i ==> q[j].cost != c;
    forall j | 0 <= j < i ensures q[j].cost > c {
      assert q[j] in q;
      assert q[j] in s;
    }
  }

  /** One entry per neighbour: the path extended by it, paying the weight of
      the edge to it. */
  function Relaxations(g: Graph, e: Entry, nbrs: seq<Node>): (r: seq<Entry>)
    requires e.path != [] && forall v :: v in nbrs ==> Adjacent(g, Last(e.path), v)
    ensures |r| == |nbrs|
    ensures forall i :: 0 <= i < |nbrs| ==>
              r[i] == Entry(e.cost + Weight(g, Last(e.path), nbrs[i]), e.path + [nbrs[i]])
  {
    seq(|nbrs|, i requires 0 <= i < |nbrs| =>
      Entry(e.cost + Weight(g, Last(e.path), nbrs[i]), e.path + [nbrs[i]]))
  }

  /** An entry holds a walk from `start`, ending in the graph unless it is
      `[start]`, and the cost of that walk. */
  ghost predicate PricedWalk(g: Graph, start: Node, e: Entry) {
    && e.path != [] && WalkBetween(g, e.path, start, Last(e.path))
    && (Last(e.path) in g || e.path == [start])
    && e.cost == PathCost(g, e.path)
  }

  ghost predicate EntriesPriced(g: Graph, start: Node, queue: seq<Entry>) {
    forall e :: e in queue ==> PricedWalk(g, start, e)
  }

  /** The expansion of `u` has been relaxed along its edge to `v`: `v` was
      expanded at no greater cost than through `u`, or an entry for `v`
      costing no more waits in the queue. */
  ghost predicate Relaxed(g: Graph, queue: seq<Entry>, visited: set<Node>, dist: map<Node, nat>, u: Node, v: Node)
    requires Adjacent(g, u, v) && u in dist
  {
    (v in visited && v in dist && dist[v] <= dist[u] + Weight(g, u, v))
    || exists e :: e in queue && e.path != [] && Last(e.path) == v && e.cost <= dist[u] + Weight(g, u, v)
  }

  /** The state of the `ucs` loop at the top of each iteration; `dist[v]`
      is the cost of the entry with which `v` was expanded. */
  ghost predicate UcsInvariant(g: Graph, start: Node, goal: Node, queue: seq<Entry>,
                               visited: set<Node>, dist: map<Node, nat>)
  {
    && visited <= g.Keys
    && dist.Keys == visited
    && goal !in visited
    && EntriesPriced(g, start, queue)
    && (forall v, e :: v in visited && e in queue ==> dist[v] <= e.cost)
    && (forall v :: v in visited ==> Reachable(g, start, v))
    && (forall u, v :: u in visited && v in Neighbors(g, u) ==> Relaxed(g, queue, visited, dist, u, v))
    && ((visited == {} && queue == [Entry(0, [start])]) || (start in visited && dist[start] == 0))
  }

  /** The invariant speaks of the queue's members only, so sorting keeps it. */
  lemma SortKeeps(g: Graph, start: Node, goal: Node, queue: seq<Entry>,
                  visited: set<Node>, dist: map<Node, nat>)
    requires UcsInvariant(g, start, goal, queue, visited, dist)
    ensures UcsInvariant(g, start, goal, SortByCost(queue), visited, dist)
  {
    var s := SortByCost(queue);
    forall u, v | u in visited && v in Neighbors(g, u) ensures Relaxed(g, s, visited, dist, u, v) {
      assert Relaxed(g, queue, visited, dist, u, v);
    }
    if visited == {} {
      assert s == InsertByCost(queue[0], SortByCost([]));
    }
  }

  /** Following `w` from an expanded node `w[k]` expanded at no more than the
      cost of `w` up to it, one reaches a queued entry that costs no more
      than the whole of `w`. */
  lemma {:induction false} CutFrom(g: Graph, start: Node, goal: Node, queue: seq<Entry>,
                                   visited: set<Node>, dist: map<Node, nat>, w: Path, k: nat)
    requires UcsInvariant(g, start, goal, queue, visited, dist)
    requires WalkBetween(g, w, start, goal)
    requires k < |w| && w[k] in visited
    requires IsWalk(g, w[..k + 1]) && dist[w[k]] <= PathCost(g, w[..k + 1])
    ensures exists e :: e in queue && e.cost <= PathCost(g, w)
    decreases |w| - k
  {
    assert k < |w| - 1;
    var u, v := w[k], w[k + 1];
    assert Adjacent(g, u, v);
    assert w[..k + 1] + [v] == w[..k + 2];
    PathCostExtend(g, w[..k + 1], v);
    PathCostSplit(g, w, k + 1);
    assert Relaxed(g, queue, visited, dist, u, v);
    if v in visited && dist[v] <= dist[u] + Weight(g, u, v) {
      CutFrom(g, start, goal, queue, visited, dist, w, k + 1);
    }
  }

  /** Every walk from `start` to `goal` costs at least as much as some
      queued entry; with an empty queue there is no such walk. */
  lemma SomeEntryNoDearer(g: Graph, start: Node, goal: Node, queue: seq<Entry>,
                          visited: set<Node>, dist: map<Node, nat>, w: Path)
    requires UcsInvariant(g, start, goal, queue, visited, dist)
    requires WalkBetween(g, w, start, goal)
    ensures exists e :: e in queue && e.cost <= PathCost(g, w)
  {
    if visited == {} {
      assert queue[0] in queue;
    } else {
      assert w[..1] == [start];
      CutFrom(g, start, goal, queue, visited, dist, w, 0);
    }
  }

  /** The state when the cheapest entry reaches the goal: its cost is the
      cost of its walk and no walk from `start` to `goal` is cheaper. */
  lemma FoundCheapest(g: Graph, start: Node, goal: Node, sorted: seq<Entry>,
                      visited: set<Node>, dist: map<Node, nat>)
    requires UcsInvariant(g, start, goal, sorted, visited, dist) && SortedByCost(sorted)
    requires sorted != [] && sorted[0].path != [] && Last(sorted[0].path) == goal
    ensures Explored(g, start, visited, |visited|) && Answered(g, start, goal, Some(sorted[0].path))
    ensures WalkBetween(g, sorted[0].path, start, goal) && sorted[0].cost == PathCost(g, sorted[0].path)
    ensures forall w :: WalkBetween(g, w, start, goal) ==> sorted[0].cost <= PathCost(g, w)
    ensures start == goal ==> visited == {} && sorted[0] == Entry(0, [start])
  {
    assert sorted[0] in sorted;
    forall w | WalkBetween(g, w, start, goal) ensures sorted[0].cost <= PathCost(g, w) {
      SomeEntryNoDearer(g, start, goal, sorted, visited, dist, w);
      var e :| e in sorted && e.cost <= PathCost(g, w);
      var j :| 0 <= j < |sorted| && sorted[j] == e;
    }
    SubsetCard(visited, g.Keys);
  }

  /** With an empty queue the goal is unreachable. */
  lemma Exhausted(g: Graph, start: Node, goal: Node, visited: set<Node>, dist: map<Node, nat>)
    requires UcsInvariant(g, start, goal, [], visited, dist)
    ensures Explored(g, start, visited, |visited|) && Answered(g, start, goal, None)
  {
    if Reachable(g, start, goal) {
      var w :| WalkBetween(g, w, start, goal);
      SomeEntryNoDearer(g, start, goal, [], visited, dist, w);
    }
    SubsetCard(visited, g.Keys);
  }

  /** Popping the cheapest entry when its end is already expanded keeps the
      invariant. */
  lemma DiscardStep(g: Graph, start: Node, goal: Node, sorted: seq<Entry>,
                    visited: set<Node>, dist: map<Node, nat>)
    requires UcsInvariant(g, start, goal, sorted, visited, dist)
    requires sorted != [] && sorted[0].path != [] && Last(sorted[0].path) in visited
    ensures UcsInvariant(g, start, goal, sorted[1..], visited, dist)
  {
    var popped, rest := sorted[0], sorted[1..];
    assert popped in sorted;
    forall u, v | u in visited && v in Neighbors(g, u) ensures Relaxed(g, rest, visited, dist, u, v) {
      assert Relaxed(g, sorted, visited, dist, u, v);
      if !(v in visited && dist[v] <= dist[u] + Weight(g, u, v)) {
        var e :| e in sorted && e.path != [] && Last(e.path) == v && e.cost <= dist[u] + Weight(g, u, v);
        var j :| 0 <= j < |sorted| && sorted[j] == e;
        assert j != 0;
        assert rest[j - 1] == e;
      }
    }
  }

  /** The queue after expanding the cheapest entry's end node. */
  function Expanded(g: Graph, sorted: seq<Entry>): seq<Entry>
    requires sorted != [] && sorted[0].path != [] && Last(sorted[0].path) in g
  {
    var node := Last(sorted[0].path);
    sorted[1..] + Relaxations(g, sorted[0], Neighbors(g, node))
  }

  /** The relaxed entries hold walks from `start` and their costs. */
  lemma ExpandPriced(g: Graph, start: Node, sorted: seq<Entry>)
    requires Closed(g) && EntriesPriced(g, start, sorted)
    requires sorted != [] && sorted[0].path != [] && Last(sorted[0].path) in g
    ensures EntriesPriced(g, start, Expanded(g, sorted))
  {
    var popped := sorted[0];
    assert popped in sorted;
    TailPriced(g, start, sorted);
    RelaxationsPriced(g, start, popped, Neighbors(g, Last(popped.path)));
  }

  /** Dropping the front entry keeps every other entry priced. */
  lemma TailPriced(g: Graph, start: Node, sorted: seq<Entry>)
    requires EntriesPriced(g, start, sorted) && sorted != []
    ensures EntriesPriced(g, start, sorted[1..])
  {
    var rest := sorted[1..];
    forall e | e in rest ensures PricedWalk(g, start, e) {
      var j :| 0 <= j < |rest| && rest[j] == e;
      assert sorted[j + 1] == e;
    }
  }

  /** Relaxing a priced entry along each edge of its end node gives priced
      entries. */
  lemma RelaxationsPriced(g: Graph, start: Node, popped: Entry, nbrs: seq<Node>)
    requires Closed(g) && PricedWalk(g, start, popped) && Last(popped.path) in g
    requires forall v :: v in nbrs ==> v in Neighbors(g, Last(popped.path))
    ensures EntriesPriced(g, start, Relaxations(g, popped, nbrs))
  {
    var relaxed := Relaxations(g, popped, nbrs);
    forall e | e in relaxed ensures PricedWalk(g, start, e) {
      var j :| 0 <= j < |relaxed| && relaxed[j] == e;
      assert nbrs[j] in nbrs;
      RelaxedPriced(g, start, popped, nbrs[j]);
    }
  }

  /** Relaxing a priced entry along one edge gives a priced entry. */
  lemma RelaxedPriced(g: Graph, start: Node, popped: Entry, v: Node)
    requires Closed(g) && PricedWalk(g, start, popped) && Last(popped.path) in g
    requires v in Neighbors(g, Last(popped.path))
    ensures PricedWalk(g, start, Entry(popped.cost + Weight(g, Last(popped.path), v), popped.path + [v]))
  {
    PathCostExtend(g, popped.path, v);
    assert (popped.path + [v])[0] == popped.path[0];
  }

  /** After the expansion no expanded node costs more than any queued entry:
      the sorted rest costs at least the popped entry, and relaxed entries
      only add non-negative weights. */
  lemma ExpandDistances(g: Graph, sorted: seq<Entry>, visited: set<Node>, dist: map<Node, nat>)
    requires SortedByCost(sorted) && dist.Keys == visited
    requires sorted != [] && sorted[0].path != [] && Last(sorted[0].path) in g
    requires forall v, e :: v in visited && e in sorted ==> dist[v] <= e.cost
    ensures var dist' := dist[Last(sorted[0].path) := sorted[0].cost];
            forall v, e :: v in dist' && e in Expanded(g, sorted) ==> dist'[v] <= e.cost
  {
    var popped, rest := sorted[0], sorted[1..];
    var dist' := dist[Last(popped.path) := popped.cost];
    var q := Expanded(g, sorted);
    assert popped in sorted;
    forall v, e | v in dist' && e in q ensures dist'[v] <= e.cost {
      var j :| 0 <= j < |q| && q[j] == e;
      if j < |rest| {
        assert e == sorted[j + 1];
      }
    }
  }

  /** A queued entry for `v` costing no more than the way through `u` shows
    the edge relaxed. */
  lemma RelaxedBy(g: Graph, queue: seq<Entry>, visited: set<Node>, dist: map<Node, nat>, u: Node, v: Node, e: Entry)
    requires Adjacent(g, u, v) && u in dist
    requires e in queue && e.path != [] && Last(e.path) == v && e.cost <= dist[u] + Weight(g, u, v)
    ensures Relaxed(g, queue, visited, dist, u, v)
  {
  }

  /** The expanded node's edges are relaxed by its new entries. */
  lemma NewNodeRelaxed(g: Graph, sorted: seq<Entry>, visited: set<Node>, dist: map<Node, nat>, v: Node)
    requires sorted != [] && sorted[0].path != [] && Last(sorted[0].path) in g
    requires v in Neighbors(g, Last(sorted[0].path))
    ensures var node := Last(sorted[0].path);
            Relaxed(g, Expanded(g, sorted), visited + {node}, dist[node := sorted[0].cost], node, v)
  {
    var popped := sorted[0];
    var node := Last(popped.path);
    var nbrs := Neighbors(g, node);
    var dist' := dist[node := popped.cost];
    var k :| 0 <= k < |nbrs| && nbrs[k] == v;
    var relaxed := Relaxations(g, popped, nbrs);
    var q := Expanded(g, sorted);
    assert q == sorted[1..] + relaxed;
    var e := relaxed[k];
    assert q[|sorted| - 1 + k] == e;
    RelaxedBy(g, q, visited + {node}, dist', node, v, e);
  }

  /** An edge relaxed before stays relaxed: if its witness was the popped
      entry, its end is now expanded at that entry's cost. */
  lemma OldNodeRelaxed(g: Graph, sorted: seq<Entry>, visited: set<Node>, dist: map<Node, nat>, u: Node, v: Node)
    requires sorted != [] && sorted[0].path != [] && Last(sorted[0].path) in g
    requires Last(sorted[0].path) !in visited
    requires dist.Keys == visited && u in visited && Adjacent(g, u, v)
    requires Relaxed(g, sorted, visited, dist, u, v)
    ensures var node := Last(sorted[0].path);
            Relaxed(g, Expanded(g, sorted), visited + {node}, dist[node := sorted[0].cost], u, v)
  {
    if !(v in visited && dist[v] <= dist[u] + Weight(g, u, v)) {
      var e :| e in sorted && e.path != [] && Last(e.path) == v && e.cost <= dist[u] + Weight(g, u, v);
      var j :| 0 <= j < |sorted| && sorted[j] == e;
      if j > 0 {
        assert Expanded(g, sorted)[j - 1] == e;
      }
    }
  }

  /** After the expansion every expanded node's edges are relaxed. */
  lemma ExpandRelaxed(g: Graph, sorted: seq<Entry>, visited: set<Node>, dist: map<Node, nat>)
    requires sorted != [] && sorted[0].path != [] && Last(sorted[0].path) in g
    requires Last(sorted[0].path) !in visited
    requires visited <= g.Keys && dist.Keys == visited
    requires forall u, v :: u in visited && v in Neighbors(g, u) ==> Relaxed(g, sorted, visited, dist, u, v)
    ensures var node := Last(sorted[0].path);
            var visited', dist' := visited + {node}, dist[node := sorted[0].cost];
            forall u, v :: u in visited' && v in Neighbors(g, u) ==> Relaxed(g, Expanded(g, sorted), visited', dist', u, v)
  {
    var node := Last(sorted[0].path);
    forall u, v | u in visited + {node} && v in Neighbors(g, u)
      ensures Relaxed(g, Expanded(g, sorted), visited + {node}, dist[node := sorted[0].cost], u, v)
    {
      if u == node {
        NewNodeRelaxed(g, sorted, visited, dist, v);
      } else {
        OldNodeRelaxed(g, sorted, visited, dist, u, v);
      }
    }
  }

  /** Expanding the cheapest entry's end node and queuing its relaxations
      keeps the invariant. */
  lemma ExpandStep(g: Graph, start: Node, goal: Node, sorted: seq<Entry>,
                   visited: set<Node>, dist: map<Node, nat>)
    requires Closed(g)
    requires UcsInvariant(g, start, goal, sorted, visited, dist) && SortedByCost(sorted)
    requires sorted != [] && sorted[0].path != [] && Last(sorted[0].path) in g
    requires Last(sorted[0].path) !in visited && Last(sorted[0].path) != goal
    ensures UcsInvariant(g, start, goal, Expanded(g, sorted), visited + {Last(sorted[0].path)},
                         dist[Last(sorted[0].path) := sorted[0].cost])
  {
    var popped := sorted[0];
    assert popped in sorted;
    ExpandPriced(g, start, sorted);
    ExpandDistances(g, sorted, visited, dist);
    ExpandRelaxed(g, sorted, visited, dist);
    assert WalkBetween(g, popped.path, start, Last(popped.path));
    if visited == {} {
      assert popped == Entry(0, [start]);
    }
  }

  /** `queue.append((cost + weight, path + [neighbor]))` for each neighbour
      in turn. */
  method AppendRelaxations(g: Graph, queue: seq<Entry>, e: Entry, nbrs: seq<Node>) returns (r: seq<Entry>)
    requires e.path != [] && forall v :: v in nbrs ==> Adjacent(g, Last(e.path), v)
    ensures r == queue + Relaxations(g, e, nbrs)
  {
    r := queue;
    var node := e.path[|e.path| - 1];
    for i := 0 to |nbrs|
      invariant r == queue + Relaxations(g, e, nbrs[..i])
    {
      assert nbrs[i] in nbrs;
      var newCost := e.cost + Weight(g, node, nbrs[i]);
      var newPath := e.path + [nbrs[i]];
      r := r + [Entry(newCost, newPath)];
    }
    assert nbrs[..|nbrs|] == nbrs;
  }

  /** `ucs(start, goal)`: sort the queue by cost, pop the front entry and
      return it when its path ends at the goal; otherwise, the first time
      its end node is seen, expand that node by queuing one entry per
      neighbour, paying that edge's weight. Exhausting the queue returns no
      path with cost 0; only `start` can make the graph fault. */
  method Ucs(g: Graph, start: Node, goal: Node) returns (r: Result<Priced>, ghost closed: set<Node>)
    requires Closed(g)
    ensures r.Err? <==> start !in g && start != goal
    ensures r.Err? ==> r.failure == NodeNotInGraph(start)
    ensures start == goal ==> r == Ok(Priced(Some([start]), 0, 0))
    ensures r.Ok? ==> Explored(g, start, closed, r.value.expanded) && Answered(g, start, goal, r.value.path)
    ensures r.Ok? && r.value.path.Some? ==>
              && r.value.cost == PathCost(g, r.value.path.value)
              && forall w :: WalkBetween(g, w, start, goal) ==> r.value.cost <= PathCost(g, w)
    ensures r.Ok? && r.value.path.None? ==> r.value.cost == 0
  {
    var queue: seq<Entry> := [Entry(0, [start])];
    var visited: set<Node> := {};
    ghost var dist: map<Node, nat> := map[];
    while queue != []
      invariant UcsInvariant(g, start, goal, queue, visited, dist)
      invariant start !in g && start != goal ==> visited == {} && queue == [Entry(0, [start])]
      decreases |g.Keys - visited|, |queue|
    {
      SortKeeps(g, start, goal, queue, visited, dist);
      queue := SortByCost(queue);
      ghost var sorted := queue;
      assert sorted[0] in sorted;
      var cost, path := queue[0].cost, queue[0].path;
      queue := queue[1..];
      var node := path[|path| - 1];
      if node == goal {
        FoundCheapest(g, start, goal, sorted, visited, dist);
        return Ok(Priced(Some(path), cost, |visited|)), visited;
      }
      if node !in visited {
        ghost var seen := visited;
        visited := visited + {node};
        if node !in g {
          assert path == [start];
          return Err(NodeNotInGraph(node)), visited;
        }
        ExpandStep(g, start, goal, sorted, seen, dist);
        dist := dist[node := cost];
        queue := AppendRelaxations(g, queue, Entry(cost, path), Neighbors(g, node));
        UnexpandedShrinks(g.Keys, seen, node);
      } else {
        DiscardStep(g, start, goal, sorted, visited, dist);
      }
    }
    Exhausted(g, start, goal, visited, dist);
    return Ok(Priced(None, 0, |visited|)), visited;
  }
}
