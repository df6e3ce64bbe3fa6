# Uninformed searches over the Ecuador road map

This project models the four search algorithms of `AgentesInteligentes/Busqueda.py`
in Dafny: breadth-first (`bfs`), depth-first (`dfs`), uniform-cost (`ucs`) and
iterative deepening (`iddfs`, with its depth-limited `dls`). It also models the
table the page builds from their results. Each search takes an origin and a
destination city on a weighted undirected road map and returns the path it
found, with its number of expanded nodes (its cost for UCS, its depth for
IDDFS).

The road map is a parameter, not the global networkx graph:

- `Graph` is a map from each node to its adjacency list of `Edge(to, weight)`.
  The list order is the order in which `G.neighbors` enumerates the neighbours.
- `Weight(g, u, v)` is `G[u][v]['weight']`.
- `Closed(g)` says that every neighbour is a node of the graph. The searches
  require it, as a graph built with `add_weighted_edges_from` always satisfies
  it.
- `Undirected(g)` says that every edge can be travelled both ways at the same
  weight.
- Weights are natural numbers: every road length is a non-negative integer.

`bfs`, `dfs` and `ucs` are loops over a local frontier of whole paths and a
local `visited` set. They become methods with `while` loops in the modules
`BreadthFirst`, `DepthFirst` and `UniformCost`. Each is proved against:

- a ghost loop invariant;
- for BFS, a ghost `level` map recording the length of the path with which each
  node was expanded;
- for UCS, a ghost `dist` map recording the cost of that path.

The frontier handling is the same as in the code. BFS pops the front of the
queue, DFS pops the top of the stack, and UCS stable-sorts the queue by cost
(`SortByCost`, an insertion sort with Python's tie order) and pops the front.
Each appends one extension per neighbour, in enumeration order (`AppendExtensions`,
`AppendRelaxations`).

`dls` is specified by the mutually recursive functions `DlsSearch` and
`FirstAmong`. The method `Dls` runs the same neighbour loop with an early
return and is proved equal to them. `Iddfs` is the outer loop over depths.

Faults: the code never checks nodes up front. The only fault it can raise is
the one `G.neighbors` raises for a node the graph does not contain. A search
only asks for the neighbours of `start` or of a neighbour, so only a missing
`start` can raise it. The model returns `Err(NodeNotInGraph(start))` exactly
when the code would raise:

- `bfs`, `dfs` and `ucs` fault when `start` is missing and differs from the
  goal. When `start` is the goal they return `[start]` before asking for
  neighbours.
- `iddfs` faults when `start` is missing, differs from the goal and
  `max_depth >= 1`.
- A missing goal is never reported. The search exhausts its frontier and
  returns no path, exactly as for an unreachable goal.
- A negative `max_depth` is not rejected. The loop over
  `range(max_depth + 1)` does not run and `(None, max_depth)` is returned.
- The button handler has no exception handling, so the first fault, which is
  raised by `bfs`, aborts the whole comparison (`RunAll`).

## Model

| member | source | states |
|---|---|---|
| Graphs.Targets | AgentesInteligentes/Busqueda.py:51 | the neighbours enumerated are the adjacency list's targets, one per edge, in list order |
| Graphs.WeightIn | AgentesInteligentes/Busqueda.py:85 | the weight looked up for a neighbour is the weight stored on an edge to that neighbour |
| Graphs.PathCostSplit | AgentesInteligentes/Busqueda.py:85 | both parts of a walk split at any node are walks, and the accumulated cost of the walk is the sum of their costs |
| Graphs.PathCostExtend | AgentesInteligentes/Busqueda.py:84-88 | appending a neighbour of the last node gives a walk whose cost is the old cost plus that edge's weight, which is `new_cost` |
| Graphs.Shortcut | AgentesInteligentes/Busqueda.py:41-55 | a walk that visits a node twice can be cut between the visits into a strictly shorter walk with the same end points |
| Graphs.ShortestWalkIsSimple | AgentesInteligentes/Busqueda.py:41-55 | a walk with the fewest edges between its end points repeats no node |
| Graphs.ReverseWalk | AgentesInteligentes/Busqueda.py:7 | in the undirected road map (`nx.Graph`), every walk reversed is a walk between the swapped end points with the same cost |
| Graphs.ReachableSymmetric | AgentesInteligentes/Busqueda.py:7 | in the undirected road map, if `b` is reachable from `a` then `a` is reachable from `b` |
| Frontiers.Extensions | AgentesInteligentes/Busqueda.py:51-54 | one new path per neighbour, in enumeration order: the popped path followed by that neighbour |
| Frontiers.AppendExtensions | AgentesInteligentes/Busqueda.py:51-54 | the neighbour loop leaves the old frontier followed by exactly those extensions, in order |
| Frontiers.ExtendWalks | AgentesInteligentes/Busqueda.py:51-54 | extending a walk from `start` by each neighbour of its end keeps every frontier path a walk from `start` |
| Frontiers.PopTop | AgentesInteligentes/Busqueda.py:61 | popping the top of the stack leaves only walks from `start` |
| Frontiers.PoppedReachable | AgentesInteligentes/Busqueda.py:49-50 | the node added to `visited` is reachable from `start`, like every node already in it |
| Frontiers.OutsideIsStart | AgentesInteligentes/Busqueda.py:51 | the only frontier path that can end outside the graph is `[start]`, so only a missing `start` can make `neighbors` fault |
| Frontiers.UnexpandedShrinks | AgentesInteligentes/Busqueda.py:49-50 | adding a node not yet visited strictly shrinks the set of graph nodes still unexpanded, so the loops terminate |
| BreadthFirst.Bfs | AgentesInteligentes/Busqueda.py:41-55 | faults exactly when `start` is missing and is not the goal; `start == goal` gives `([start], 0)`; the expanded count is the number of distinct reachable graph nodes expanded, at most the number of nodes; a returned path is a walk from `start` to the goal with no more edges than any other, and visits no node twice; no path only when the goal is unreachable |
| BreadthFirst.FrontIsShortest | AgentesInteligentes/Busqueda.py:45 | every walk from `start` to the goal is at least as long as the path at the front of the queue |
| BreadthFirst.CutFrom | AgentesInteligentes/Busqueda.py:44-54 | following a walk from an expanded node, some queued path is no longer than that walk |
| BreadthFirst.FoundAtFront | AgentesInteligentes/Busqueda.py:47-48 | the path returned at the goal is a walk with the fewest edges, hence visits no node twice, and when `start` is the goal nothing has been expanded |
| BreadthFirst.Exhausted | AgentesInteligentes/Busqueda.py:55 | an empty queue means the goal is unreachable |
| BreadthFirst.DiscardStep | AgentesInteligentes/Busqueda.py:45-49 | dropping a path whose end is already visited keeps the loop invariant |
| BreadthFirst.ExpandStep | AgentesInteligentes/Busqueda.py:49-54 | expanding a new node and queuing its extensions keeps the loop invariant |
| BreadthFirst.ExpandSorted | AgentesInteligentes/Busqueda.py:54 | after the expansion, queued paths still run from shorter to longer and span at most two lengths |
| BreadthFirst.ExpandLevels | AgentesInteligentes/Busqueda.py:50-54 | no expanded node's level exceeds the length of any queued path |
| BreadthFirst.ExpandLayered | AgentesInteligentes/Busqueda.py:51-54 | the queue after the expansion holds walks from `start`, layered by length |
| BreadthFirst.ExpandExpansions | AgentesInteligentes/Busqueda.py:49-50 | the newly visited node is a reachable graph node other than the goal |
| BreadthFirst.NewNodeFollowedUp | AgentesInteligentes/Busqueda.py:51-54 | each neighbour of the new node has a queued path one longer than the new node's level |
| BreadthFirst.OldNodeFollowedUp | AgentesInteligentes/Busqueda.py:45-54 | a neighbour already followed up stays followed up after the pop and the expansion |
| BreadthFirst.ExpandFollowedUp | AgentesInteligentes/Busqueda.py:49-54 | every neighbour of every visited node is visited at no deeper level, or a path to it waits in the queue |
| DepthFirst.Dfs | AgentesInteligentes/Busqueda.py:57-71 | faults exactly when `start` is missing and is not the goal; `start == goal` gives `([start], 0)`; the expanded count is the number of distinct reachable graph nodes expanded, at most the number of nodes; a returned path is a walk from `start` to the goal; no path only when the goal is unreachable |
| DepthFirst.CutFrom | AgentesInteligentes/Busqueda.py:60-70 | if an expanded node lies on a walk to the goal, the stack is not empty |
| DepthFirst.FoundOnTop | AgentesInteligentes/Busqueda.py:63-64 | the path returned at the goal is a walk from `start`, and when `start` is the goal nothing has been expanded |
| DepthFirst.Exhausted | AgentesInteligentes/Busqueda.py:71 | an empty stack means the goal is unreachable |
| DepthFirst.DiscardStep | AgentesInteligentes/Busqueda.py:61-65 | dropping a path whose end is already visited keeps the loop invariant |
| DepthFirst.NewNodeCovered | AgentesInteligentes/Busqueda.py:67-70 | each neighbour of the new node has a pushed path ending at it |
| DepthFirst.OldNodeCovered | AgentesInteligentes/Busqueda.py:61-70 | a neighbour already covered stays covered after the pop and the push |
| DepthFirst.ExpandCovered | AgentesInteligentes/Busqueda.py:65-70 | every neighbour of every visited node is visited or the end of a stacked path |
| DepthFirst.ExpandStep | AgentesInteligentes/Busqueda.py:65-70 | expanding a new node and pushing its extensions keeps the loop invariant |
| UniformCost.InsertByCost | AgentesInteligentes/Busqueda.py:77 | insertion adds exactly the one entry: the result is the old queue plus that entry, as a multiset |
| UniformCost.InsertSorted | AgentesInteligentes/Busqueda.py:77 | inserting into a queue sorted by cost keeps it sorted |
| UniformCost.InsertStable | AgentesInteligentes/Busqueda.py:77 | the inserted entry comes before every other entry of its cost, and those entries keep their order |
| UniformCost.SortByCost | AgentesInteligentes/Busqueda.py:77 | the sorted queue is sorted by cost, a permutation of the queue, and has the entries of each cost in their original order, as Python's stable sort does |
| UniformCost.FirstOfCost | AgentesInteligentes/Busqueda.py:77-78 | the first entry of a given cost is the first element of the subsequence of that cost |
| UniformCost.FrontIsCheapest | AgentesInteligentes/Busqueda.py:78 | the front of a sorted queue costs no more than any entry |
| UniformCost.PopsCheapestEarliest | AgentesInteligentes/Busqueda.py:77-78 | the popped entry is in the queue, costs no more than any entry, and is the earliest queued entry of that cost |
| UniformCost.Relaxations | AgentesInteligentes/Busqueda.py:84-88 | one new entry per neighbour, in enumeration order: the old cost plus that edge's weight, with the path followed by the neighbour |
| UniformCost.AppendRelaxations | AgentesInteligentes/Busqueda.py:84-88 | the neighbour loop leaves the old queue followed by exactly those entries, in order |
| UniformCost.RelaxedPriced | AgentesInteligentes/Busqueda.py:85-88 | an entry built from a priced walk and an edge holds a walk from `start` and that walk's cost |
| UniformCost.RelaxationsPriced | AgentesInteligentes/Busqueda.py:84-88 | every entry the neighbour loop queues holds a walk from `start` and its exact cost |
| UniformCost.ExpandPriced | AgentesInteligentes/Busqueda.py:78-88 | after popping and expanding, every queued entry's cost is the cost of its walk |
| UniformCost.SortKeeps | AgentesInteligentes/Busqueda.py:77 | sorting the queue keeps the loop invariant |
| UniformCost.CutFrom | AgentesInteligentes/Busqueda.py:76-88 | following a walk from a node expanded at no more than the walk's cost so far, some queued entry costs no more than the whole walk |
| UniformCost.SomeEntryNoDearer | AgentesInteligentes/Busqueda.py:76-88 | every walk from `start` to the goal costs at least as much as some queued entry |
| UniformCost.FoundCheapest | AgentesInteligentes/Busqueda.py:80-81 | the entry returned at the goal holds a walk whose cost it carries, and no walk to the goal is cheaper |
| UniformCost.Exhausted | AgentesInteligentes/Busqueda.py:89 | an empty queue means the goal is unreachable |
| UniformCost.DiscardStep | AgentesInteligentes/Busqueda.py:78-82 | dropping an entry whose end is already visited keeps the loop invariant |
| UniformCost.ExpandDistances | AgentesInteligentes/Busqueda.py:78-88 | no expanded node was expanded at a higher cost than any queued entry, the new node included |
| UniformCost.NewNodeRelaxed | AgentesInteligentes/Busqueda.py:84-88 | each neighbour of the new node has a queued entry costing the new node's cost plus the edge weight |
| UniformCost.OldNodeRelaxed | AgentesInteligentes/Busqueda.py:78-88 | an edge already relaxed stays relaxed after the pop and the expansion |
| UniformCost.ExpandRelaxed | AgentesInteligentes/Busqueda.py:82-88 | every edge out of every visited node is relaxed after the expansion |
| UniformCost.ExpandStep | AgentesInteligentes/Busqueda.py:82-88 | expanding a new node and queuing its relaxed entries keeps the loop invariant |
| UniformCost.Ucs | AgentesInteligentes/Busqueda.py:73-89 | faults exactly when `start` is missing and is not the goal; `start == goal` gives `([start], 0, 0)`; the expanded count is the number of distinct reachable graph nodes expanded; a returned path is a walk to the goal whose cost is the sum of its weights and no greater than the cost of any walk; no path comes with cost 0 and only when the goal is unreachable |
| Deepening.ConsBranchPath | AgentesInteligentes/Busqueda.py:97-100 | prefixing a branch path from an unvisited neighbour with the current node gives a branch path one edge longer |
| Deepening.DlsSearch | AgentesInteligentes/Busqueda.py:92-101 | a path found has exactly `depth` edges, goes from `node` to the goal along edges, and repeats no node after `node` nor uses one on the current branch |
| Deepening.FirstAmong | AgentesInteligentes/Busqueda.py:96-101 | a path found by the neighbour loop is such a branch path |
| Deepening.DlsComplete | AgentesInteligentes/Busqueda.py:92-101 | whenever a branch path of exactly `depth` edges exists, the depth-limited search finds one |
| Deepening.FirstAmongComplete | AgentesInteligentes/Busqueda.py:96-101 | the neighbour loop finds a path when the second node of some branch path is among the neighbours still to try |
| Deepening.ShortenToSimple | AgentesInteligentes/Busqueda.py:103-106 | every walk can be shortened to a walk between the same end points that repeats no node |
| Deepening.NothingAtDepth | AgentesInteligentes/Busqueda.py:103-106 | if no walk to the goal has fewer than `depth` edges and the search at `depth` fails, no walk has `depth` edges either |
| Deepening.BranchPathSimple | AgentesInteligentes/Busqueda.py:104 | a path found from `start` with the branch `{start}` repeats no node |
| Deepening.Dls | AgentesInteligentes/Busqueda.py:92-101 | the recursive loop with early return computes exactly the depth-limited search |
| Deepening.Iddfs | AgentesInteligentes/Busqueda.py:91-107 | faults exactly when `start` is missing, is not the goal and `max_depth >= 1`; `start == goal` with `max_depth >= 0` gives `([start], 0)`; a path found at depth `d` is the one `dls` returns there, is a simple walk of `d <= max_depth` edges, `dls` failed at every smaller depth, and no walk has fewer edges; no path, with `max_depth` reported, only when every walk has more than `max_depth` edges |
| Report.StepsOf | AgentesInteligentes/Busqueda.py:227 | steps are counted exactly when there is a path, and the count is one less than its number of nodes |
| Report.Rows | AgentesInteligentes/Busqueda.py:226-235 | the table has one row per search, four in all |
| Report.RowsCompare | AgentesInteligentes/Busqueda.py:226-235 | from what each search promises: every row's steps match its path; BFS, DFS and UCS show a path exactly when one exists; the BFS, DFS and UCS expanded counts are at most the number of nodes; the BFS steps are the fewest possible; the UCS cost is its path's cost and the least possible, or 0 without a path; when IDDFS finds a path, its steps and reported depth equal the BFS steps and are at most `max_depth`; without one it reports `max_depth` and no walk has at most `max_depth` edges |
| Report.FewestSwapped | AgentesInteligentes/Busqueda.py:7 | on the undirected map, a walk with the fewest edges from `a` to `b` and one from `b` to `a` have equally many edges |
| Report.CheapestSwapped | AgentesInteligentes/Busqueda.py:7 | on the undirected map, a cheapest walk from `a` to `b` and a cheapest walk from `b` to `a` cost the same |
| Report.WithinDepthSwapped | AgentesInteligentes/Busqueda.py:7 | on the undirected map, a walk of at most `max_depth` edges from `a` to `b` gives one from `b` to `a` |
| Report.SwappedEnds | AgentesInteligentes/Busqueda.py:226-235 | on the undirected map, the tables for origin to destination and destination to origin agree: each search finds a path both ways or neither, with the same BFS and IDDFS steps and the same UCS cost |
| Report.RunAll | AgentesInteligentes/Busqueda.py:225-235 | the comparison faults exactly when the origin is missing and is not the destination, and otherwise returns the four rows in order with every guarantee of `Report.RowsCompare` for the given `max_depth` |
| Triangle.Compare | AgentesInteligentes/Busqueda.py:41-107 | on the triangle A-B (10), B-C (10), A-C (30), derived from the contracts alone: `bfs` returns the one-edge route A-C, `ucs` the two-edge route A-B-C at cost 20, and `iddfs` with `max_depth` 0 finds nothing from A to C (depth 0) and `[A]` from A to A |

## Left out

- The Streamlit page is not modelled: page setup, styling, selectors, slider, button, expanders, warnings and the results DataFrame (`Busqueda.py:110-253`, apart from the row building at 226-235). It is presentation only.
- The map drawing with matplotlib and `spring_layout` is not modelled. It is rendering with a floating-point layout.
- The networkx `Graph` class is replaced by the adjacency map. networkx never lists a neighbour twice, but the adjacency map may. `Neighbors` then enumerates that neighbour twice, so every search queues it twice, and `Weight` uses the first edge. The proved properties hold for such maps too.
- The default `max_depth=5` of `iddfs` (`Busqueda.py:91`) is not modelled: `Iddfs` always takes the bound, as the only call (`Busqueda.py:234`) passes it.
- The concrete list of Ecuador cities and roads (`Busqueda.py:10-36`) is fixed data and is not part of the model.
- Python's exception object is not modelled. The error raised by `G.neighbors` for a missing node becomes the `NodeNotInGraph` result.
- Running time and the copying of paths are not modelled.
- The searches require `Closed(g)` only. Undirectedness is not needed for any of their properties; it is used only to show that the table is the same in both directions (`Report.SwappedEnds`).
- Dfs: no optimality is stated, because depth-first order gives none.
- Ucs: the returned path need not be the only cheapest one. Which cheapest path is popped first follows from `PopsCheapestEarliest` and is not restated in the method's contract.
