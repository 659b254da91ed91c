# Graph editor routing engine: a verified model

This project models the computational core of a graph editor and
packet-routing simulator written in TypeScript. The model is written in Dafny.

- **Shortest paths.** Dijkstra's search with a linear-scan minimum
  (`app/algorithms/dijkstra.ts`) is proved optimal. For every node with an
  incident edge:
  - the distance it computes is the weight of a shortest path, or Infinity
    exactly when the node is unreachable;
  - the predecessor links form a shortest-path tree.

  Reading back the predecessor chain (`getPathToTargetDijkstra`) gives a
  shortest path. For an unreachable target it gives the one-node path
  `[target]`. The shortest-path button reports any one-node path as "no path".
- **Routing table** (`app/contexts/routing_table.tsx`). The table maps each
  router to its known hop counts. An update installs a count only into an
  empty cell or below the current count, so no entry ever goes up. Updates
  are idempotent and commute. The rebuild installs the one-hop view of the
  graph: 0 hops on the diagonal and 1 hop along each directed edge.
- **Packet forwarding** (`app/components/control_panel.tsx`):
  - **Random walk.** Each hop goes to a random target of the current router's
    edges, never the packet's source.
  - **Flooding.** A copy of the packet goes to every unvisited candidate.
  - **Experience-based routing.**
    - Each router learns hop counts from the path the packet took to it.
    - It then forwards the packet to the unvisited neighbours that advertise
      the fewest hops to the target.
    - When no such neighbour exists, it picks among all unvisited neighbours.
  - **Refresh.** Before an experience-based run, the refresh installs the
    one-hop view into the table through the monotonic update.
  - Random choices are an explicit stream of draws (`draws: nat -> nat`). A
    hop takes the `draws(k) % n`-th of its `n` admissible candidates.
- **Path highlighting.** For each hop of a shortest path, the edges between
  its two routers that have the least weight are marked. Several are marked
  when they tie.
- **Adjacency matrix panel**
  (`next-test/app/components/adjacency_matrix.tsx`):
  - a rebuild from the edge list, where the last edge landing in a cell wins;
  - a resize that keeps the overlapping block;
  - the handler of a single-cell edit, whose input the rendered table never shows (see "Left out").

Modules:

- `Wrappers` and `Graph` (`graph.dfy`): node ids, weights, walks and path
  weights. They also define the "targets of connected edges" that every
  forwarding policy uses as its neighbour set.
- `Dijkstra` (`dijkstra.dfy`).
- `Routing` (`routing_table.dfy`).
- `Forwarding` (`forwarding.dfy`).
- `Highlight` (`highlight.dfy`).
- `AdjacencyMatrix` (`adjacency_matrix.dfy`).

Code that changes state step by step is modelled imperatively:

- the search loop, the path read-back, the table rebuild, the refresh, the
  learning loop and the next-hop selection;
- the highlight scan and the matrix rebuild.

The routing table and the matrix panel are classes whose methods update
their fields. The per-hop decisions of random walk and flooding are
functions.

Where the source's behaviour may be unexpected, the model follows the code:

- An unreachable target yields the path `[target]`, not an empty path.
- Experience-based routing neither checks nor decrements the time-to-live.
- Random walk can pick the current router itself, because the current
  router is among the targets of its own connected edges. It then draws
  again, and when the current router is the only candidate it draws
  forever; see "Findings". Here the model departs from the code:
  `Forwarding.RandomWalkStep` is the step as written, but the whole walk
  (`Forwarding.RandomWalk`, `Forwarding.RandomWalkLaunch`) uses the
  corrected step, which drops the packet in that case.
- Dijkstra's search reads the weight of one edge `edgesTo(...)` returns,
  even when there are parallel edges; see "Left out".

## Model

| member | source | states |
|---|---|---|
| Graph.ConnectedTargetsAreSuccessors | app/components/control_panel.tsx:145-149 | apart from the router itself, a target of its connected edges is exactly a successor along a directed edge |
| Graph.SelfIsConnectedTarget | app/components/control_panel.tsx:145-149 | a router is among its own connected targets exactly when some edge enters it |
| Graph.TargetsExcept | app/components/control_panel.tsx:145-149 | the neighbour list holds exactly the connected targets other than the excluded router, without repetitions |
| Dijkstra.Eligible | app/algorithms/dijkstra.ts:13-14 | the queued nodes are exactly the nodes with an incident edge, in collection order, without repetitions |
| Dijkstra.Initialize | app/algorithms/dijkstra.ts:13-21 | every node with an incident edge is queued at Infinity with no predecessor; the source is at 0 |
| Dijkstra.SelectMin | app/algorithms/dijkstra.ts:24-40 | the scan returns nothing exactly when every queued node is at Infinity, else the first queued node of least finite distance |
| Dijkstra.Relax | app/algorithms/dijkstra.ts:44-70 | a queued node with an edge from the settled node takes distance d(u)+w and predecessor u exactly when that is strictly shorter; nothing else changes |
| Dijkstra.SelectedIsShortest | app/algorithms/dijkstra.ts:24-42 | the node the scan settles is already at the weight of a shortest path |
| Dijkstra.InitialSearchInvariant | app/algorithms/dijkstra.ts:13-21 | the initial state satisfies the loop invariant (settled nodes are shortest, the frontier is relaxed, the predecessors are consistent) |
| Dijkstra.SettleStep | app/algorithms/dijkstra.ts:23-70 | settling the selected node and relaxing its edges preserves the loop invariant |
| Dijkstra.Finish | app/algorithms/dijkstra.ts:38-40 | when only Infinity is left in the queue, every node at Infinity is unreachable and the result is a shortest-path tree |
| Dijkstra.Dijkstra | app/algorithms/dijkstra.ts:8-74 | every distance is the weight of a shortest path, or Infinity exactly when unreachable; every predecessor link follows an edge and adds its weight |
| Dijkstra.PathTo | app/algorithms/dijkstra.ts:76-94 | the path ends at the target, each node is the predecessor of the next, and it starts at the source or at a node without a predecessor |
| Dijkstra.DistanceRanksPredecessors | app/algorithms/dijkstra.ts:84-87 | in Dijkstra's result a predecessor has a strictly smaller distance, so the read-back loop ends |
| Dijkstra.ChainIsPath | app/algorithms/dijkstra.ts:76-94 | the predecessor chain of a finite-distance node is a path from the source whose weight is that distance |
| Dijkstra.ReachableHasDistance | app/algorithms/dijkstra.ts:8-74 | every node reachable from the source has a finite distance |
| Dijkstra.PredecessorPathIsShortest | app/algorithms/dijkstra.ts:76-94 | a reachable target reads back as a shortest path; an unreachable one as `[target]` |
| Dijkstra.ShortestPath | app/components/control_panel.tsx:514-530 | the distance is finite exactly when the target is reachable, and the path is then a shortest path; the path has length other than 1 exactly when the target is reachable and differs from the source |
| Dijkstra.SimpleGraphPaths | app/components/control_panel.tsx:394-405 | in the simple sample graph the only path from n1 to n3 is n1, n2, n3 |
| Dijkstra.SimpleGraphFromN1 | app/components/control_panel.tsx:394-405 | Dijkstra from n1 on the sample graph gives n3 distance 8, predecessors n2 and n1, and path n1, n2, n3 |
| Routing.MinMerge | app/contexts/routing_table.tsx:59-63 | the merged count is unknown only when both are, and is otherwise the smaller of the two |
| Routing.MinMergeAssociative | app/contexts/routing_table.tsx:59-63 | merging counts in either grouping gives the same result |
| Routing.Update | app/contexts/routing_table.tsx:55-68 | the updated cell becomes the minimum of its old count and the new one; every other cell is unchanged; an update that does not improve leaves the table as it was |
| Routing.UpdateIdempotent | app/contexts/routing_table.tsx:55-68 | applying the same update twice is applying it once |
| Routing.UpdatesCommute | app/contexts/routing_table.tsx:55-68 | any two updates commute |
| Routing.ApplyAllLowers | app/contexts/routing_table.tsx:55-68 | after any sequence of updates no entry has gone up or disappeared, and each requested cell is at most its requested count |
| Routing.ApplyAllFrame | app/contexts/routing_table.tsx:55-68 | a cell no update names keeps its value |
| Routing.ApplyAllOnce | app/contexts/routing_table.tsx:55-68 | a cell exactly one update names ends as the minimum of its old count and the requested one |
| Routing.SelfRouteKept | app/contexts/routing_table.tsx:59-63 | a self-route of 0 survives every update |
| Routing.OneHopView | app/contexts/routing_table.tsx:36-52 | the rebuilt table has one row per node holding 0 for the node itself, 1 for each other connected target, and nothing else |
| Routing.OneHopMeaning | app/contexts/routing_table.tsx:40-48 | a rebuilt entry is 0 exactly on the diagonal and 1 exactly along a directed edge leaving the router |
| Routing.RoutingTable.constructor | app/contexts/routing_table.tsx:18-29 | the initial table: n1 knows itself at 0 and n2 at 1, n2 knows itself at 0 |
| Routing.RoutingTable.UpdateRoute | app/contexts/routing_table.tsx:55-68 | the stored table becomes the monotonic update of the old one |
| Routing.RoutingTable.Rebuild | app/contexts/routing_table.tsx:36-52 | the stored table becomes the one-hop view of the graph |
| Forwarding.NeighbourIsSuccessor | app/components/control_panel.tsx:145-149 | a candidate other than the current router is a node at the end of an edge from it, and is not the excluded router |
| Forwarding.RandomWalkStep | app/components/control_panel.tsx:140-159 | the packet stops on arrival, at time-to-live 0, or with no candidate; otherwise it hops to a candidate other than the current router |
| Forwarding.RandomWalkStepFixed | app/components/control_panel.tsx:140-159 | as the step above, but the packet hops exactly when a candidate other than the current router exists, and is dropped otherwise |
| Forwarding.RandomWalkStepFixedAgrees | app/components/control_panel.tsx:140-159 | wherever the written step is defined, the corrected step takes the same decision |
| Forwarding.RetryLoopSpins | app/components/control_panel.tsx:154-157 | on the graph n1→n2, n3→n2, a walk from n1 to n3 reaches n2, where the only candidate is n2 itself and the retry loop cannot end |
| Forwarding.HopThenWalk | app/components/control_panel.tsx:160-168 | a hop to a successor other than the source, followed by a valid walk from there, is a valid walk |
| Forwarding.RandomWalk | app/components/control_panel.tsx:140-171 | the hops follow edges, never enter the source, stop at the first arrival and number at most the time-to-live; the walk expired exactly when it used that many hops without arriving, and it is dropped only at a router with no candidate other than itself; each hop is the corrected step, which drops the packet where the written retry loop would spin |
| Forwarding.RandomWalkLaunch | app/components/control_panel.tsx:663-681 | a walk launched from the source with time-to-live 5 follows edges, never returns to the source, takes at most 5 hops, arrives exactly when it ends at the target, expires exactly when it took 5 hops without arriving, and is dropped only where no candidate other than the last router is left |
| Forwarding.Flood | app/components/control_panel.tsx:173-212 | there is at least one branch, and every branch follows edges, enters no router twice or one already visited, avoids the source, stops at the first arrival and takes at most time-to-live hops, expiring exactly when it took that many without arriving; a branch is dropped only where every candidate has been visited |
| Forwarding.FloodingLaunch | app/components/control_panel.tsx:682-700 | a flood launched from the source with time-to-live 5 has at least one branch, and every branch follows edges, enters no router twice, never returns to the source, takes at most 5 hops, arrives exactly when it ends at the target, expires exactly when it took 5 hops without arriving, and is dropped only where every candidate lies on the branch |
| Forwarding.PrefixedBranchOk | app/components/control_panel.tsx:188-206 | a branch of a copy sent to an unvisited successor, with that hop in front, is a branch of the flood |
| Forwarding.PrefixAllOk | app/components/control_panel.tsx:188-206 | the branches of the copy sent to an unvisited successor, each with that hop in front, are branches of the flood |
| Forwarding.FloodBranches | app/components/control_panel.tsx:188-209 | every branch starts at an unvisited candidate, and every unvisited candidate starts a branch |
| Forwarding.RefreshRouter | app/components/control_panel.tsx:125-134 | one router's row becomes the entry-wise minimum of its old row and its one-hop row; other rows are unchanged |
| Forwarding.Refresh | app/components/control_panel.tsx:122-136 | the table becomes the entry-wise minimum of the old table and the rebuilt one-hop view |
| Forwarding.Visit | app/components/control_panel.tsx:221 | the current router is recorded as visited: appended in insertion order when new, and the list left unchanged when it is already there; no repetitions are introduced |
| Forwarding.LearnRequests | app/components/control_panel.tsx:223-229 | one update per earlier router on the path: the router at position i gets the path length minus i minus 1 hops |
| Forwarding.Learn | app/components/control_panel.tsx:223-232 | the table becomes the old one with those updates applied in order |
| Forwarding.LearnedEntry | app/components/control_panel.tsx:223-232 | along a path without repetitions, the router's entry to the router i positions back becomes the minimum of what it knew and the distance back along the path |
| Forwarding.LearnedFrame | app/components/control_panel.tsx:223-232 | learning leaves every entry the path does not name as it was |
| Forwarding.LearnedEntries | app/components/control_panel.tsx:223-232 | along a path without repetitions each learned entry is the minimum of what was known and the distance back along the path; nothing else changes |
| Forwarding.Least | app/components/control_panel.tsx:240-258 | the least count advertised by an unvisited neighbour, which is attained by one of them, or nothing when none advertises one |
| Forwarding.Advertising | app/components/control_panel.tsx:240-258 | the neighbours kept are exactly those that advertise the given count |
| Forwarding.AdvertisingNone | app/components/control_panel.tsx:254-258 | when nobody advertises a count, nobody is kept for it |
| Forwarding.Unvisited | app/components/control_panel.tsx:269-275 | the fallback list is exactly the unvisited neighbours |
| Forwarding.NextHops | app/components/control_panel.tsx:234-278 | the candidates are unvisited neighbours, and there are none exactly when every neighbour has been visited |
| Forwarding.LeastAdvertiserIsLeast | app/components/control_panel.tsx:256-262 | once a least count exists, the neighbours that no other neighbour beats are exactly those that advertise it |
| Forwarding.NextHopsWhenAdvertised | app/components/control_panel.tsx:234-263 | if some unvisited neighbour knows the target, a router is a candidate exactly when it is a neighbour that knows the target with a count no other neighbour beats |
| Forwarding.NextHopsWhenNoneAdvertised | app/components/control_panel.tsx:269-275 | if no unvisited neighbour knows the target, the candidates are exactly the unvisited neighbours |
| Forwarding.ScanNeighbours | app/components/control_panel.tsx:234-263 | the running-minimum loop ends with the least advertised count and exactly the neighbours that advertise it, in order, or with nothing when none advertises one |
| Forwarding.SelectNextHops | app/components/control_panel.tsx:234-275 | the scan and its fallback to every unvisited neighbour compute exactly the candidates defined above |
| Forwarding.CandidateIsFreshSuccessor | app/components/control_panel.tsx:234-275 | a candidate lies at the end of an edge from the current router and has not been visited |
| Forwarding.ExperienceStep | app/components/control_panel.tsx:214-293 | a step stops exactly on arrival, or is dropped exactly when there is no candidate; it never stops for the time-to-live; a hop goes to a candidate; the table becomes the old one with the learned updates |
| Forwarding.UnvisitedShrinks | app/components/control_panel.tsx:221 | visiting a new router leaves one router fewer unvisited |
| Forwarding.HopThenRoute | app/components/control_panel.tsx:280-290 | a hop to an unvisited successor followed by a valid route from there is a valid route |
| Forwarding.ExperienceRun | app/components/control_panel.tsx:214-293 | the route follows edges, enters no router twice, stops at the first arrival, never for the time-to-live, is shorter than the number of unvisited routers, and no table entry goes up |
| Forwarding.ExperienceLaunch | app/components/control_panel.tsx:702-722 | after the refresh the packet's route from the source is a walk without repetitions that ends before the routers run out, and the outcome is arrival exactly when it ends at the target |
| Highlight.MinEdgeExists | app/components/control_panel.tsx:55-62 | between two routers joined by an edge some edge has the least weight |
| Highlight.MinWeightEdges | app/components/control_panel.tsx:55-68 | the minimum is unset exactly when no edge joins the routers, and is otherwise attained and a lower bound; an edge is marked exactly when it joins them with the least weight |
| Highlight.HighlightPath | app/components/control_panel.tsx:44-76 | exactly the routers of the path are highlighted, and an edge is marked exactly when it is a least-weight edge of some hop |
| AdjacencyMatrix.ZeroMatrix | next-test/app/components/adjacency_matrix.tsx:13-14 | an n-by-n matrix of zeros |
| AdjacencyMatrix.IndexOf | next-test/app/components/adjacency_matrix.tsx:26-27 | -1 exactly when the id is absent, otherwise the first position holding it |
| AdjacencyMatrix.LastEdgeWins | next-test/app/components/adjacency_matrix.tsx:25-30 | a cell holds the weight of the last edge landing in it |
| AdjacencyMatrix.UntouchedCellIsZero | next-test/app/components/adjacency_matrix.tsx:24-31 | a cell no edge lands in holds 0, so edges with an unknown end are skipped |
| AdjacencyMatrix.BuildMatrix | next-test/app/components/adjacency_matrix.tsx:24-31 | the rebuilt matrix is square of the node count and each cell holds the value the edge list determines |
| AdjacencyMatrix.ResizeMatrix | next-test/app/components/adjacency_matrix.tsx:36-41 | the resized matrix is square of the new size, keeping the old cells in bounds and 0 elsewhere |
| AdjacencyMatrix.ResizeSameSize | next-test/app/components/adjacency_matrix.tsx:36-41 | resizing to the current size changes nothing |
| AdjacencyMatrix.ResizeRoundTrip | next-test/app/components/adjacency_matrix.tsx:36-41 | growing and then shrinking back restores the matrix |
| AdjacencyMatrix.ResizeThenShrink | next-test/app/components/adjacency_matrix.tsx:36-41 | shrinking after a resize equals resizing straight to the smaller size |
| AdjacencyMatrix.MatrixPanel.constructor | next-test/app/components/adjacency_matrix.tsx:13-14 | the panel starts with as many rows as nodes, all zero |
| AdjacencyMatrix.MatrixPanel.Resize | next-test/app/components/adjacency_matrix.tsx:36-44 | size and matrix become the new size and the resized matrix |
| AdjacencyMatrix.MatrixPanel.OnGraphChange | next-test/app/components/adjacency_matrix.tsx:16-33 | after a graph change the size is the node count and each cell holds the value the edge list determines |
| AdjacencyMatrix.MatrixPanel.ResizeFromInput | next-test/app/components/adjacency_matrix.tsx:16-44 | typing a new size (the input at line 84) does not last: the effect runs again, and the size ends at the node count with every cell rebuilt from the edges; typing the current size keeps size and cells |
| AdjacencyMatrix.MatrixPanel.EditCell | next-test/app/components/adjacency_matrix.tsx:56-61 | the edited cell holds the parsed number, or 0, and no other cell changes |

## Left out

- The Floyd–Warshall algorithm and all files other than dijkstra.ts, routing_table.tsx, control_panel.tsx and adjacency_matrix.tsx are not part of this model.
- Rendering, animation and timers are left out: `animatePacket`, the one-second `setTimeout` between highlighted hops, alerts and console logging. They do not change any computed result.
- The early returns when no graph canvas is mounted (`cyInstanceRef.current` null) are left out, because the model always has a graph.
- `Math.random` becomes an explicit stream of draws. The random-walk retry loop becomes a single uniform choice among the candidates other than the current router, which has the same distribution whenever the loop ends. Probabilities are not modelled.
- Forwarding.RandomWalk: the whole walk, and `Forwarding.RandomWalkLaunch`, use the corrected step `RandomWalkStepFixed`. Where the written retry loop never ends (the current router is its only candidate) the model drops the packet. This happens on the sample graph too: a walk from n2 to n1 reaches n3, whose only candidate is n3 itself.
- Forwarding.Flood: the concurrent branches (`Promise.all`) are modelled one after another, in candidate order. A branch that finds every candidate visited is recorded as a drop.
- Forwarding.ExperienceStep: the source selects from the `routingTable` its callback captured. That outer map stays the same for the whole run, but its rows are the inner maps the queued updates change in place (routing_table.tsx:57-61). Once React has run those updates, at the latest during the first `await animatePacket`, the captured rows show the refresh and the earlier learning. The model reads the table as it stands when the step begins. The two can differ only in the first hop's selection, which may still see rows from before the refresh, and in a row the updates create for a router that had none, which the captured map never sees. Learning writes only rows of routers already visited, and selection reads only rows of unvisited neighbours, so learning does not affect selection either way. After a rebuild the table already holds the one-hop view, and the refresh usually changes nothing.
- Routing.RoutingTable.UpdateRoute: the source copies the outer map but writes into the existing inner map of the router (routing_table.tsx:58,62), so earlier snapshots see the change too. The model's rows are values, so this aliasing is not captured.
- AdjacencyMatrix.MatrixPanel.EditCell: the cell handler is modelled as written (adjacency_matrix.tsx:56-61), but it belongs to the column's `cell` renderer, and the table body prints `cell.getValue()` instead of rendering that cell (adjacency_matrix.tsx:124). The input is therefore never shown, and no edit takes place in the running panel.
- AdjacencyMatrix.MatrixPanel.EditCell: the source copies the outer array but writes into the shared row array, so the previous matrix changes too. The model replaces the row as a value.
- React state batching is not modelled: an update, a refresh or a resize takes effect at once. The resize the effect performs before its rebuild is overwritten by that rebuild, and the model keeps only the final matrix.
- Dijkstra.Dijkstra: the graph holds one weight per ordered pair of nodes, so parallel edges are not represented in the search. The source reads the weight of whichever edge `edgesTo(...).data('weight')` returns. The edge lists of `Highlight` and `AdjacencyMatrix` keep parallel edges.
- Dijkstra.Dijkstra: weights are whole numbers of at least 1, as the editor's weight slider allows. Zero and negative weights are not covered.
- Node identity is id equality. The source compares node objects in three places: Dijkstra's search, and the arrival tests of random walk and flooding (`packet.current === packet.target`, control_panel.tsx:142,175). Experience-based routing compares ids (control_panel.tsx:218). Ids are assumed unique (`Valid`), so the two agree.
- Cytoscape collections are modelled by `Graph.Neighbours`: the targets of a router's connected edges, in node-collection order, without the excluded router.
- AdjacencyMatrix.MatrixPanel.Resize: this is `handleResize` alone, which leaves the new size and matrix in place. In the source a resize typed into the size input changes `size`, which re-runs the effect, and that resizes back to the node count and rebuilds the matrix. `MatrixPanel.ResizeFromInput` models that sequence. A typed value that is negative or not a number (`parseInt` of an empty field is NaN; `min={1}` does not stop it) cannot be stored in the `nat` size, so the model keeps the old size until the effect restores the node count. The final state is the same.
- AdjacencyMatrix.CellInput: `parseInt` on the input text is a parameter of type `Option<int>`, so text parsing is not modelled.
- The packet id counter and the launch buttons' two-node selection check are not modelled. Forwarding.RandomWalkLaunch and Forwarding.FloodingLaunch fix the time-to-live at 5. Forwarding.ExperienceLaunch uses 10, which the source never reads.

## Findings

| source | as written | input that shows it | evidently intended | confidence | as-written member | corrected member |
|---|---|---|---|---|---|---|
| app/components/control_panel.tsx:154-157 | random walk draws candidates until one differs from the current router; the current router is itself a candidate when an edge enters it | graph n1→n2, n3→n2, packet from n1 to n3: the walk hops to n2, where the only candidate is n2, and the loop never ends | drop the packet when no candidate other than the current router exists | not executed | Forwarding.RetryLoopSpins | Forwarding.RandomWalkStepFixed |

