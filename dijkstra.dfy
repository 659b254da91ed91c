/**
  Single-source shortest paths by label setting with a linear-scan minimum
  (app/algorithms/dijkstra.ts), and the reconstruction of a path from the
  predecessor map. Distances are `Option<nat>`, `None` standing for Infinity.
  Only nodes with an incident edge take part; relaxation follows directed
  edges out of the node just settled.
 */
module Dijkstra {
  import opened Wrappers
  import opened Graph

  type Dist = Option<nat>

  /** `d` improves on the tentative distance `current` (every number beats Infinity). */
  predicate Shorter(d: nat, current: Dist) {
    current.None? || d < current.value
  }

  function Pred(previous: map<NodeId, Option<NodeId>>, v: NodeId): Option<NodeId> {
    if v in previous then previous[v] else None
  }

  /** The nodes that take part in the search, in node-collection order. */
  function Eligible(g: Graph, ns: seq<NodeId>): (r: seq<NodeId>)
    ensures forall v :: v in r <==> v in ns && HasIncidentEdge(g, v)
    ensures Distinct(ns) ==> Distinct(r)
  {
    if ns == [] then []
    else if HasIncidentEdge(g, ns[0]) then [ns[0]] + Eligible(g, ns[1..])
    else Eligible(g, ns[1..])
  }

  ghost function EligibleSet(g: Graph): set<NodeId> {
    set v | v in g.nodes && HasIncidentEdge(g, v)
  }

  // ---------------------------------------------------------------------------
  // What the result means
  // ---------------------------------------------------------------------------

  /** No path from `s` to `v` weighs less than `d`. */
  ghost predicate NoShorterPath(g: Graph, s: NodeId, v: NodeId, d: nat) {
    forall p :: IsPath(g, p, s, v) ==> d <= PathWeight(g, p)
  }

  /** Every predecessor link follows an edge and adds exactly its weight, and
      every node other than the source with a finite distance has a predecessor. */
  ghost predicate PredecessorsConsistent(g: Graph, source: NodeId,
                                         distance: map<NodeId, Dist>, previous: map<NodeId, Option<NodeId>>)
  {
    && (forall v :: v in previous && previous[v].Some? ==>
          var p := previous[v].value;
          && (p, v) in g.weight
          && p in distance && v in distance
          && distance[p].Some? && distance[v].Some?
          && distance[v].value == distance[p].value + g.weight[(p, v)])
    && (forall v :: v in distance && distance[v].Some? && v != source ==>
          v in previous && previous[v].Some?)
  }

  /** The outcome of the search: the distance of every node with an incident edge
      (and of the source) is the weight of a shortest path, or Infinity exactly
      when there is no path; the predecessors form a shortest-path tree. */
  ghost predicate ShortestPathTree(g: Graph, source: NodeId,
                                   distance: map<NodeId, Dist>, previous: map<NodeId, Option<NodeId>>)
  {
    && distance.Keys == EligibleSet(g) + {source}
    && previous.Keys == EligibleSet(g)
    && distance[source] == Some(0)
    && PredecessorsConsistent(g, source, distance, previous)
    && (forall v :: v in distance && distance[v].Some? ==> NoShorterPath(g, source, v, distance[v].value))
    && (forall v :: v in distance && distance[v].None? ==> !Reachable(g, source, v))
  }

  // ---------------------------------------------------------------------------
  // The algorithm
  // ---------------------------------------------------------------------------

  /** Every node with an incident edge gets distance Infinity, no predecessor and
      a place in the queue; then the source gets distance 0, queued or not. */
  method Initialize(g: Graph, source: NodeId)
    returns (distance: map<NodeId, Dist>, previous: map<NodeId, Option<NodeId>>, queue: seq<NodeId>)
    requires Distinct(g.nodes)
    ensures queue == Eligible(g, g.nodes) && Distinct(queue)
    ensures distance.Keys == Elems(queue) + {source}
    ensures forall v :: v in distance ==> distance[v] == if v == source then Some(0) else None
    ensures previous.Keys == Elems(queue)
    ensures forall v :: v in previous ==> previous[v] == None
  {
    distance, previous, queue := map[], map[], [];
    for i := 0 to |g.nodes|
      invariant queue == Eligible(g, g.nodes[..i])
      invariant forall v :: v in distance <==> v in queue
      invariant forall v :: v in previous <==> v in queue
      invariant forall v :: v in distance ==> distance[v] == None
      invariant forall v :: v in previous ==> previous[v] == None
    {
      var node := g.nodes[i];
      EligibleStep(g, g.nodes, i);
      if HasIncidentEdge(g, node) {
        distance := distance[node := None];
        previous := previous[node := None];
        queue := queue + [node];
      }
    }
    assert g.nodes[..|g.nodes|] == g.nodes;
    distance := distance[source := Some(0)];
    assert distance.Keys == Elems(queue) + {source};
    assert previous.Keys == Elems(queue);
  }

  /** One more node of a prefix is queued exactly when it has an incident edge. */
  lemma EligibleStep(g: Graph, ns: seq<NodeId>, i: nat)
    requires i < |ns|
    ensures Eligible(g, ns[..i + 1]) == Eligible(g, ns[..i]) + (if HasIncidentEdge(g, ns[i]) then [ns[i]] else [])
  {
    assert ns[..i + 1] == ns[..i] + [ns[i]];
    EligibleAppend(g, ns[..i], ns[i]);
  }

  lemma {:induction false} EligibleAppend(g: Graph, ns: seq<NodeId>, v: NodeId)
    ensures Eligible(g, ns + [v]) == Eligible(g, ns) + (if HasIncidentEdge(g, v) then [v] else [])
  {
    if ns == [] {
      assert Eligible(g, [v][1..]) == [];
    } else {
      assert (ns + [v])[1..] == ns[1..] + [v];
      EligibleAppend(g, ns[1..], v);
    }
  }

  /** The queue entry picked by the scan: the first one, in queue order, whose
      finite distance is strictly smaller than every distance seen before it. */
  ghost predicate IsFirstMinimum(queue: seq<NodeId>, distance: map<NodeId, Dist>, k: nat)
    requires forall v :: v in queue ==> v in distance
  {
    && k < |queue|
    && distance[queue[k]].Some?
    && (forall i :: 0 <= i < |queue| && distance[queue[i]].Some? ==>
          distance[queue[k]].value <= distance[queue[i]].value)
    && (forall i :: 0 <= i < k ==>
          distance[queue[i]].None? || distance[queue[k]].value < distance[queue[i]].value)
  }

  /** The linear scan for the queued node of least finite distance; `None` when
      every queued node is at Infinity. */
  method SelectMin(queue: seq<NodeId>, distance: map<NodeId, Dist>) returns (sel: Option<nat>)
    requires forall v :: v in queue ==> v in distance
    ensures sel.None? <==> forall v :: v in queue ==> distance[v].None?
    ensures sel.Some? ==> IsFirstMinimum(queue, distance, sel.value)
  {
    sel := None;
    var minDistance: Dist := None;
    for i := 0 to |queue|
      invariant sel.None? <==> minDistance.None?
      invariant sel.None? ==> forall j :: 0 <= j < i ==> distance[queue[j]].None?
      invariant sel.Some? ==>
        && sel.value < i
        && minDistance == distance[queue[sel.value]]
        && (forall j :: 0 <= j < i && distance[queue[j]].Some? ==> minDistance.value <= distance[queue[j]].value)
        && (forall j :: 0 <= j < sel.value ==>
              distance[queue[j]].None? || minDistance.value < distance[queue[j]].value)
    {
      var distanceToNode := distance[queue[i]];
      if distanceToNode.Some? && Shorter(distanceToNode.value, minDistance) {
        minDistance := distanceToNode;
        sel := Some(i);
      }
    }
    if sel.None? {
      forall v | v in queue ensures distance[v].None? {
        var j :| 0 <= j < |queue| && queue[j] == v;
      }
    }
  }

  /** Relaxation out of `u`: a queued node `v` with an edge from `u` takes distance
      d(u) + w(u, v) and predecessor `u` exactly when that is strictly shorter;
      no other distance or predecessor changes. */
  ghost predicate RelaxedFrom(g: Graph, u: NodeId, queue: seq<NodeId>,
                              distance: map<NodeId, Dist>, previous: map<NodeId, Option<NodeId>>,
                              distance': map<NodeId, Dist>, previous': map<NodeId, Option<NodeId>>)
    requires u in distance && distance[u].Some?
  {
    && distance'.Keys == distance.Keys && previous'.Keys == previous.Keys
    && forall v :: v in distance ==>
      if v in queue && (u, v) in g.weight && Shorter(distance[u].value + g.weight[(u, v)], distance[v])
      then distance'[v] == Some(distance[u].value + g.weight[(u, v)]) && v in previous' && previous'[v] == Some(u)
      else distance'[v] == distance[v] && (v in previous ==> previous'[v] == previous[v])
  }

  /** The relaxation loop over the neighbours of the node just settled. */
  method Relax(g: Graph, u: NodeId, queue: seq<NodeId>,
               distance: map<NodeId, Dist>, previous: map<NodeId, Option<NodeId>>)
    returns (distance': map<NodeId, Dist>, previous': map<NodeId, Option<NodeId>>)
    requires u in distance && distance[u].Some? && u !in queue
    requires forall v :: v in queue ==> v in distance && v in previous
    requires Distinct(queue)
    ensures RelaxedFrom(g, u, queue, distance, previous, distance', previous')
  {
    distance', previous' := distance, previous;
    var du := distance[u].value;
    for i := 0 to |queue|
      invariant distance'.Keys == distance.Keys && previous'.Keys == previous.Keys
      invariant forall v :: v in distance ==>
        if v in queue[..i] && (u, v) in g.weight && Shorter(du + g.weight[(u, v)], distance[v])
        then distance'[v] == Some(du + g.weight[(u, v)]) && previous'[v] == Some(u)
        else distance'[v] == distance[v] && (v in previous ==> previous'[v] == previous[v])
    {
      var neighbor := queue[i];
      assert queue[..i + 1] == queue[..i] + [neighbor];
      assert neighbor !in queue[..i];
      if (u, neighbor) in g.weight {
        var alternativeDistance := du + g.weight[(u, neighbor)];
        if Shorter(alternativeDistance, distance'[neighbor]) {
          distance' := distance'[neighbor := Some(alternativeDistance)];
          previous' := previous'[neighbor := Some(u)];
        }
      }
    }
    assert queue[..|queue|] == queue;
  }

  // Loop invariants of the main loop, named so that the lemmas below can share them.

  /** Every settled node (known, out of the queue) has a finite distance that no path beats. */
  ghost predicate SettledAreShortest(g: Graph, source: NodeId, distance: map<NodeId, Dist>, queue: seq<NodeId>) {
    forall u :: u in distance && u !in queue ==>
      distance[u].Some? && NoShorterPath(g, source, u, distance[u].value)
  }

  /** Every edge out of a settled node into the queue has been relaxed. */
  ghost predicate FrontierRelaxed(g: Graph, distance: map<NodeId, Dist>, queue: seq<NodeId>) {
    forall u, v :: (u, v) in g.weight && u in distance && u !in queue && v in queue ==>
      && distance[u].Some? && v in distance && distance[v].Some?
      && distance[v].value <= distance[u].value + g.weight[(u, v)]
  }

  ghost predicate SearchInvariant(g: Graph, source: NodeId, distance: map<NodeId, Dist>,
                                  previous: map<NodeId, Option<NodeId>>, queue: seq<NodeId>)
  {
    && Valid(g)
    && Distinct(queue)
    && (forall v :: v in queue ==> v in EligibleSet(g))
    && distance.Keys == EligibleSet(g) + {source}
    && previous.Keys == EligibleSet(g)
    && distance[source] == Some(0)
    && PredecessorsConsistent(g, source, distance, previous)
    && (forall v :: v in previous && previous[v].Some? ==> previous[v].value !in queue)
    && FrontierRelaxed(g, distance, queue)
    && SettledAreShortest(g, source, distance, queue)
  }

  /** Any path from the source into the queue passes a queued node whose
      tentative distance is finite and at most the weight of the path. */
  lemma Frontier(g: Graph, source: NodeId, distance: map<NodeId, Dist>,
                 previous: map<NodeId, Option<NodeId>>, queue: seq<NodeId>,
                 p: seq<NodeId>, x: NodeId)
    requires SearchInvariant(g, source, distance, previous, queue)
    requires IsPath(g, p, source, x) && x in queue
    ensures exists k :: k in queue && distance[k].Some? && distance[k].value <= PathWeight(g, p)
  {
    forall u, v | (u, v) in g.weight
      ensures u in distance
    {
      assert HasIncidentEdge(g, u);
    }
    FrontierReach(g, source, distance, queue, p, x);
  }

  /** The induction behind `Frontier`, from only the facts it uses: the frontier
      is relaxed, settled nodes are at their shortest distance, and every queued
      node and every edge's source has a tentative distance. */
  lemma {:induction false} FrontierReach(g: Graph, source: NodeId, distance: map<NodeId, Dist>,
                                         queue: seq<NodeId>, p: seq<NodeId>, x: NodeId)
    requires FrontierRelaxed(g, distance, queue) && SettledAreShortest(g, source, distance, queue)
    requires source in distance && distance[source] == Some(0)
    requires forall v :: v in queue ==> v in distance
    requires forall u, v :: (u, v) in g.weight ==> u in distance
    requires IsPath(g, p, source, x) && x in queue
    ensures exists k :: k in queue && distance[k].Some? && distance[k].value <= PathWeight(g, p)
    decreases |p|
  {
    if |p| == 1 {
      assert distance[x] == Some(0) && 0 <= PathWeight(g, p);
    } else {
      var y := p[|p| - 2];
      var q := p[..|p| - 1];
      PathEndHasEdge(g, p, source, x);
      PrefixWeighsLess(g, p, |p| - 1);
      assert IsPath(g, q, source, y);
      assert PathWeight(g, q) <= PathWeight(g, p);
      if y !in queue {
        SettledNeighbourBound(g, source, distance, queue, q, y, x);
        assert q + [x] == p;
        assert x in queue && distance[x].Some? && distance[x].value <= PathWeight(g, p);
      } else {
        FrontierReach(g, source, distance, queue, q, y);
        var k :| k in queue && distance[k].Some? && distance[k].value <= PathWeight(g, q);
        assert distance[k].value <= PathWeight(g, p);
      }
    }
  }

  /** A path that reaches a queued node `x` straight from a settled node `y`
      weighs at least the tentative distance of `x`. */
  lemma SettledNeighbourBound(g: Graph, source: NodeId, distance: map<NodeId, Dist>, queue: seq<NodeId>,
                              q: seq<NodeId>, y: NodeId, x: NodeId)
    requires FrontierRelaxed(g, distance, queue) && SettledAreShortest(g, source, distance, queue)
    requires IsPath(g, q, source, y) && y in distance && y !in queue && x in queue && (y, x) in g.weight
    ensures IsWalk(g, q + [x])
    ensures x in distance && distance[x].Some? && distance[x].value <= PathWeight(g, q + [x])
  {
    var p := q + [x];
    assert p[..|p| - 1] == q;
    assert IsWalk(g, p) by {
      forall i | 0 <= i < |p| - 1
        ensures (p[i], p[i + 1]) in g.weight
      {
        if i < |p| - 2 {
          assert p[i] == q[i] && p[i + 1] == q[i + 1];
        }
      }
    }
    assert distance[y].value <= PathWeight(g, q);
  }

  /** The node selected by the scan is already at its shortest distance. */
  lemma SelectedIsShortest(g: Graph, source: NodeId, distance: map<NodeId, Dist>,
                           previous: map<NodeId, Option<NodeId>>, queue: seq<NodeId>, k: nat)
    requires SearchInvariant(g, source, distance, previous, queue)
    requires IsFirstMinimum(queue, distance, k)
    ensures NoShorterPath(g, source, queue[k], distance[queue[k]].value)
  {
    var u := queue[k];
    forall p | IsPath(g, p, source, u) ensures distance[u].value <= PathWeight(g, p) {
      Frontier(g, source, distance, previous, queue, p, u);
      var m :| m in queue && distance[m].Some? && distance[m].value <= PathWeight(g, p);
      var i :| 0 <= i < |queue| && queue[i] == m;
    }
  }

  /** Removing the entry at `k` from a queue without duplicates. */
  lemma RemoveFromQueue(queue: seq<NodeId>, k: nat)
    requires Distinct(queue) && k < |queue|
    ensures forall v :: v in queue[..k] + queue[k + 1..] <==> v in queue && v != queue[k]
    ensures Distinct(queue[..k] + queue[k + 1..])
  {
    var queue' := queue[..k] + queue[k + 1..];
    forall v ensures v in queue' <==> v in queue && v != queue[k] {
      if v in queue && v != queue[k] {
        var i :| 0 <= i < |queue| && queue[i] == v;
        if i < k { assert queue'[i] == v; } else { assert queue'[i - 1] == v; }
      }
      if v in queue' {
        var i :| 0 <= i < |queue'| && queue'[i] == v;
        var i' := if i < k then i else i + 1;
        assert queue[i'] == v;
      }
    }
    forall i, j | 0 <= i < j < |queue'| ensures queue'[i] != queue'[j] {
      var i' := if i < k then i else i + 1;
      var j' := if j < k then j else j + 1;
      assert queue'[i] == queue[i'] && queue'[j] == queue[j'];
    }
  }

  /** After settling `u` and relaxing out of it, the source stays at 0 and the
      predecessor links stay consistent and point at settled nodes. */
  lemma SettleKeepsPredecessors(g: Graph, source: NodeId,
                                distance: map<NodeId, Dist>, previous: map<NodeId, Option<NodeId>>, queue: seq<NodeId>,
                                u: NodeId, queue': seq<NodeId>,
                                distance': map<NodeId, Dist>, previous': map<NodeId, Option<NodeId>>)
    requires source in distance && distance[source] == Some(0)
    requires PredecessorsConsistent(g, source, distance, previous)
    requires forall v :: v in previous ==> v in distance
    requires forall v :: v in previous && previous[v].Some? ==> previous[v].value !in queue
    requires u in queue && u in distance && distance[u].Some?
    requires forall v :: v in queue' <==> v in queue && v != u
    requires RelaxedFrom(g, u, queue', distance, previous, distance', previous')
    ensures distance'[source] == Some(0)
    ensures PredecessorsConsistent(g, source, distance', previous')
    ensures forall v :: v in previous' && previous'[v].Some? ==> previous'[v].value !in queue'
  {
    assert distance'[u] == distance[u];
    forall v | v in previous' && previous'[v].Some?
      ensures var p := previous'[v].value;
        && (p, v) in g.weight && p in distance' && v in distance'
        && distance'[p].Some? && distance'[v].Some?
        && distance'[v].value == distance'[p].value + g.weight[(p, v)]
        && p !in queue'
    {
      if previous'[v] != previous[v] {
        assert previous'[v] == Some(u);
      } else {
        var p := previous[v].value;
        assert p !in queue;
        assert distance'[p] == distance[p];
      }
    }
    forall v | v in distance' && distance'[v].Some? && v != source
      ensures v in previous' && previous'[v].Some?
    {
      if distance'[v] == distance[v] {
        assert v in previous && previous[v].Some?;
      }
    }
  }

  /** After settling `u` and relaxing out of it, every edge from a settled node into the queue is relaxed. */
  lemma SettleKeepsFrontier(g: Graph, distance: map<NodeId, Dist>, previous: map<NodeId, Option<NodeId>>,
                            queue: seq<NodeId>, u: NodeId, queue': seq<NodeId>,
                            distance': map<NodeId, Dist>, previous': map<NodeId, Option<NodeId>>)
    requires FrontierRelaxed(g, distance, queue)
    requires forall v :: v in queue ==> v in distance
    requires u in queue && u in distance && distance[u].Some?
    requires forall v :: v in queue' <==> v in queue && v != u
    requires RelaxedFrom(g, u, queue', distance, previous, distance', previous')
    ensures FrontierRelaxed(g, distance', queue')
  {
    forall a, v | (a, v) in g.weight && a in distance' && a !in queue' && v in queue'
      ensures distance'[a].Some? && v in distance' && distance'[v].Some?
      ensures distance'[v].value <= distance'[a].value + g.weight[(a, v)]
    {
      assert v in distance;
      assert distance'[a] == distance[a];
      if a == u {
        assert distance'[v].value <= distance[u].value + g.weight[(u, v)];
      } else {
        assert a !in queue;
        assert distance[v].Some? && distance[v].value <= distance[a].value + g.weight[(a, v)];
        assert distance'[v].value <= distance[v].value;
      }
    }
  }

  /** The three lemmas above together: one iteration of the main loop keeps the invariant. */
  lemma SettleStep(g: Graph, source: NodeId,
                   distance: map<NodeId, Dist>, previous: map<NodeId, Option<NodeId>>, queue: seq<NodeId>,
                   k: nat, distance': map<NodeId, Dist>, previous': map<NodeId, Option<NodeId>>)
    requires SearchInvariant(g, source, distance, previous, queue)
    requires IsFirstMinimum(queue, distance, k)
    requires RelaxedFrom(g, queue[k], queue[..k] + queue[k + 1..], distance, previous, distance', previous')
    ensures SearchInvariant(g, source, distance', previous', queue[..k] + queue[k + 1..])
  {
    var u, queue' := queue[k], queue[..k] + queue[k + 1..];
    RemoveFromQueue(queue, k);
    SelectedIsShortest(g, source, distance, previous, queue, k);
    SettleKeepsPredecessors(g, source, distance, previous, queue, u, queue', distance', previous');
    SettleKeepsFrontier(g, distance, previous, queue, u, queue', distance', previous');
    SettleKeepsSettled(g, source, distance, previous, queue, u, queue', distance', previous');
  }

  /** Right after initialisation only the source is settled, at distance 0, and nothing has a predecessor. */
  lemma InitialSearchInvariant(g: Graph, source: NodeId,
                               distance: map<NodeId, Dist>, previous: map<NodeId, Option<NodeId>>, queue: seq<NodeId>)
    requires Valid(g)
    requires queue == Eligible(g, g.nodes) && Distinct(queue)
    requires distance.Keys == Elems(queue) + {source}
    requires forall v :: v in distance ==> distance[v] == if v == source then Some(0) else None
    requires previous.Keys == Elems(queue)
    requires forall v :: v in previous ==> previous[v] == None
    ensures SearchInvariant(g, source, distance, previous, queue)
  {
    assert Elems(queue) == EligibleSet(g);
    forall a, v | (a, v) in g.weight && a in distance && a !in queue && v in queue
      ensures false
    {
      assert HasIncidentEdge(g, a);
    }
    forall a | a in distance && a !in queue
      ensures distance[a].Some? && NoShorterPath(g, source, a, distance[a].value)
    {
      assert a == source;
    }
  }

  /** After settling `u`, which no path beats, every settled node is at its shortest distance. */
  lemma SettleKeepsSettled(g: Graph, source: NodeId,
                           distance: map<NodeId, Dist>, previous: map<NodeId, Option<NodeId>>, queue: seq<NodeId>,
                           u: NodeId, queue': seq<NodeId>,
                           distance': map<NodeId, Dist>, previous': map<NodeId, Option<NodeId>>)
    requires SearchInvariant(g, source, distance, previous, queue)
    requires u in queue && distance[u].Some? && NoShorterPath(g, source, u, distance[u].value)
    requires forall v :: v in queue' <==> v in queue && v != u
    requires RelaxedFrom(g, u, queue', distance, previous, distance', previous')
    ensures SettledAreShortest(g, source, distance', queue')
  {
    forall a | a in distance' && a !in queue'
      ensures distance'[a].Some? && NoShorterPath(g, source, a, distance'[a].value)
    {
      assert distance'[a] == distance[a];
    }
  }

  /** Once the queue is empty or holds only nodes at Infinity, the invariant is the full result. */
  lemma Finish(g: Graph, source: NodeId,
               distance: map<NodeId, Dist>, previous: map<NodeId, Option<NodeId>>, queue: seq<NodeId>)
    requires SearchInvariant(g, source, distance, previous, queue)
    requires forall v :: v in queue ==> distance[v].None?
    ensures ShortestPathTree(g, source, distance, previous)
  {
    forall v | v in distance && distance[v].None? ensures !Reachable(g, source, v) {
      if Reachable(g, source, v) {
        var p :| IsPath(g, p, source, v);
        Frontier(g, source, distance, previous, queue, p, v);
      }
    }
  }

  /** The search of app/algorithms/dijkstra.ts: settle the nearest queued node,
      relax the edges out of it, stop when the queue is empty or only Infinity is left. */
  method Dijkstra(g: Graph, source: NodeId)
    returns (distance: map<NodeId, Dist>, previous: map<NodeId, Option<NodeId>>)
    requires Valid(g)
    ensures ShortestPathTree(g, source, distance, previous)
  {
    var queue;
    distance, previous, queue := Initialize(g, source);
    InitialSearchInvariant(g, source, distance, previous, queue);
    while |queue| != 0
      invariant SearchInvariant(g, source, distance, previous, queue)
      decreases |queue|
    {
      var sel := SelectMin(queue, distance);
      if sel.None? {
        break;
      }
      var k := sel.value;
      var u := queue[k];
      var queue' := queue[..k] + queue[k + 1..];
      RemoveFromQueue(queue, k);
      var distance', previous' := Relax(g, u, queue', distance, previous);
      SettleStep(g, source, distance, previous, queue, k, distance', previous');
      distance, previous, queue := distance', previous', queue';
    }
    Finish(g, source, distance, previous, queue);
  }

  // ---------------------------------------------------------------------------
  // Path reconstruction (getPathToTargetDijkstra)
  // ---------------------------------------------------------------------------

  /** Every predecessor link leads to a node of strictly smaller rank: the chain
      of predecessors from any node is finite. */
  ghost predicate PredecessorsRanked(previous: map<NodeId, Option<NodeId>>, rank: map<NodeId, nat>) {
    forall v :: v in previous && previous[v].Some? ==>
      v in rank && previous[v].value in rank && rank[previous[v].value] < rank[v]
  }

  /** `path` is the predecessor chain that ends at `target`, written from its far end:
      each node is the predecessor of the next, the first node is `source` or has
      no predecessor, and `source` appears nowhere else. */
  ghost predicate FollowsPredecessors(source: NodeId, target: NodeId,
                                      previous: map<NodeId, Option<NodeId>>, path: seq<NodeId>)
  {
    && |path| >= 1 && path[|path| - 1] == target
    && (forall i :: 0 <= i < |path| - 1 ==> Pred(previous, path[i + 1]) == Some(path[i]))
    && (path[0] == source || Pred(previous, path[0]) == None)
    && (forall i :: 0 < i < |path| ==> path[i] != source)
  }

  function Reverse(s: seq<NodeId>): (r: seq<NodeId>)
    ensures |r| == |s|
    ensures forall i :: 0 <= i < |s| ==> r[i] == s[|s| - 1 - i]
  {
    if s == [] then [] else Reverse(s[1..]) + [s[0]]
  }

  function ChainMeasure(current: Option<NodeId>, rank: map<NodeId, nat>): nat {
    match current
    case None => 0
    case Some(x) => if x in rank then rank[x] + 2 else 1
  }

  /** Walk the predecessors back from `target` until the source or an unset
      predecessor, pushing each node, then reverse. */
  method PathTo(source: NodeId, target: NodeId, previous: map<NodeId, Option<NodeId>>,
                ghost rank: map<NodeId, nat>)
    returns (path: seq<NodeId>)
    requires PredecessorsRanked(previous, rank)
    ensures FollowsPredecessors(source, target, previous, path)
  {
    var pushed: seq<NodeId> := [];
    var currentNode: Option<NodeId> := Some(target);
    while currentNode.Some? && currentNode.value != source
      invariant pushed == [] ==> currentNode == Some(target)
      invariant pushed != [] ==> pushed[0] == target && currentNode == Pred(previous, pushed[|pushed| - 1])
      invariant forall i :: 0 <= i < |pushed| - 1 ==> Pred(previous, pushed[i]) == Some(pushed[i + 1])
      invariant forall j :: 0 <= j < |pushed| ==> pushed[j] != source
      decreases ChainMeasure(currentNode, rank)
    {
      pushed := pushed + [currentNode.value];
      currentNode := Pred(previous, currentNode.value);
    }
    ghost var walked := pushed;
    if currentNode == Some(source) {
      pushed := pushed + [source];
    }
    assert forall j :: 0 <= j < |walked| ==> pushed[j] == walked[j] && walked[j] != source;
    path := Reverse(pushed);
    assert forall i :: 0 < i < |path| ==> path[i] == pushed[|pushed| - 1 - i] && |pushed| - 1 - i < |walked|;
  }

  /** Dijkstra's predecessor links are ranked by distance, since every edge weighs at least 1. */
  function DistanceRank(distance: map<NodeId, Dist>): map<NodeId, nat> {
    map v | v in distance && distance[v].Some? :: distance[v].value
  }

  lemma DistanceRanksPredecessors(g: Graph, source: NodeId,
                                  distance: map<NodeId, Dist>, previous: map<NodeId, Option<NodeId>>)
    requires PredecessorsConsistent(g, source, distance, previous)
    ensures PredecessorsRanked(previous, DistanceRank(distance))
  {
  }

  /** A predecessor chain that ends at a node of finite distance is a path from
      the source whose weight is that distance. */
  lemma {:induction false} ChainIsPath(g: Graph, source: NodeId, distance: map<NodeId, Dist>,
                                       previous: map<NodeId, Option<NodeId>>, t: NodeId, path: seq<NodeId>)
    requires PredecessorsConsistent(g, source, distance, previous)
    requires source in distance && distance[source] == Some(0)
    requires FollowsPredecessors(source, t, previous, path)
    requires t in distance && distance[t].Some?
    ensures IsPath(g, path, source, t) && PathWeight(g, path) == distance[t].value
    decreases |path|
  {
    if |path| > 1 {
      var p := path[|path| - 2];
      var prefix := path[..|path| - 1];
      assert Pred(previous, t) == Some(p);
      assert FollowsPredecessors(source, p, previous, prefix);
      ChainIsPath(g, source, distance, previous, p, prefix);
      assert path == prefix + [t];
    }
  }

  /** A chain of more than one node ends at a node with a predecessor. */
  lemma ChainEndHasPredecessor(source: NodeId, t: NodeId, previous: map<NodeId, Option<NodeId>>, path: seq<NodeId>)
    requires FollowsPredecessors(source, t, previous, path)
    ensures |path| >= 2 ==> Pred(previous, t) == Some(path[|path| - 2])
  {
    if |path| >= 2 {
      var i := |path| - 2;
      assert Pred(previous, path[i + 1]) == Some(path[i]);
    }
  }

  /** In a shortest-path tree every node reachable from the source has a finite distance. */
  lemma ReachableHasDistance(g: Graph, source: NodeId, target: NodeId, distance: map<NodeId, Dist>,
                             previous: map<NodeId, Option<NodeId>>)
    requires Valid(g)
    requires ShortestPathTree(g, source, distance, previous)
    ensures Reachable(g, source, target) ==> target in distance && distance[target].Some?
  {
    if Reachable(g, source, target) && target != source {
      var q :| IsPath(g, q, source, target);
      PathEndHasEdge(g, q, source, target);
      assert target in EligibleSet(g);
    }
  }

  /** Read back from a shortest-path tree, the predecessor chain of a reachable
      target is a shortest path from the source; an unreachable target gives [target]. */
  lemma PredecessorPathIsShortest(g: Graph, source: NodeId, target: NodeId, distance: map<NodeId, Dist>,
                                  previous: map<NodeId, Option<NodeId>>, path: seq<NodeId>)
    requires Valid(g)
    requires ShortestPathTree(g, source, distance, previous)
    requires FollowsPredecessors(source, target, previous, path)
    ensures Reachable(g, source, target) <==> target in distance && distance[target].Some?
    ensures Reachable(g, source, target) ==>
      IsPath(g, path, source, target) && PathWeight(g, path) == distance[target].value
    ensures !Reachable(g, source, target) ==> path == [target]
  {
    ReachableHasDistance(g, source, target, distance, previous);
    if target in distance && distance[target].Some? {
      ChainIsPath(g, source, distance, previous, target, path);
    } else {
      ChainEndHasPredecessor(source, target, previous, path);
    }
  }

  /** The shortest-path button: run the search from `source`, read the distance
      of `target` and rebuild the path. A path of one node is reported as "no path". */
  method ShortestPath(g: Graph, source: NodeId, target: NodeId) returns (dist: Dist, path: seq<NodeId>)
    requires Valid(g)
    ensures dist.Some? <==> Reachable(g, source, target)
    ensures dist.Some? ==>
      && IsPath(g, path, source, target)
      && PathWeight(g, path) == dist.value
      && NoShorterPath(g, source, target, dist.value)
    ensures dist.None? ==> path == [target]
    ensures |path| != 1 <==> dist.Some? && source != target
  {
    var distance, previous := Dijkstra(g, source);
    dist := if target in distance then distance[target] else None;
    DistanceRanksPredecessors(g, source, distance, previous);
    path := PathTo(source, target, previous, DistanceRank(distance));
    PredecessorPathIsShortest(g, source, target, distance, previous, path);
  }

  // ---------------------------------------------------------------------------
  // The "simple graph" sample: n1 -> n2 (weight 3), n2 -> n3 (weight 5)
  // ---------------------------------------------------------------------------

  function SimpleGraph(): Graph {
    Graph(["n1", "n2", "n3"], map[("n1", "n2") := 3, ("n2", "n3") := 5])
  }

  /** In the simple graph the only path from n1 to n3 is n1, n2, n3. */
  lemma SimpleGraphPaths(p: seq<NodeId>)
    requires IsPath(SimpleGraph(), p, "n1", "n3")
    ensures p == ["n1", "n2", "n3"]
  {
    var g := SimpleGraph();
    var n := |p|;
    assert p[0] == "n1" && p[n - 1] == "n3";
    assert n >= 2;
    assert (p[n - 2], p[n - 1]) in g.weight;
    assert p[n - 2] == "n2";
    assert n >= 3;
    assert (p[n - 3], p[n - 2]) in g.weight;
    assert p[n - 3] == "n1";
    forall i | 0 < i < n
      ensures p[i] != "n1"
    {
      var e := (p[i - 1], p[i]);
      assert e in g.weight;
      assert e == ("n1", "n2") || e == ("n2", "n3");
    }
  }

  /** In the simple graph n3 is reachable from n1, so a shortest-path tree gives it a finite distance. */
  lemma SimpleGraphN3Finite(distance: map<NodeId, Dist>)
    requires distance.Keys == EligibleSet(SimpleGraph()) + {"n1"}
    requires forall v :: v in distance && distance[v].None? ==> !Reachable(SimpleGraph(), "n1", v)
    ensures "n3" in distance && distance["n3"].Some?
  {
    var g := SimpleGraph();
    assert IsPath(g, ["n1", "n2", "n3"], "n1", "n3");
    assert HasIncidentEdge(g, "n3") by { assert ("n2", "n3") in g.weight; }
  }

  /** Consistent predecessor links from n1 that give n3 a finite distance lead
      back through n2 to n1 and add up to 8. */
  lemma SimpleGraphChain(distance: map<NodeId, Dist>, previous: map<NodeId, Option<NodeId>>)
    requires PredecessorsConsistent(SimpleGraph(), "n1", distance, previous)
    requires "n1" in distance && distance["n1"] == Some(0)
    requires "n3" in distance && distance["n3"].Some?
    ensures distance["n3"] == Some(8)
    ensures "n3" in previous && previous["n3"] == Some("n2")
    ensures "n2" in previous && previous["n2"] == Some("n1")
  {
    var g := SimpleGraph();
    var p3 := previous["n3"].value;
    assert (p3, "n3") in g.weight;
    assert p3 == "n2";
    var p2 := previous["n2"].value;
    assert (p2, "n2") in g.weight;
    assert p2 == "n1";
  }

  /** Any shortest-path tree from n1 on the simple graph puts n3 at distance 8,
      reached through n2 from n1. */
  lemma SimpleGraphTree(distance: map<NodeId, Dist>, previous: map<NodeId, Option<NodeId>>)
    requires ShortestPathTree(SimpleGraph(), "n1", distance, previous)
    ensures "n3" in distance && distance["n3"] == Some(8)
    ensures "n3" in previous && previous["n3"] == Some("n2")
    ensures "n2" in previous && previous["n2"] == Some("n1")
  {
    SimpleGraphN3Finite(distance);
    SimpleGraphChain(distance, previous);
  }

  /** Dijkstra from n1 on the simple graph: n3 is at distance 8, reached through n2 from n1. */
  method SimpleGraphFromN1() returns (distanceOfN3: Dist, previousOfN3: Option<NodeId>,
                                      previousOfN2: Option<NodeId>, path: seq<NodeId>)
    ensures distanceOfN3 == Some(8)
    ensures previousOfN3 == Some("n2") && previousOfN2 == Some("n1")
    ensures path == ["n1", "n2", "n3"]
  {
    var g := SimpleGraph();
    var distance, previous := Dijkstra(g, "n1");
    SimpleGraphTree(distance, previous);
    distanceOfN3 := distance["n3"];
    previousOfN3 := previous["n3"];
    previousOfN2 := previous["n2"];
    var chain := PathTo("n1", "n3", previous, DistanceRank(distance));
    ChainIsPath(g, "n1", distance, previous, "n3", chain);
    SimpleGraphPaths(chain);
    path := chain;
  }
}
