/**
  Highlighting a shortest path on the canvas: every router of the path, and
  for each hop the edges from the previous router to the next whose weight is
  the least among the edges between them (several when they tie). The edges
  are the editor's edge list, parallel edges included.
 */
module Highlight {
  import opened Wrappers
  import opened Graph

  /** Edge `i` of the list goes from `from` to `to`. */
  predicate Joins(edges: seq<Edge>, i: int, from: NodeId, to: NodeId) {
    0 <= i < |edges| && edges[i].source == from && edges[i].target == to
  }

  /** Edge `i` goes from `from` to `to` and no edge between them weighs less. */
  ghost predicate IsMinEdge(edges: seq<Edge>, i: int, from: NodeId, to: NodeId) {
    Joins(edges, i, from, to) && forall j :: Joins(edges, j, from, to) ==> edges[i].weight <= edges[j].weight
  }

  /** As soon as two routers are joined by an edge, one of their edges has the least weight. */
  lemma {:induction false} MinEdgeExists(edges: seq<Edge>, from: NodeId, to: NodeId, i0: int)
    requires Joins(edges, i0, from, to)
    ensures exists i :: IsMinEdge(edges, i, from, to)
    decreases edges[i0].weight
  {
    if !IsMinEdge(edges, i0, from, to) {
      var j :| Joins(edges, j, from, to) && edges[j].weight < edges[i0].weight;
      MinEdgeExists(edges, from, to, j);
    }
  }

  /** The selection for one hop, as written: a running minimum over the edges
      from `from` to `to` (None standing for Infinity), then every edge of that
      weight is marked. */
  method MinWeightEdges(edges: seq<Edge>, from: NodeId, to: NodeId) returns (minWeight: Option<nat>, marked: set<int>)
    ensures minWeight.None? <==> forall i :: 0 <= i < |edges| ==> !Joins(edges, i, from, to)
    ensures minWeight.Some? ==>
              && (exists i :: Joins(edges, i, from, to) && edges[i].weight == minWeight.value)
              && (forall i :: Joins(edges, i, from, to) ==> minWeight.value <= edges[i].weight)
    ensures forall i :: i in marked <==> IsMinEdge(edges, i, from, to)
  {
    minWeight := None;
    for k := 0 to |edges|
      invariant minWeight.None? <==> forall i :: 0 <= i < k ==> !Joins(edges, i, from, to)
      invariant minWeight.Some? ==>
                  && (exists i :: 0 <= i < k && Joins(edges, i, from, to) && edges[i].weight == minWeight.value)
                  && (forall i :: 0 <= i < k && Joins(edges, i, from, to) ==> minWeight.value <= edges[i].weight)
    {
      if Joins(edges, k, from, to) && (minWeight.None? || edges[k].weight < minWeight.value) {
        minWeight := Some(edges[k].weight);
      }
    }
    marked := {};
    for k := 0 to |edges|
      invariant forall i :: i in marked <==> 0 <= i < k && IsMinEdge(edges, i, from, to)
    {
      if Joins(edges, k, from, to) && minWeight == Some(edges[k].weight) {
        marked := marked + {k};
      }
    }
  }

  /** The whole path: every router is highlighted, and for every hop the
      least-weight edges between its two routers. */
  method HighlightPath(edges: seq<Edge>, path: seq<NodeId>) returns (routers: set<NodeId>, marked: set<int>)
    ensures routers == Elems(path)
    ensures forall i :: i in marked <==> exists k :: 1 <= k < |path| && IsMinEdge(edges, i, path[k - 1], path[k])
  {
    routers := {};
    marked := {};
    for k := 0 to |path|
      invariant routers == Elems(path[..k])
      invariant forall i :: i in marked <==> exists h :: 1 <= h < k && IsMinEdge(edges, i, path[h - 1], path[h])
    {
      if k > 0 {
        var _, hop := MinWeightEdges(edges, path[k - 1], path[k]);
        marked := marked + hop;
      }
      routers := routers + {path[k]};
      assert path[..k + 1] == path[..k] + [path[k]];
    }
    assert path[..|path|] == path;
  }
}
