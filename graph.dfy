module Wrappers {

  /** Some value, or nothing (an absent map key, an unset predecessor, an infinite distance). */
  datatype Option<T> = None | Some(value: T)
}

/**
  The structural view of the graph that the routing engine reads: node ids in
  the order of the node collection, and one positive weight per ordered pair of
  nodes joined by an edge. Parallel edges between the same ordered pair are not
  represented here (see AdjacencyMatrix and Highlight, which work on edge lists).
 */
module Graph {
  import opened Wrappers

  type NodeId = string

  /** Edge weights are positive integers (the editor's slider offers 1 to 25). */
  type Weight = w: nat | 1 <= w witness 1

  /** One edge of the editor's edge list. */
  datatype Edge = Edge(source: NodeId, target: NodeId, weight: Weight)

  datatype Graph = Graph(nodes: seq<NodeId>, weight: map<(NodeId, NodeId), Weight>)

  predicate Distinct<T(==)>(s: seq<T>) {
    forall i, j :: 0 <= i < j < |s| ==> s[i] != s[j]
  }

  function Elems(s: seq<NodeId>): (r: set<NodeId>)
    ensures forall x :: x in r <==> x in s
  {
    set x | x in s
  }

  /** One more element of a prefix. */
  lemma PrefixStep(s: seq<NodeId>, i: nat)
    requires i < |s|
    ensures forall x :: x in s[..i + 1] <==> x in s[..i] || x == s[i]
  {
    assert s[..i + 1] == s[..i] + [s[i]];
  }

  /** Node ids are unique and every edge joins two nodes of the graph. */
  ghost predicate Valid(g: Graph) {
    && Distinct(g.nodes)
    && forall e :: e in g.weight ==> e.0 in g.nodes && e.1 in g.nodes
  }

  /** The node has at least one edge, in either direction. */
  predicate HasIncidentEdge(g: Graph, v: NodeId) {
    exists e :: e in g.weight && (e.0 == v || e.1 == v)
  }

  /** The targets of all edges connected to `n`, incoming ones included
      (so `n` itself is one of them as soon as some edge enters `n`). */
  function ConnectedTargets(g: Graph, n: NodeId): set<NodeId> {
    set e | e in g.weight && (e.0 == n || e.1 == n) :: e.1
  }

  /** Apart from `n` itself, the targets of `n`'s connected edges are exactly
      its successors along directed edges. */
  lemma ConnectedTargetsAreSuccessors(g: Graph, n: NodeId, x: NodeId)
    requires x != n
    ensures x in ConnectedTargets(g, n) <==> (n, x) in g.weight
  {
    if (n, x) in g.weight {
      assert x == (n, x).1;
    }
  }

  /** `n` is among its own connected targets exactly when some edge enters it. */
  lemma SelfIsConnectedTarget(g: Graph, n: NodeId)
    ensures n in ConnectedTargets(g, n) <==> exists a :: (a, n) in g.weight
  {
    if exists a :: (a, n) in g.weight {
      var a :| (a, n) in g.weight;
      assert n == (a, n).1;
    }
  }

  /** The members of `ns`, in order, that are connected targets of `n` other than `excluded`. */
  function TargetsExcept(ns: seq<NodeId>, targets: set<NodeId>, excluded: NodeId): (r: seq<NodeId>)
    ensures forall x :: x in r <==> x in ns && x in targets && x != excluded
    ensures Distinct(ns) ==> Distinct(r)
    ensures |r| <= |ns|
  {
    if ns == [] then []
    else
      var rest := TargetsExcept(ns[1..], targets, excluded);
      if ns[0] in targets && ns[0] != excluded then [ns[0]] + rest else rest
  }

  /** The candidate next hops out of `n`: the targets of its connected edges,
      without `excluded`, in node-collection order. */
  function Neighbours(g: Graph, n: NodeId, excluded: NodeId): seq<NodeId> {
    TargetsExcept(g.nodes, ConnectedTargets(g, n), excluded)
  }

  /** Consecutive nodes are joined by a directed edge. */
  ghost predicate IsWalk(g: Graph, p: seq<NodeId>) {
    forall i :: 0 <= i < |p| - 1 ==> (p[i], p[i + 1]) in g.weight
  }

  ghost predicate IsPath(g: Graph, p: seq<NodeId>, s: NodeId, t: NodeId) {
    |p| >= 1 && p[0] == s && p[|p| - 1] == t && IsWalk(g, p)
  }

  ghost predicate Reachable(g: Graph, s: NodeId, t: NodeId) {
    exists p :: IsPath(g, p, s, t)
  }

  /** The sum of the weights of the edges along a walk. */
  function PathWeight(g: Graph, p: seq<NodeId>): nat
    requires IsWalk(g, p)
    decreases |p|
  {
    if |p| <= 1 then 0
    else PathWeight(g, p[..|p| - 1]) + g.weight[(p[|p| - 2], p[|p| - 1])]
  }

  /** No walk weighs less than one of its prefixes, because weights are positive. */
  lemma {:induction false} PrefixWeighsLess(g: Graph, p: seq<NodeId>, k: nat)
    requires IsWalk(g, p)
    requires 1 <= k <= |p|
    ensures IsWalk(g, p[..k])
    ensures PathWeight(g, p[..k]) <= PathWeight(g, p)
    decreases |p|
  {
    if k < |p| {
      var q := p[..|p| - 1];
      assert q[..k] == p[..k];
      PrefixWeighsLess(g, q, k);
    } else {
      assert p[..k] == p;
    }
  }

  /** A path of more than one node ends with an edge, so both ends have an incident edge. */
  lemma PathEndHasEdge(g: Graph, p: seq<NodeId>, s: NodeId, t: NodeId)
    requires IsPath(g, p, s, t)
    requires |p| >= 2
    ensures (p[|p| - 2], t) in g.weight
    ensures HasIncidentEdge(g, t)
  {
    assert (p[|p| - 2], p[|p| - 1]) in g.weight;
  }
}
